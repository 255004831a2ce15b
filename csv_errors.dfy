/** The exceptions of the reader: the tokens that raise each kind, the line number each carries,
    the verdict of the record limits, and the reach of the cell limit (chunks inside quotes only). */
module CsvErrors {
  import opened CsvTypes
  import opened CsvSpec
  import opened CsvProperties

  /** The kinds only checkRecordExceptions throws. */
  predicate RecordLimit(kind: ErrorKind)
  {
    kind == ExceededRowLength || kind == ExceededFileSize || kind == ExceededRecords
  }

  /** What has just been consumed when the record assembler throws, by kind: "Unknown error" on a
      word right after a word, an unescaped quote right after a word, text right after a closing
      quote, the column limit on a separator, end of line or end of file, the cell limit on
      a chunk appended inside quotes that is longer than the limit (a word longer than the limit,
      or a one-character separator, end of line or doubled quote under a limit below one). The
      line number is the tokenizer's once the offending token has been read: one plus the ends of
      line consumed, that token included. */
  predicate ErrorSite(c: Config, s: Step)
  {
    s.result.Failed? ==>
      var tokens := c.tokens;
      var maxCell := c.limits.maxSizeOfIndividualCell;
      var e := s.result.error;
      && s.pos >= 1
      && e.recordNumber == Line(tokens, s.pos)
      && !RecordLimit(e.kind)
      && (e.kind == UnknownError ==> s.pos >= 2 && At(tokens, s.pos - 2).Word? && At(tokens, s.pos - 1).Word?)
      && (e.kind == UnescapedQuote ==> s.pos >= 2 && At(tokens, s.pos - 2).Word? && At(tokens, s.pos - 1) == Quote)
      && (e.kind == TextAfterEndQuote ==> s.pos >= 2 && At(tokens, s.pos - 2) == Quote && At(tokens, s.pos - 1).Word?)
      && (e.kind == EofInQuote ==> At(tokens, s.pos - 1) == Eof)
      && (e.kind == ExceededColumns ==> At(tokens, s.pos - 1) in {Sep, Eol, Eof})
      && (e.kind == ExceededFieldSize ==>
            var last := At(tokens, s.pos - 1);
            && ((last.Word? && |last.text| > maxCell) || (last in {Sep, Eol, Quote} && maxCell < 1))
            && (last == Quote ==> s.pos >= 2 && At(tokens, s.pos - 2) == Quote))
  }

  /** How the outer loop is entered: a field that already holds text came from the word just
      read, or is a closed quoted field, whose closing quote is followed by neither a word nor a quote. */
  predicate OutEntry(tokens: seq<Token>, pos: nat, fieldValue: Field)
  {
    fieldValue.Some? ==> (pos >= 1 && At(tokens, pos - 1).Word?) || !(At(tokens, pos).Word? || At(tokens, pos) == Quote)
  }

  lemma {:induction false} OutErrorSite(c: Config, pos: nat, record: Record, fieldValue: Field)
    requires OutEntry(c.tokens, pos, fieldValue)
    ensures ErrorSite(c, ScanOut(c, pos, record, fieldValue))
    decreases |c.tokens| - pos
  {
    match At(c.tokens, pos)
    case Sep =>
      var a := AddedField(record, fieldValue, c.limits.maxColumnsPerRow, Line(c.tokens, pos + 1));
      if a.Done? {
        OutErrorSite(c, pos + 1, a.value, None);
      }
    case Word(w) =>
      if fieldValue.None? {
        OutErrorSite(c, pos + 1, record, Some(w));
      }
    case Quote =>
      if fieldValue.None? {
        InErrorSite(c, pos + 1, record, fieldValue);
      }
    case _ =>
  }

  lemma {:induction false} InErrorSite(c: Config, pos: nat, record: Record, fieldValue: Field)
    ensures ErrorSite(c, ScanIn(c, pos, record, fieldValue))
    decreases |c.tokens| - pos, 1
  {
    var line := Line(c.tokens, pos + 1);
    var maxCell := c.limits.maxSizeOfIndividualCell;
    match At(c.tokens, pos)
    case Sep =>
      var a := Appended(fieldValue, [c.separator], maxCell, line);
      if a.Done? {
        InErrorSite(c, pos + 1, record, Some(a.value));
      }
    case Eol =>
      var a := Appended(fieldValue, "\n", maxCell, line);
      if a.Done? {
        InErrorSite(c, pos + 1, record, Some(a.value));
      }
    case Word(w) =>
      var a := Appended(fieldValue, w, maxCell, line);
      if a.Done? {
        InErrorSite(c, pos + 1, record, Some(a.value));
      }
    case Eof =>
    case Quote =>
      AfterQuoteErrorSite(c, pos, record, fieldValue);
  }

  /** The quote case of InErrorSite: an escaped quote, text after the closing quote, or the end
      of the quoted field. */
  lemma {:induction false} AfterQuoteErrorSite(c: Config, pos: nat, record: Record, fieldValue: Field)
    requires At(c.tokens, pos) == Quote
    ensures ErrorSite(c, ScanIn(c, pos, record, fieldValue))
    decreases |c.tokens| - pos, 0
  {
    match At(c.tokens, pos + 1)
    case Quote =>
      var a := Appended(fieldValue, "\"", c.limits.maxSizeOfIndividualCell, Line(c.tokens, pos + 2));
      if a.Done? {
        InErrorSite(c, pos + 2, record, Some(a.value));
      }
    case Word(_) =>
    case _ =>
      OutErrorSite(c, pos + 1, record, fieldValue);
  }

  /** Every exception nextRecordLocal throws is raised where ErrorSite says. */
  lemma ReadLocalErrorSite(c: Config, pos: nat, atEOF: bool)
    ensures ErrorSite(c, ReadLocal(c, pos, atEOF))
  {
    if !atEOF {
      OutErrorSite(c, pos, [], None);
    }
  }

  lemma {:induction false} SkipBlankErrorSite(c: Config, s: Step)
    requires Reachable(c, s) && ErrorSite(c, s)
    ensures ErrorSite(c, SkipBlank(c, s))
    decreases BlankBudget(c, s)
  {
    if s.result.Done? && s.result.value.Some? && IsBlank(s.result.value.value) {
      ReadLocalErrorSite(c, s.pos, s.atEOF);
      SkipBlankErrorSite(c, ReadLocal(c, s.pos, s.atEOF));
    }
  }

  /** The exceptions of nextRecord: those of the record assembler are raised where ErrorSite says;
      those of the record limits are raised once the record's end of line or end of file has been
      consumed, so after an end of line they report the line after the record's last line. */
  lemma ReadNextErrorSite(c: Config, st: State)
    ensures var (r, st') := ReadNext(c, st);
      r.Failed? ==>
        && st'.pos >= 1
        && r.error.recordNumber == Line(c.tokens, st'.pos)
        && (!RecordLimit(r.error.kind) ==> ErrorSite(c, Step(r, st'.pos, st'.atEOF)))
        && (RecordLimit(r.error.kind) ==> At(c.tokens, st'.pos - 1) in {Eol, Eof})
        && (RecordLimit(r.error.kind) && At(c.tokens, st'.pos - 1) == Eol ==>
              r.error.recordNumber == Line(c.tokens, st'.pos - 1) + 1)
  {
    var s0 := ReadLocal(c, st.pos, st.atEOF);
    ReadLocalErrorSite(c, st.pos, st.atEOF);
    ReadLocalShape(c, st.pos, st.atEOF);
    SkipBlankErrorSite(c, s0);
    SkipBlankShape(c, s0);
  }

  /** checkRecordExceptions lets a record through exactly when its characters, the file's
      characters with it and the record count with it are all within their limits; reaching a
      limit exactly is allowed. Each counter is updated before the comparison that may fail: a
      row-length failure leaves both alone, a file-size failure keeps the grown file size, and a
      record-count failure keeps both grown counters. */
  lemma CheckRecordVerdict(lim: Limits, fileSize: int, rows: int, record: Record, lineno: int)
    ensures var k := CheckRecord(lim, fileSize, rows, Some(record), lineno);
      && (k.error.None? <==>
            && RowChars(record) <= lim.maxRowSizeInCharacters
            && fileSize + RowChars(record) <= lim.maxFileSizeInCharacters
            && rows + 1 <= lim.maxRowsInFile)
      && (k.error.Some? ==> k.error.value.recordNumber == lineno && RecordLimit(k.error.value.kind))
      && fileSize <= k.fileSize <= fileSize + RowChars(record)
      && rows <= k.rows <= rows + 1
      && (k.error.Some? && k.error.value.kind == ExceededRowLength ==> k.fileSize == fileSize && k.rows == rows)
      && (k.error.Some? && k.error.value.kind == ExceededFileSize ==>
            k.fileSize == fileSize + RowChars(record) && k.rows == rows)
      && ((k.error.Some? && k.error.value.kind == ExceededRecords) || k.error.None? ==>
            k.fileSize == fileSize + RowChars(record) && k.rows == rows + 1)
  {
  }

  // ---------------------------------------------------------------------------------------------
  // The cell limit

  /** No quote from index pos on. */
  predicate NoQuoteFrom(tokens: seq<Token>, pos: nat)
  {
    forall i :: pos <= i < |tokens| ==> tokens[i] != Quote
  }

  /** The same configuration with another cell limit. */
  function WithCellLimit(c: Config, maxCell: int): (c': Config)
    ensures c'.tokens == c.tokens && c'.separator == c.separator
  {
    c.(limits := c.limits.(maxSizeOfIndividualCell := maxCell))
  }

  /** A word outside quotes is never compared with the cell limit: without quotes ahead, the outer
      loop behaves the same whatever the limit. */
  lemma {:induction false} UnquotedIgnoresCellLimit(c: Config, maxCell: int, pos: nat, record: Record, fieldValue: Field)
    requires NoQuoteFrom(c.tokens, pos)
    ensures ScanOut(WithCellLimit(c, maxCell), pos, record, fieldValue) == ScanOut(c, pos, record, fieldValue)
    decreases |c.tokens| - pos
  {
    var c' := WithCellLimit(c, maxCell);
    match At(c.tokens, pos)
    case Sep =>
      var a := AddedField(record, fieldValue, c.limits.maxColumnsPerRow, Line(c.tokens, pos + 1));
      if a.Done? {
        UnquotedIgnoresCellLimit(c, maxCell, pos + 1, a.value, None);
      }
    case Word(w) =>
      if fieldValue.None? {
        UnquotedIgnoresCellLimit(c, maxCell, pos + 1, record, Some(w));
      }
    case _ =>
  }

  lemma {:induction false} SkipBlankIgnoresCellLimit(c: Config, maxCell: int, start: nat, s: Step)
    requires NoQuoteFrom(c.tokens, start) && s.pos >= start && Reachable(c, s)
    ensures SkipBlank(WithCellLimit(c, maxCell), s) == SkipBlank(c, s)
    decreases BlankBudget(c, s)
  {
    if s.result.Done? && s.result.value.Some? && IsBlank(s.result.value.value) {
      if !s.atEOF {
        UnquotedIgnoresCellLimit(c, maxCell, s.pos, [], None);
      }
      SkipBlankIgnoresCellLimit(c, maxCell, start, ReadLocal(c, s.pos, s.atEOF));
    }
  }

  /** On a stream with no quote ahead, nextRecord returns the same records, throws the same
      exceptions and leaves the same state whatever the cell limit: only chunks appended inside
      quotes are ever checked against it. */
  lemma ReadNextIgnoresCellLimit(c: Config, maxCell: int, st: State)
    requires NoQuoteFrom(c.tokens, st.pos)
    ensures ReadNext(WithCellLimit(c, maxCell), st) == ReadNext(c, st)
  {
    if !st.atEOF {
      UnquotedIgnoresCellLimit(c, maxCell, st.pos, [], None);
    }
    SkipBlankIgnoresCellLimit(c, maxCell, st.pos, ReadLocal(c, st.pos, st.atEOF));
  }

  /** Inside quotes a word is checked on its own: a quoted word followed by its closing quote and
      a separator, end of line or end of file throws the cell-size exception, on the word's line,
      exactly when the word is longer than the limit; otherwise the word is the field, and the
      outer loop goes on from the token after the closing quote. */
  lemma QuotedWordCellLimit(c: Config, pos: nat, record: Record, w: string)
    requires At(c.tokens, pos) == Word(w) && At(c.tokens, pos + 1) == Quote
    requires At(c.tokens, pos + 2) in {Sep, Eol, Eof}
    ensures var s := ScanIn(c, pos, record, None);
      && (|w| > c.limits.maxSizeOfIndividualCell ==>
            s == Step(Failed(CSVParseException(ExceededFieldSize, Line(c.tokens, pos + 1))), pos + 1, false))
      && (|w| <= c.limits.maxSizeOfIndividualCell ==> s == ScanOut(c, pos + 2, record, Some(w)))
  {
    if |w| <= c.limits.maxSizeOfIndividualCell {
      assert Chars(None) + w == w;
    }
  }
}
