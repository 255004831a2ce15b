/** Properties of the reference reader: what a record looks like, what the limits guarantee,
    how the end-of-file flag behaves, and the round trips of quoted and unquoted fields. */
module CsvProperties {
  import opened CsvTypes
  import opened CsvSpec

  /** A step whose record, if it has one, holds between one and maxColumnsPerRow fields. */
  predicate ColumnsWithin(c: Config, s: Step)
  {
    s.result.Done? && s.result.value.Some? ==> 1 <= |s.result.value.value| <= c.limits.maxColumnsPerRow
  }

  /** Every end of line or end of file adds one field and addField refuses a field beyond the
      limit: a record the outer loop returns is longer than what it started from and within the limit. */
  lemma {:induction false} OutColumns(c: Config, pos: nat, record: Record, fieldValue: Field)
    ensures var s := ScanOut(c, pos, record, fieldValue);
      s.result.Done? ==> |record| < |s.result.value.value| <= c.limits.maxColumnsPerRow
    decreases |c.tokens| - pos
  {
    match At(c.tokens, pos)
    case Sep =>
      var a := AddedField(record, fieldValue, c.limits.maxColumnsPerRow, Line(c.tokens, pos + 1));
      if a.Done? {
        OutColumns(c, pos + 1, a.value, None);
      }
    case Word(w) =>
      if fieldValue.None? {
        OutColumns(c, pos + 1, record, Some(w));
      }
    case Quote =>
      if fieldValue.None? {
        InColumns(c, pos + 1, record, fieldValue);
      }
    case _ =>
  }

  /** The same bound for a record finished after a quoted field. */
  lemma {:induction false} InColumns(c: Config, pos: nat, record: Record, fieldValue: Field)
    ensures var s := ScanIn(c, pos, record, fieldValue);
      s.result.Done? ==> |record| < |s.result.value.value| <= c.limits.maxColumnsPerRow
    decreases |c.tokens| - pos
  {
    var line := Line(c.tokens, pos + 1);
    var maxCell := c.limits.maxSizeOfIndividualCell;
    match At(c.tokens, pos)
    case Sep =>
      var a := Appended(fieldValue, [c.separator], maxCell, line);
      if a.Done? {
        InColumns(c, pos + 1, record, Some(a.value));
      }
    case Eol =>
      var a := Appended(fieldValue, "\n", maxCell, line);
      if a.Done? {
        InColumns(c, pos + 1, record, Some(a.value));
      }
    case Word(w) =>
      var a := Appended(fieldValue, w, maxCell, line);
      if a.Done? {
        InColumns(c, pos + 1, record, Some(a.value));
      }
    case Eof =>
    case Quote =>
      match At(c.tokens, pos + 1)
      case Quote =>
        var a := Appended(fieldValue, "\"", maxCell, Line(c.tokens, pos + 2));
        if a.Done? {
          InColumns(c, pos + 2, record, Some(a.value));
        }
      case Word(_) =>
      case _ =>
        OutColumns(c, pos + 1, record, fieldValue);
  }

  /** Every record nextRecordLocal returns has at least one field and at most maxColumnsPerRow. */
  lemma ReadLocalColumns(c: Config, pos: nat, atEOF: bool)
    ensures ColumnsWithin(c, ReadLocal(c, pos, atEOF))
  {
    if !atEOF {
      OutColumns(c, pos, [], None);
    }
  }

  /** The blank-record loop ends on a record that is not blank (or on null, or an exception), and
      keeps the column bounds of the records it reads. */
  lemma {:induction false} SkipBlankResult(c: Config, s: Step)
    requires Reachable(c, s) && ColumnsWithin(c, s)
    ensures var t := SkipBlank(c, s);
      && ColumnsWithin(c, t)
      && (t.result.Done? && t.result.value.Some? ==> !IsBlank(t.result.value.value))
    decreases BlankBudget(c, s)
  {
    if s.result.Done? && s.result.value.Some? && IsBlank(s.result.value.value) {
      ReadLocalColumns(c, s.pos, s.atEOF);
      SkipBlankResult(c, ReadLocal(c, s.pos, s.atEOF));
    }
  }

  /** What one call of nextRecord does to the counters. A returned record is not blank, has between
      one and maxColumnsPerRow fields, and has been counted: the file size grows by its characters
      and the record count by one, and neither passes its limit (reaching it exactly is allowed).
      A null result leaves both counters alone, and no call ever lowers them. */
  lemma ReadNextCounters(c: Config, st: State)
    ensures var (r, st') := ReadNext(c, st);
      && st.fileSize <= st'.fileSize && st.rows <= st'.rows <= st.rows + 1
      && (r.Done? && r.value.None? ==> st'.fileSize == st.fileSize && st'.rows == st.rows)
      && (r.Done? && r.value.Some? ==>
            var record := r.value.value;
            && !IsBlank(record)
            && 1 <= |record| <= c.limits.maxColumnsPerRow
            && RowChars(record) <= c.limits.maxRowSizeInCharacters
            && st'.fileSize == st.fileSize + RowChars(record) <= c.limits.maxFileSizeInCharacters
            && st'.rows == st.rows + 1 <= c.limits.maxRowsInFile)
  {
    ReadLocalColumns(c, st.pos, st.atEOF);
    SkipBlankResult(c, ReadLocal(c, st.pos, st.atEOF));
  }

  /** The counters account for the records returned so far: the file size is their characters,
      the record count their number, and each of them is a non-blank record within the column and
      row-length limits. */
  ghost predicate Accounted(lim: Limits, fileSize: int, rows: int, returned: seq<Record>)
  {
    && fileSize == TotalChars(returned)
    && rows == |returned|
    && forall i :: 0 <= i < |returned| ==>
         && !IsBlank(returned[i])
         && 1 <= |returned[i]| <= lim.maxColumnsPerRow
         && RowChars(returned[i]) <= lim.maxRowSizeInCharacters
  }

  /** A call of nextRecord that does not throw keeps the counters accounting for what has been
      returned: a null result adds nothing, a record is added to both counters. */
  lemma ReadNextAccounted(c: Config, st: State, returned: seq<Record>)
    requires Accounted(c.limits, st.fileSize, st.rows, returned)
    ensures var (r, st') := ReadNext(c, st);
      r.Done? ==> Accounted(c.limits, st'.fileSize, st'.rows,
                            if r.value.Some? then returned + [r.value.value] else returned)
  {
    ReadNextCounters(c, st);
    var (r, st') := ReadNext(c, st);
    if r.Done? && r.value.Some? {
      var all := returned + [r.value.value];
      assert all[..|all| - 1] == returned;
    }
  }

  /** Blank lines are invisible: an end of line where a record would begin is read as a record of
      one null field, which nextRecord skips, so with any number of them ahead it returns what it
      would return from just past them, counters and line numbers included. */
  lemma {:induction false} BlankLinesInvisible(c: Config, st: State, k: nat)
    requires !st.atEOF && 1 <= c.limits.maxColumnsPerRow
    requires forall i :: st.pos <= i < st.pos + k ==> At(c.tokens, i) == Eol
    ensures ReadNext(c, st) == ReadNext(c, st.(pos := st.pos + k))
    decreases k
  {
    if k > 0 {
      var next := st.(pos := st.pos + 1);
      BlankLinesInvisible(c, next, k - 1);
      assert At(c.tokens, st.pos) == Eol;
      var blank: Record := [None];
      assert [] + [None] == blank;
      assert ReadLocal(c, st.pos, false) == Step(Done(Some(blank)), st.pos + 1, false);
      assert IsBlank(blank);
      assert SkipBlank(c, ReadLocal(c, st.pos, false)) == SkipBlank(c, ReadLocal(c, st.pos + 1, false));
    }
  }

  // ---------------------------------------------------------------------------------------------
  // The end-of-file flag

  /** How a step leaves the end-of-file flag: it is set exactly when the last token read was an Eof,
      either ending a record or inside a quoted field ("EOF reached before closing an opened
      quote"), and a record ends on the Eol or the Eof that was read last. */
  predicate EofFlagFaithful(c: Config, s: Step)
  {
    && s.pos > 0
    && (s.atEOF ==> At(c.tokens, s.pos - 1) == Eof && (s.result.Done? || s.result.error.kind == EofInQuote))
    && (s.result.Failed? && s.result.error.kind == EofInQuote ==> s.atEOF)
    && (s.result.Done? ==> At(c.tokens, s.pos - 1) in {Eol, Eof} && (s.atEOF <==> At(c.tokens, s.pos - 1) == Eof))
  }

  lemma {:induction false} OutEofFlag(c: Config, pos: nat, record: Record, fieldValue: Field)
    ensures EofFlagFaithful(c, ScanOut(c, pos, record, fieldValue))
    decreases |c.tokens| - pos
  {
    match At(c.tokens, pos)
    case Sep =>
      var a := AddedField(record, fieldValue, c.limits.maxColumnsPerRow, Line(c.tokens, pos + 1));
      if a.Done? {
        OutEofFlag(c, pos + 1, a.value, None);
      }
    case Word(w) =>
      if fieldValue.None? {
        OutEofFlag(c, pos + 1, record, Some(w));
      }
    case Quote =>
      if fieldValue.None? {
        InEofFlag(c, pos + 1, record, fieldValue);
      }
    case _ =>
  }

  lemma {:induction false} InEofFlag(c: Config, pos: nat, record: Record, fieldValue: Field)
    ensures EofFlagFaithful(c, ScanIn(c, pos, record, fieldValue))
    decreases |c.tokens| - pos
  {
    var line := Line(c.tokens, pos + 1);
    var maxCell := c.limits.maxSizeOfIndividualCell;
    match At(c.tokens, pos)
    case Sep =>
      var a := Appended(fieldValue, [c.separator], maxCell, line);
      if a.Done? {
        InEofFlag(c, pos + 1, record, Some(a.value));
      }
    case Eol =>
      var a := Appended(fieldValue, "\n", maxCell, line);
      if a.Done? {
        InEofFlag(c, pos + 1, record, Some(a.value));
      }
    case Word(w) =>
      var a := Appended(fieldValue, w, maxCell, line);
      if a.Done? {
        InEofFlag(c, pos + 1, record, Some(a.value));
      }
    case Eof =>
    case Quote =>
      match At(c.tokens, pos + 1)
      case Quote =>
        var a := Appended(fieldValue, "\"", maxCell, Line(c.tokens, pos + 2));
        if a.Done? {
          InEofFlag(c, pos + 2, record, Some(a.value));
        }
      case Word(_) =>
      case _ =>
        OutEofFlag(c, pos + 1, record, fieldValue);
  }

  /** Once the end of file has been seen, nextRecord returns null, consumes no token and leaves
      both counters as they were. */
  lemma StickyEof(c: Config, st: State)
    requires st.atEOF
    ensures ReadNext(c, st) == (Done(None), st)
  {
  }

  /** An end of file inside a quoted field sets the flag before the exception is thrown, so the
      next call of nextRecord cleanly returns null. */
  lemma EofInQuoteThenNull(c: Config, st: State)
    requires ReadNext(c, st).0.Failed? && ReadNext(c, st).0.error.kind == EofInQuote
    ensures ReadNext(c, st).1.atEOF
    ensures ReadNext(c, ReadNext(c, st).1) == (Done(None), ReadNext(c, st).1)
  {
    ReadLocalShape(c, st.pos, st.atEOF);
    SkipBlankShape(c, ReadLocal(c, st.pos, st.atEOF));
  }

  /** Everything a step of ReadLocal satisfies that SkipBlank needs to carry over. */
  predicate LocalShape(c: Config, s: Step)
  {
    Reachable(c, s) && ColumnsWithin(c, s) && ((s.result.Done? && s.result.value.None?) || EofFlagFaithful(c, s))
  }

  lemma ReadLocalShape(c: Config, pos: nat, atEOF: bool)
    ensures LocalShape(c, ReadLocal(c, pos, atEOF))
  {
    ReadLocalColumns(c, pos, atEOF);
    if !atEOF {
      OutEofFlag(c, pos, [], None);
    }
  }

  /** SkipBlank ends on a step of the same shape as those ReadLocal produces. */
  lemma {:induction false} SkipBlankShape(c: Config, s: Step)
    requires LocalShape(c, s)
    ensures LocalShape(c, SkipBlank(c, s))
    decreases BlankBudget(c, s)
  {
    if s.result.Done? && s.result.value.Some? && IsBlank(s.result.value.value) {
      ReadLocalShape(c, s.pos, s.atEOF);
      SkipBlankShape(c, ReadLocal(c, s.pos, s.atEOF));
    }
  }

  // ---------------------------------------------------------------------------------------------
  // Fields per record

  /** The separators among the tokens from index `from` up to `to` that stand outside quotes, where
      every quote toggles between outside and inside (a doubled quote toggles twice). */
  function SepsOutside(tokens: seq<Token>, from: nat, to: nat, inQuote: bool): nat
    decreases to - from
  {
    if to <= from then 0
    else
      var t := At(tokens, from);
      (if t == Sep && !inQuote then 1 else 0) + SepsOutside(tokens, from + 1, to, if t == Quote then !inQuote else inQuote)
  }

  /** A record returned by the outer loop gains one field per separator outside quotes, plus one
      for the Eol or Eof that ends it. */
  lemma {:induction false} OutFieldCount(c: Config, pos: nat, record: Record, fieldValue: Field)
    ensures var s := ScanOut(c, pos, record, fieldValue);
      s.result.Done? ==> |s.result.value.value| == |record| + 1 + SepsOutside(c.tokens, pos, s.pos, false)
    decreases |c.tokens| - pos
  {
    var s := ScanOut(c, pos, record, fieldValue);
    match At(c.tokens, pos)
    case Sep =>
      var a := AddedField(record, fieldValue, c.limits.maxColumnsPerRow, Line(c.tokens, pos + 1));
      if a.Done? {
        OutFieldCount(c, pos + 1, a.value, None);
      }
    case Word(w) =>
      if fieldValue.None? {
        OutFieldCount(c, pos + 1, record, Some(w));
      }
    case Quote =>
      if fieldValue.None? {
        InFieldCount(c, pos + 1, record, fieldValue);
      }
    case _ =>
      assert s.result.Done? ==> s.pos == pos + 1;
  }

  /** The same count from inside a quoted field, where the quotes decide what is outside. */
  lemma {:induction false} InFieldCount(c: Config, pos: nat, record: Record, fieldValue: Field)
    ensures var s := ScanIn(c, pos, record, fieldValue);
      s.result.Done? ==> |s.result.value.value| == |record| + 1 + SepsOutside(c.tokens, pos, s.pos, true)
    decreases |c.tokens| - pos
  {
    var line := Line(c.tokens, pos + 1);
    var maxCell := c.limits.maxSizeOfIndividualCell;
    match At(c.tokens, pos)
    case Sep =>
      var a := Appended(fieldValue, [c.separator], maxCell, line);
      if a.Done? {
        InFieldCount(c, pos + 1, record, Some(a.value));
      }
    case Eol =>
      var a := Appended(fieldValue, "\n", maxCell, line);
      if a.Done? {
        InFieldCount(c, pos + 1, record, Some(a.value));
      }
    case Word(w) =>
      var a := Appended(fieldValue, w, maxCell, line);
      if a.Done? {
        InFieldCount(c, pos + 1, record, Some(a.value));
      }
    case Eof =>
    case Quote =>
      match At(c.tokens, pos + 1)
      case Quote =>
        var a := Appended(fieldValue, "\"", maxCell, Line(c.tokens, pos + 2));
        if a.Done? {
          InFieldCount(c, pos + 2, record, Some(a.value));
        }
      case Word(_) =>
      case _ =>
        OutFieldCount(c, pos + 1, record, fieldValue);
  }

  /** nextRecordLocal returns records whose size is the number of separators outside quotes among
      the tokens it consumed, plus one. */
  lemma ReadLocalFieldCount(c: Config, pos: nat)
    ensures var s := ReadLocal(c, pos, false);
      s.result.Done? ==> |s.result.value.value| == 1 + SepsOutside(c.tokens, pos, s.pos, false)
  {
    OutFieldCount(c, pos, [], None);
  }

  // ---------------------------------------------------------------------------------------------
  // "Unknown error"

  /** No two words in a row: the JDK tokenizer groups word characters into maximal runs. */
  predicate NoAdjacentWords(tokens: seq<Token>)
  {
    forall i: nat :: i < |tokens| && At(tokens, i).Word? ==> !At(tokens, i + 1).Word?
  }

  /** The outer loop throws "Unknown error" only on a word while the field already holds text;
      a word is never followed by a word, and a closing quote is followed by neither a word nor
      a quote, so on such a stream that never happens. */
  lemma {:induction false} OutNoUnknownError(c: Config, pos: nat, record: Record, fieldValue: Field)
    requires NoAdjacentWords(c.tokens)
    requires fieldValue.Some? ==> !At(c.tokens, pos).Word?
    ensures var s := ScanOut(c, pos, record, fieldValue);
      s.result.Failed? ==> s.result.error.kind != UnknownError
    decreases |c.tokens| - pos
  {
    match At(c.tokens, pos)
    case Sep =>
      var a := AddedField(record, fieldValue, c.limits.maxColumnsPerRow, Line(c.tokens, pos + 1));
      if a.Done? {
        OutNoUnknownError(c, pos + 1, a.value, None);
      }
    case Word(w) =>
      if fieldValue.None? {
        OutNoUnknownError(c, pos + 1, record, Some(w));
      }
    case Quote =>
      if fieldValue.None? {
        InNoUnknownError(c, pos + 1, record, fieldValue);
      }
    case _ =>
  }

  lemma {:induction false} InNoUnknownError(c: Config, pos: nat, record: Record, fieldValue: Field)
    requires NoAdjacentWords(c.tokens)
    ensures var s := ScanIn(c, pos, record, fieldValue);
      s.result.Failed? ==> s.result.error.kind != UnknownError
    decreases |c.tokens| - pos
  {
    var line := Line(c.tokens, pos + 1);
    var maxCell := c.limits.maxSizeOfIndividualCell;
    match At(c.tokens, pos)
    case Sep =>
      var a := Appended(fieldValue, [c.separator], maxCell, line);
      if a.Done? {
        InNoUnknownError(c, pos + 1, record, Some(a.value));
      }
    case Eol =>
      var a := Appended(fieldValue, "\n", maxCell, line);
      if a.Done? {
        InNoUnknownError(c, pos + 1, record, Some(a.value));
      }
    case Word(w) =>
      var a := Appended(fieldValue, w, maxCell, line);
      if a.Done? {
        InNoUnknownError(c, pos + 1, record, Some(a.value));
      }
    case Eof =>
    case Quote =>
      match At(c.tokens, pos + 1)
      case Quote =>
        var a := Appended(fieldValue, "\"", maxCell, Line(c.tokens, pos + 2));
        if a.Done? {
          InNoUnknownError(c, pos + 2, record, Some(a.value));
        }
      case Word(_) =>
      case _ =>
        OutNoUnknownError(c, pos + 1, record, fieldValue);
  }

  /** On a stream without two words in a row, nextRecordLocal never throws "Unknown error". */
  lemma ReadLocalNoUnknownError(c: Config, pos: nat, atEOF: bool)
    requires NoAdjacentWords(c.tokens)
    ensures var s := ReadLocal(c, pos, atEOF);
      s.result.Failed? ==> s.result.error.kind != UnknownError
  {
    if !atEOF {
      OutNoUnknownError(c, pos, [], None);
    }
  }
}
