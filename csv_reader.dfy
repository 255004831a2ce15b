/** The CSVReader class: the same reading loops as the Java source, over a token cursor, each
    method proved to leave the state and return the result the reference functions prescribe. */
module CsvReading {
  import opened CsvTypes
  import opened CsvSpec
  import opened CsvProperties

  /** The stream tokenizer as the reader sees it: the tokens of the input, a cursor, and a
      one-place push-back that steps the cursor back over the last token read. */
  class TokenCursor {
    const tokens: seq<Token>
    var pos: nat

    constructor (tokens: seq<Token>)
      ensures this.tokens == tokens && pos == 0
    {
      this.tokens := tokens;
      pos := 0;
    }

    /** nextToken: the token under the cursor (Eof for ever once the stream is exhausted). */
    method NextToken() returns (t: Token)
      modifies this`pos
      ensures t == At(tokens, old(pos)) && pos == old(pos) + 1
    {
      t := At(tokens, pos);
      pos := pos + 1;
    }

    /** pushBack: the next call of NextToken answers the last token again. */
    method PushBack()
      requires pos > 0
      modifies this`pos
      ensures pos == old(pos) - 1
    {
      pos := pos - 1;
    }

    /** lineno: one plus the ends of line consumed; it starts at 1 and no token read adds more
        than one. */
    function LineNo(): (n: nat)
      reads this
      ensures 1 <= n <= pos + 1
    {
      Line(tokens, pos)
    }
  }

  class CSVReader {
    const parser: TokenCursor
    const separator: char
    const maxSizeOfIndividualCell: int
    const maxColumnsPerRow: int
    const maxRowSizeInCharacters: int
    const maxFileSizeInCharacters: int
    var maxRowsInFile: int

    var fileSizeInCharacters: int
    var rowsInFile: int
    var atEOF: bool

    /** The records nextRecord has returned so far, and whether it has ever thrown. */
    ghost var returned: seq<Record>
    ghost var failed: bool

    /** Until the first exception, the counters account exactly for the records returned, and
        every returned record is non-blank and within the column and row-length limits. */
    ghost predicate Valid()
      reads this
    {
      !failed ==> Accounted(Config().limits, fileSizeInCharacters, rowsInFile, returned)
    }

    /** The configuration of the reader as the reference functions take it. */
    function Config(): Config
      reads this`maxRowsInFile
    {
      CsvTypes.Config(parser.tokens, separator,
        Limits(maxSizeOfIndividualCell, maxColumnsPerRow, maxRowSizeInCharacters,
               maxFileSizeInCharacters, maxRowsInFile))
    }

    /** The part of the reader that nextRecord changes. */
    function State(): State
      reads this, parser
    {
      CsvSpec.State(parser.pos, atEOF, fileSizeInCharacters, rowsInFile)
    }

    /** CSVReader(BufferedReader input, char customizedSeparator), over the tokens of the input,
        with the default limits. */
    constructor (tokens: seq<Token>, customizedSeparator: char)
      ensures Valid() && returned == [] && !failed
      ensures parser.tokens == tokens && parser.pos == 0 && separator == customizedSeparator
      ensures Config().limits == DefaultLimits
      ensures !atEOF && fileSizeInCharacters == 0 && rowsInFile == 0
    {
      parser := new TokenCursor(tokens);
      separator := customizedSeparator;
      maxSizeOfIndividualCell := 32000;
      maxColumnsPerRow := 5000;
      maxRowSizeInCharacters := 400000;
      maxFileSizeInCharacters := 10000000;
      maxRowsInFile := 10001;
      fileSizeInCharacters := 0;
      rowsInFile := 0;
      atEOF := false;
      returned := [];
      failed := false;
    }

    function GetMaxRowsInFile(): (r: int)
      reads this
      ensures r == Config().limits.maxRowsInFile
    {
      maxRowsInFile
    }

    /** setMaxRowsInFile: the one limit the source lets a caller change. */
    method SetMaxRowsInFile(newMax: int)
      requires Valid()
      modifies this`maxRowsInFile
      ensures Valid() && maxRowsInFile == newMax
      ensures Config() == old(Config()).(limits := old(Config()).limits.(maxRowsInFile := newMax))
    {
      maxRowsInFile := newMax;
    }

    /** checkRecordExceptions. */
    method CheckRecordExceptions(line: Option<Record>) returns (error: Option<CSVParseException>)
      modifies this`fileSizeInCharacters, this`rowsInFile
      ensures var k := CheckRecord(Config().limits, old(fileSizeInCharacters), old(rowsInFile), line, parser.LineNo());
        error == k.error && fileSizeInCharacters == k.fileSize && rowsInFile == k.rows
    {
      var rowSizeInCharacters := 0;
      if line.Some? {
        var i := 0;
        while i < |line.value|
          invariant 0 <= i <= |line.value|
          invariant rowSizeInCharacters == RowChars(line.value[..i])
        {
          var value := line.value[i];
          assert line.value[..i + 1][..i] == line.value[..i];
          if value.Some? {
            rowSizeInCharacters := rowSizeInCharacters + |value.value|;
          }
          i := i + 1;
        }
        assert line.value[..i] == line.value;

        if rowSizeInCharacters > maxRowSizeInCharacters {
          return Some(CSVParseException(ExceededRowLength, parser.LineNo()));
        }

        fileSizeInCharacters := fileSizeInCharacters + rowSizeInCharacters;

        if fileSizeInCharacters > maxFileSizeInCharacters {
          return Some(CSVParseException(ExceededFileSize, parser.LineNo()));
        }

        rowsInFile := rowsInFile + 1;

        if rowsInFile > maxRowsInFile {
          return Some(CSVParseException(ExceededRecords, parser.LineNo()));
        }
      }
      return None;
    }

    /** nextRecord. */
    method NextRecord() returns (r: Outcome<Option<Record>>)
      requires Valid()
      modifies this`atEOF, this`fileSizeInCharacters, this`rowsInFile, this`returned, this`failed, parser
      ensures Valid()
      ensures (r, State()) == ReadNext(old(Config()), old(State()))
      ensures returned == if r.Done? && r.value.Some? then old(returned) + [r.value.value] else old(returned)
      ensures failed == (old(failed) || r.Failed?)
    {
      ghost var c := Config();
      ghost var st := State();
      ghost var goal := SkipBlank(c, ReadLocal(c, parser.pos, atEOF));
      var record := NextRecordLocal();
      while record.Done? && record.value.Some? && IsBlank(record.value.value)
        invariant Reachable(c, Step(record, parser.pos, atEOF))
        invariant SkipBlank(c, Step(record, parser.pos, atEOF)) == goal
        invariant fileSizeInCharacters == st.fileSize && rowsInFile == st.rows
        invariant returned == old(returned) && failed == old(failed)
        decreases BlankBudget(c, Step(record, parser.pos, atEOF))
      {
        record := NextRecordLocal();
      }
      assert Step(record, parser.pos, atEOF) == goal;
      if record.Failed? {
        failed := true;
        return record;
      }
      var error := CheckRecordExceptions(record.value);
      if error.Some? {
        failed := true;
        return Failed(error.value);
      }
      if !failed {
        ReadNextAccounted(c, st, returned);
      }
      if record.value.Some? {
        returned := returned + [record.value.value];
      }
      return record;
    }

    /** nextRecordLocal: the outer token loop; a quote hands over to ReadQuotedField. */
    method NextRecordLocal() returns (r: Outcome<Option<Record>>)
      modifies this`atEOF, parser
      ensures var s := ReadLocal(Config(), old(parser.pos), old(atEOF));
        r == s.result && parser.pos == s.pos && atEOF == s.atEOF
    {
      if atEOF {
        return Done(None);
      }
      ghost var c := Config();
      ghost var goal := ScanOut(c, parser.pos, [], None);
      var record: Record := [];
      var fieldValue: Field := None;
      while true
        invariant !atEOF
        invariant ScanOut(c, parser.pos, record, fieldValue) == goal
        decreases |parser.tokens| - parser.pos
      {
        var token := parser.NextToken();

        if token == Eof {
          var added := AddField(record, fieldValue);
          if added.Failed? {
            return Failed(added.error);
          }
          atEOF := true;
          return Done(Some(added.value));
        }

        if token == Eol {
          var added := AddField(record, fieldValue);
          if added.Failed? {
            return Failed(added.error);
          }
          return Done(Some(added.value));
        }

        if token == Sep {
          var added := AddField(record, fieldValue);
          if added.Failed? {
            return Failed(added.error);
          }
          record := added.value;
          fieldValue := None;
          continue;
        }

        if token.Word? {
          if fieldValue.Some? {
            return Failed(CSVParseException(UnknownError, parser.LineNo()));
          }
          fieldValue := Some(token.text);
          continue;
        }

        if fieldValue.Some? {
          return Failed(CSVParseException(UnescapedQuote, parser.LineNo()));
        }

        var quoted := ReadQuotedField(record, fieldValue);
        if quoted.Failed? {
          return Failed(quoted.error);
        }
        fieldValue := quoted.value;
      }
    }

    /** The inner loop of nextRecordLocal, after an opening quote: it appends to the field until a
        quote that is not doubled, and pushes back the token after that quote. It returns the
        field, or the exception; the record in progress is only needed to state the contract. */
    method ReadQuotedField(ghost record: Record, fieldValue: Field) returns (r: Outcome<Field>)
      modifies this`atEOF, parser
      requires !atEOF
      ensures var s := ScanIn(Config(), old(parser.pos), record, fieldValue);
        match r
        case Done(f) => parser.pos > old(parser.pos) && !atEOF && ScanOut(Config(), parser.pos, record, f) == s
        case Failed(e) => s == Step(Failed(e), parser.pos, atEOF)
    {
      ghost var c := Config();
      ghost var goal := ScanIn(c, parser.pos, record, fieldValue);
      ghost var start := parser.pos;
      var field := fieldValue;
      while true
        invariant !atEOF && start <= parser.pos
        invariant ScanIn(c, parser.pos, record, field) == goal
        decreases |parser.tokens| - parser.pos
      {
        var token := parser.NextToken();

        if token == Eof {
          atEOF := true;
          return Failed(CSVParseException(EofInQuote, parser.LineNo()));
        }

        if token == Sep {
          var appended := AppendFieldChar(field, separator);
          if appended.Failed? {
            return Failed(appended.error);
          }
          field := Some(appended.value);
          continue;
        }

        if token == Eol {
          var appended := AppendFieldValue(field, "\n");
          if appended.Failed? {
            return Failed(appended.error);
          }
          field := Some(appended.value);
          continue;
        }

        if token.Word? {
          var appended := AppendFieldValue(field, token.text);
          if appended.Failed? {
            return Failed(appended.error);
          }
          field := Some(appended.value);
          continue;
        }

        var nextToken := parser.NextToken();

        if nextToken == Quote {
          // an escaped quote
          var appended := AppendFieldChar(field, '"');
          if appended.Failed? {
            return Failed(appended.error);
          }
          field := Some(appended.value);
          continue;
        }

        if nextToken.Word? {
          return Failed(CSVParseException(TextAfterEndQuote, parser.LineNo()));
        }
        parser.PushBack();
        return Done(field);
      }
    }

    /** appendFieldValue(StringBuilder, int): the character-token overload. */
    method AppendFieldChar(fieldValue: Field, token: char) returns (r: Outcome<string>)
      ensures r == Appended(fieldValue, [token], maxSizeOfIndividualCell, parser.LineNo())
      ensures r.Done? <==> 1 <= maxSizeOfIndividualCell
      ensures r.Done? ==> r.value == Chars(fieldValue) + [token]
    {
      r := AppendFieldValue(fieldValue, [token]);
    }

    /** appendFieldValue(StringBuilder, String): a null field becomes empty, the chunk is appended,
        then the chunk alone is checked against the cell limit. */
    method AppendFieldValue(fieldValue: Field, token: string) returns (r: Outcome<string>)
      ensures r == Appended(fieldValue, token, maxSizeOfIndividualCell, parser.LineNo())
      ensures r.Done? <==> |token| <= maxSizeOfIndividualCell
      ensures r.Done? ==> r.value == Chars(fieldValue) + token
      ensures r.Failed? ==> r.error == CSVParseException(ExceededFieldSize, parser.LineNo())
    {
      var builder := if fieldValue.None? then "" else fieldValue.value;
      builder := builder + token;
      if |token| > maxSizeOfIndividualCell {
        return Failed(CSVParseException(ExceededFieldSize, parser.LineNo()));
      }
      return Done(builder);
    }

    /** addField: the field (null or not) is added, then the record's size is checked. */
    method AddField(record: Record, fieldValue: Field) returns (r: Outcome<Record>)
      ensures r == AddedField(record, fieldValue, maxColumnsPerRow, parser.LineNo())
      ensures r.Done? <==> |record| + 1 <= maxColumnsPerRow
      ensures r.Done? ==> r.value == record + [fieldValue]
      ensures r.Failed? ==> r.error == CSVParseException(ExceededColumns, parser.LineNo())
    {
      var grown := record + [fieldValue];
      if |grown| > maxColumnsPerRow {
        return Failed(CSVParseException(ExceededColumns, parser.LineNo()));
      }
      return Done(grown);
    }
  }
}
