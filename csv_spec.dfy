/** The reader's behaviour as functions of the token stream: a reference for the CSVReader class.
    ScanOut and ScanIn are the two states of nextRecordLocal (outside and inside a quoted field),
    ReadLocal is one call of nextRecordLocal, SkipBlank the blank-record loop of nextRecord,
    CheckRecord is checkRecordExceptions and ReadNext one call of nextRecord. */
module CsvSpec {
  import opened CsvTypes

  /** appendFieldValue: the chunk is appended to the (possibly null) field first, and only then is
      the chunk's own length compared with the cell limit. */
  function Appended(fieldValue: Field, chunk: string, maxCell: int, line: int): (r: Outcome<string>)
    ensures r.Failed? <==> |chunk| > maxCell
    ensures r.Failed? ==> r.error == CSVParseException(ExceededFieldSize, line)
    ensures r.Done? ==> r.value == Chars(fieldValue) + chunk
  {
    if |chunk| > maxCell then Failed(CSVParseException(ExceededFieldSize, line))
    else Done(Chars(fieldValue) + chunk)
  }

  /** addField: the field is added to the record first, and then the record's size is compared
      with the column limit. */
  function AddedField(record: Record, fieldValue: Field, maxColumns: int, line: int): (r: Outcome<Record>)
    ensures r.Failed? <==> |record| >= maxColumns
    ensures r.Failed? ==> r.error == CSVParseException(ExceededColumns, line)
    ensures r.Done? ==> r.value == record + [fieldValue]
  {
    var grown := record + [fieldValue];
    if |grown| > maxColumns then Failed(CSVParseException(ExceededColumns, line)) else Done(grown)
  }

  /** What a call of nextRecordLocal leaves behind: its result (a record, null, or an exception),
      the tokenizer cursor and the end-of-file flag. */
  datatype Step = Step(result: Outcome<Option<Record>>, pos: nat, atEOF: bool)

  /** The outer loop of nextRecordLocal from cursor pos, with the record and the field built so far. */
  function ScanOut(c: Config, pos: nat, record: Record, fieldValue: Field): (s: Step)
    ensures s.pos > pos
    ensures s.result.Done? ==> s.result.value.Some?
    ensures s.result.Done? && !s.atEOF ==> s.pos <= |c.tokens|
    decreases |c.tokens| - pos
  {
    var p := pos + 1;
    var line := Line(c.tokens, p);
    match At(c.tokens, pos)
    case Eof =>
      (match AddedField(record, fieldValue, c.limits.maxColumnsPerRow, line)
       case Failed(e) => Step(Failed(e), p, false)
       case Done(r) => Step(Done(Some(r)), p, true))
    case Eol =>
      (match AddedField(record, fieldValue, c.limits.maxColumnsPerRow, line)
       case Failed(e) => Step(Failed(e), p, false)
       case Done(r) => Step(Done(Some(r)), p, false))
    case Sep =>
      (match AddedField(record, fieldValue, c.limits.maxColumnsPerRow, line)
       case Failed(e) => Step(Failed(e), p, false)
       case Done(r) => ScanOut(c, p, r, None))
    case Word(s) =>
      if fieldValue.Some? then Step(Failed(CSVParseException(UnknownError, line)), p, false)
      else ScanOut(c, p, record, Some(s))
    case Quote =>
      if fieldValue.Some? then Step(Failed(CSVParseException(UnescapedQuote, line)), p, false)
      else ScanIn(c, p, record, fieldValue)
  }

  /** The inner loop of nextRecordLocal, inside a quoted field, from cursor pos. After a quote it
      looks at one more token; a separator, end of line or end of file there is pushed back and
      the outer loop goes on with it. */
  function ScanIn(c: Config, pos: nat, record: Record, fieldValue: Field): (s: Step)
    ensures s.pos > pos
    ensures s.result.Done? ==> s.result.value.Some?
    ensures s.result.Done? && !s.atEOF ==> s.pos <= |c.tokens|
    decreases |c.tokens| - pos
  {
    var p := pos + 1;
    var line := Line(c.tokens, p);
    var maxCell := c.limits.maxSizeOfIndividualCell;
    match At(c.tokens, pos)
    case Eof => Step(Failed(CSVParseException(EofInQuote, line)), p, true)
    case Sep =>
      (match Appended(fieldValue, [c.separator], maxCell, line)
       case Failed(e) => Step(Failed(e), p, false)
       case Done(f) => ScanIn(c, p, record, Some(f)))
    case Eol =>
      (match Appended(fieldValue, "\n", maxCell, line)
       case Failed(e) => Step(Failed(e), p, false)
       case Done(f) => ScanIn(c, p, record, Some(f)))
    case Word(s) =>
      (match Appended(fieldValue, s, maxCell, line)
       case Failed(e) => Step(Failed(e), p, false)
       case Done(f) => ScanIn(c, p, record, Some(f)))
    case Quote =>
      var q := p + 1;
      match At(c.tokens, p)
      case Quote =>
        (match Appended(fieldValue, "\"", maxCell, Line(c.tokens, q))
         case Failed(e) => Step(Failed(e), q, false)
         case Done(f) => ScanIn(c, q, record, Some(f)))
      case Word(_) => Step(Failed(CSVParseException(TextAfterEndQuote, Line(c.tokens, q))), q, false)
      case _ => ScanOut(c, p, record, fieldValue)
  }

  /** One call of nextRecordLocal: null once the end of file has been seen, otherwise the outer loop
      from an empty record and a null field. */
  function ReadLocal(c: Config, pos: nat, atEOF: bool): (s: Step)
    ensures s.pos >= pos
    ensures s.result.Done? && s.result.value.Some? ==> !atEOF && s.pos > pos
    ensures s.result.Done? && s.result.value.Some? && !s.atEOF ==> s.pos <= |c.tokens|
  {
    if atEOF then Step(Done(None), pos, true) else ScanOut(c, pos, [], None)
  }

  /** The blank records still ahead of SkipBlank: a measure that each skipped record lowers. */
  function BlankBudget(c: Config, s: Step): nat
  {
    if s.result.Done? && s.result.value.Some? then
      (if s.atEOF then 1 else if s.pos <= |c.tokens| then |c.tokens| - s.pos + 2 else 0)
    else 0
  }

  /** A step as ReadLocal leaves it: a record read without reaching the end of file stops inside the stream. */
  predicate Reachable(c: Config, s: Step)
  {
    s.result.Done? && s.result.value.Some? && !s.atEOF ==> s.pos <= |c.tokens|
  }

  /** The loop of nextRecord that replaces a blank record by the next one. */
  function SkipBlank(c: Config, s: Step): (t: Step)
    requires Reachable(c, s)
    ensures t.pos >= s.pos
    ensures !(s.result.Done? && s.result.value.Some? && IsBlank(s.result.value.value)) ==> t == s
    ensures t.result.Done? && t.result.value.Some? ==> !IsBlank(t.result.value.value)
    decreases BlankBudget(c, s)
  {
    if s.result.Done? && s.result.value.Some? && IsBlank(s.result.value.value) then
      SkipBlank(c, ReadLocal(c, s.pos, s.atEOF))
    else s
  }

  /** The counters after checkRecordExceptions, and the exception it throws if any. */
  datatype Check = Check(error: Option<CSVParseException>, fileSize: int, rows: int)

  /** checkRecordExceptions: a null record passes untouched. Otherwise the row length is checked
      first, then the file size is increased and checked, then the record count is increased and
      checked; each counter is updated before the comparison that may fail. */
  function CheckRecord(lim: Limits, fileSize: int, rows: int, line: Option<Record>, lineno: int): (k: Check)
    ensures line.None? ==> k == Check(None, fileSize, rows)
    ensures k.error.Some? ==> k.error.value.recordNumber == lineno
    ensures line.Some? && k.error.None? ==>
      && RowChars(line.value) <= lim.maxRowSizeInCharacters
      && k.fileSize == fileSize + RowChars(line.value) <= lim.maxFileSizeInCharacters
      && k.rows == rows + 1 <= lim.maxRowsInFile
  {
    match line
    case None => Check(None, fileSize, rows)
    case Some(record) =>
      var rowSize := RowChars(record);
      if rowSize > lim.maxRowSizeInCharacters then
        Check(Some(CSVParseException(ExceededRowLength, lineno)), fileSize, rows)
      else if fileSize + rowSize > lim.maxFileSizeInCharacters then
        Check(Some(CSVParseException(ExceededFileSize, lineno)), fileSize + rowSize, rows)
      else if rows + 1 > lim.maxRowsInFile then
        Check(Some(CSVParseException(ExceededRecords, lineno)), fileSize + rowSize, rows + 1)
      else Check(None, fileSize + rowSize, rows + 1)
  }

  /** The part of a reader that a call of nextRecord changes. */
  datatype State = State(pos: nat, atEOF: bool, fileSize: int, rows: int)

  /** One call of nextRecord: read a record, skip blank ones, then check the limits on what is left. */
  function ReadNext(c: Config, st: State): (r: (Outcome<Option<Record>>, State))
    ensures r.1.pos >= st.pos
    ensures r.0.Done? && r.0.value.None? ==> r.1.fileSize == st.fileSize && r.1.rows == st.rows
    ensures r.0.Done? && r.0.value.Some? ==>
      && !IsBlank(r.0.value.value)
      && r.1.fileSize == st.fileSize + RowChars(r.0.value.value)
      && r.1.rows == st.rows + 1
  {
    var s := SkipBlank(c, ReadLocal(c, st.pos, st.atEOF));
    match s.result
    case Failed(e) => (Failed(e), State(s.pos, s.atEOF, st.fileSize, st.rows))
    case Done(line) =>
      var k := CheckRecord(c.limits, st.fileSize, st.rows, line, Line(c.tokens, s.pos));
      (if k.error.Some? then Failed(k.error.value) else Done(line), State(s.pos, s.atEOF, k.fileSize, k.rows))
  }
}
