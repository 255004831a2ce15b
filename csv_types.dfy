/** Values shared by the CSV reader model: tokens, fields, records, errors and limits. */
module CsvTypes {

  datatype Option<+T> = None | Some(value: T)

  /** The tokens java.io.StreamTokenizer hands to the reader once it is configured for CSV:
      a run of word characters, the separator, an end of line, a double quote, end of file. */
  datatype Token = Word(text: string) | Sep | Eol | Quote | Eof

  /** A field is a Java String that may be null: None is null, Some(s) is s. */
  type Field = Option<string>

  /** A record is the ArrayList of fields returned for one line. */
  type Record = seq<Field>

  /** The situation a CSVParseException reports; the message text itself is not modelled. */
  datatype ErrorKind =
    | UnknownError          // a word while the field already holds text
    | UnescapedQuote        // a quote while the field already holds text
    | EofInQuote            // end of file inside a quoted field
    | TextAfterEndQuote     // a word right after a closing quote
    | ExceededFieldSize     // one chunk appended inside quotes is longer than the cell limit
    | ExceededColumns       // more fields than the column limit
    | ExceededRowLength     // the characters of one record exceed the row limit
    | ExceededFileSize      // the characters of all records exceed the file limit
    | ExceededRecords       // more records than the record limit

  /** CSVParseException: what went wrong and the line number of the tokenizer at that point. */
  datatype CSVParseException = CSVParseException(kind: ErrorKind, recordNumber: int)

  /** A call either returns a value or throws a CSVParseException. */
  datatype Outcome<+T> = Done(value: T) | Failed(error: CSVParseException)

  /** The five bounds the reader enforces; every one is compared with a strict `>`. */
  datatype Limits = Limits(
    maxSizeOfIndividualCell: int,
    maxColumnsPerRow: int,
    maxRowSizeInCharacters: int,
    maxFileSizeInCharacters: int,
    maxRowsInFile: int)

  const DefaultLimits := Limits(32000, 5000, 400000, 10000000, 10001)

  /** Everything a reader is built from: the token stream, the separator and the limits. */
  datatype Config = Config(tokens: seq<Token>, separator: char, limits: Limits)

  /** The token at index i; past the end of the stream the tokenizer keeps answering Eof. */
  function At(tokens: seq<Token>, i: nat): (t: Token)
    ensures i >= |tokens| ==> t == Eof
  {
    if i < |tokens| then tokens[i] else Eof
  }

  /** The tokenizer's line number once i tokens have been consumed: one plus the ends of line among them. */
  function Line(tokens: seq<Token>, i: nat): (n: nat)
    ensures 1 <= n <= i + 1
  {
    if i == 0 then 1 else Line(tokens, i - 1) + (if At(tokens, i - 1) == Eol then 1 else 0)
  }

  /** The characters of a field; a null field has none. */
  function Chars(f: Field): string
  {
    match f
    case None => ""
    case Some(s) => s
  }

  /** A blank record: no field at all, or one field that is null or empty. */
  predicate IsBlank(record: Record): (b: bool)
    ensures b <==> |record| <= 1 && RowChars(record) == 0
  {
    |record| == 0 || (|record| == 1 && |Chars(record[0])| == 0)
  }

  /** The number of characters in a record: the lengths of its non-null fields, added up. */
  function RowChars(record: Record): (n: nat)
    ensures forall i :: 0 <= i < |record| ==> |Chars(record[i])| <= n
    ensures n == 0 <==> forall i :: 0 <= i < |record| ==> |Chars(record[i])| == 0
  {
    if record == [] then 0 else RowChars(record[..|record| - 1]) + |Chars(record[|record| - 1])|
  }

  /** The characters of a sequence of records, added up. */
  function TotalChars(records: seq<Record>): nat
  {
    if records == [] then 0 else TotalChars(records[..|records| - 1]) + RowChars(records[|records| - 1])
  }
}
