# CSVReader: a verified model of the bulk-upload CSV reader

This project models `com.sforce.async.CSVReader`, the streaming CSV reader behind the bulk-upload
API. The reader pulls tokens from a `java.io.StreamTokenizer` and assembles them into records, each
an `ArrayList` of nullable strings. It:

- accepts quoted fields with doubled quotes as the escape;
- skips blank records;
- enforces five limits, each with a strict `>`: characters per quoted chunk, columns per record,
  characters per record, characters per file, and records per file.

Every failure the reader itself detects is a `CSVParseException` that carries the tokenizer's
line number. The `IOException` of the underlying `Reader` is not modelled (see "## Left out").

The model has three layers.

- **Reference functions** (`CsvSpec`). They state the reader's behaviour as functions of the token
  stream:
  - `ScanOut` and `ScanIn` are the two states of `nextRecordLocal` (outside and inside quotes);
  - `ReadLocal` is one call of `nextRecordLocal`;
  - `SkipBlank` is the blank-record loop;
  - `CheckRecord` is `checkRecordExceptions`;
  - `ReadNext` is one call of `nextRecord`.
- **The class** (`CsvReading`). `CSVReader` and its `TokenCursor` are written imperatively, with
  the same loops, branches, counters and `pushBack` as the Java code. Each method is proved to
  return, and to leave the state in, what the reference functions prescribe.
  - A ghost history of the records returned so far shows that the counters account for exactly
    those records.
- **Properties, proved as lemmas over the reference functions:**
  - record shape and column bounds;
  - counter bookkeeping and limits;
  - the end-of-file flag;
  - where each exception is raised and which line it reports;
  - the reach of the cell limit;
  - how whole records of quoted or bare fields are read.

The tokenizer itself is JDK code. The reader is modelled over a token sequence
(`Word(s) | Sep | Eol | Quote | Eof`). A separate character-level tokenizer (`CsvLexer`) states
what the configuration at `CSVReader.java:72-83` is assumed to produce. Over that tokenizer the
model proves two things:
- "Unknown error" is unreachable;
- a record written with every field quoted is read back.

`CsvScenarios` states what `nextRecord` returns on a few small inputs, as worked examples.

Line numbers are modelled as `lineno()` counts them: one plus the end-of-line tokens consumed so
far.

## Where the code differs from what one might expect of it

The model follows the code in each case.

- **Limit errors report the next line.** `checkRecordExceptions` runs after the record's end of
  line has been consumed. A row, file or record limit exceeded by a record ending on line k is
  therefore reported as line k + 1. So is the column limit when the extra field is added at the
  end of line. See `CsvErrors.ReadNextErrorSite` and `CsvScenarios.ColumnLimit`.
- **Each newline is its own end of line.** So blank lines reach the reader as records of one null
  field, which `nextRecord` skips (`CsvProperties.BlankLinesInvisible`).
- **Empty quoted fields come back as null.** A quoted empty field (`""`) stays null, because
  nothing is appended to it. So a record of quoted fields is read with empty fields as null
  (`CsvRoundTrip.BodyField`, `CsvLexer.QuotedLineRoundTrip`).
- **Carriage returns inside quotes become `'\n'`.** A `'\r'` (or `"\r\n"`) inside quotes reaches
  the reader as an end of line and is read back as `'\n'`. The round trip therefore excludes
  fields containing `'\r'`.
- **The cell limit applies to each chunk.** It is checked on each chunk appended inside quotes,
  never on a whole field and never on an unquoted word. A quoted field made of short chunks can be
  longer than the limit (`CsvScenarios.CellLimitPerChunk`, `CsvErrors.ReadNextIgnoresCellLimit`).
  The exception message reports the chunk's length, not the field's. The model follows the code
  as written.
- **"Unknown error" cannot happen.** A word arriving while the field already holds text is
  unreachable on real input, because the tokenizer never delivers two words in a row
  (`CsvLexer.LexedNeverUnknownError`).

## Model

| member | source | states |
|---|---|---|
| CsvTypes.At | src/main/java/com/sforce/async/CSVReader.java:159 | past the end of the input the tokenizer answers end of file, on every later call too |
| CsvTypes.Line | src/main/java/com/sforce/async/CSVReader.java:81 | with ends of line significant, lineno() is between 1 and one more than the tokens read |
| CsvReading.TokenCursor.LineNo | src/main/java/com/sforce/async/CSVReader.java:99 | lineno(), which every exception reports, is at least 1 and at most one more than the tokens read |
| CsvTypes.IsBlank | src/main/java/com/sforce/async/CSVReader.java:126-135 | a record is blank exactly when it has at most one field and no characters: no field, or one field that is null or empty |
| CsvTypes.RowChars | src/main/java/com/sforce/async/CSVReader.java:88-94 | the record's characters bound the length of each of its fields, and are zero exactly when every field is null or empty |
| CsvSpec.Appended | src/main/java/com/sforce/async/CSVReader.java:249-261 | a null field counts as empty and the chunk is appended; the cell-size exception, at the given line, is raised exactly when the chunk alone is longer than the limit, whatever the field already holds |
| CsvSpec.AddedField | src/main/java/com/sforce/async/CSVReader.java:264-271 | the field, null or not, is added at the end; the column exception, at the given line, is raised exactly when the record already had maxColumnsPerRow fields |
| CsvSpec.SkipBlank | src/main/java/com/sforce/async/CSVReader.java:124-143 | the blank-record loop never moves the cursor back, leaves a non-blank record, null or an exception as it is, and never ends on a blank record |
| CsvSpec.CheckRecord | src/main/java/com/sforce/async/CSVReader.java:87-118 | a null record changes nothing; an exception carries the line given; a record that passes is within the row, file and record limits and is added to both counters |
| CsvSpec.ReadNext | src/main/java/com/sforce/async/CSVReader.java:121-147 | nextRecord never moves the cursor back; a null result leaves the counters alone; a returned record is not blank and is added to the file size and the record count |
| CsvReading.TokenCursor.constructor | src/main/java/com/sforce/async/CSVReader.java:72 | the tokenizer starts before the first token of the input |
| CsvReading.TokenCursor.NextToken | src/main/java/com/sforce/async/CSVReader.java:159 | nextToken answers the token under the cursor, Eof for ever past the end, and advances by one |
| CsvReading.TokenCursor.PushBack | src/main/java/com/sforce/async/CSVReader.java:230 | pushBack makes the next nextToken answer the last token again |
| CsvReading.CSVReader.constructor | src/main/java/com/sforce/async/CSVReader.java:69-85 | a new reader has the given separator, the default limits (32000, 5000, 400000, 10000000, 10001), zero counters, atEOF false, and nothing returned |
| CsvReading.CSVReader.GetMaxRowsInFile | src/main/java/com/sforce/async/CSVReader.java:273-275 | answers the record limit in force |
| CsvReading.CSVReader.SetMaxRowsInFile | src/main/java/com/sforce/async/CSVReader.java:277-279 | changes the record limit and nothing else of the configuration, keeping the counter invariant |
| CsvReading.CSVReader.CheckRecordExceptions | src/main/java/com/sforce/async/CSVReader.java:87-118 | the loop sums the characters of the non-null fields; the method throws and updates the counters exactly as CheckRecord does: row length first, then file size after adding, then record count after incrementing; a null record changes nothing |
| CsvReading.CSVReader.NextRecord | src/main/java/com/sforce/async/CSVReader.java:121-147 | returns and leaves the state ReadNext prescribes; until the first exception the counters equal the characters and the number of the records returned, every one non-blank and within the column and row limits |
| CsvReading.CSVReader.NextRecordLocal | src/main/java/com/sforce/async/CSVReader.java:149-243 | returns null without consuming a token once atEOF is set; otherwise returns the record or exception and leaves the cursor and atEOF as ReadLocal prescribes |
| CsvReading.CSVReader.ReadQuotedField | src/main/java/com/sforce/async/CSVReader.java:193-234 | the inner loop: on success the cursor stands on the token after the closing quote (pushed back) and the outer loop goes on from there as ScanIn prescribes; on an exception the result, cursor and atEOF are ScanIn's |
| CsvReading.CSVReader.AppendFieldChar | src/main/java/com/sforce/async/CSVReader.java:245-247 | appends one character; fails exactly when the cell limit is below one |
| CsvReading.CSVReader.AppendFieldValue | src/main/java/com/sforce/async/CSVReader.java:249-261 | a null field counts as empty; the result is field + chunk; fails with the cell-size exception at the current line exactly when the chunk alone is longer than the limit |
| CsvReading.CSVReader.AddField | src/main/java/com/sforce/async/CSVReader.java:264-271 | the field, null or not, is appended; fails with the column exception at the current line exactly when the grown record has more fields than the limit |
| CsvSpec.ScanOut | src/main/java/com/sforce/async/CSVReader.java:158-192 | the outer loop always consumes a token; a finished record is returned with the cursor inside the stream unless the end of file was reached |
| CsvSpec.ScanIn | src/main/java/com/sforce/async/CSVReader.java:193-234 | the inner loop always consumes a token, with the same guarantees as ScanOut |
| CsvSpec.ReadLocal | src/main/java/com/sforce/async/CSVReader.java:149-152 | never moves the cursor back; a record is only returned when atEOF was false and at least one token was consumed |
| CsvProperties.OutColumns | src/main/java/com/sforce/async/CSVReader.java:161-176 | a record the outer loop finishes has more fields than it started with and no more than maxColumnsPerRow |
| CsvProperties.InColumns | src/main/java/com/sforce/async/CSVReader.java:193-234 | the same bound for a record finished after a quoted field |
| CsvProperties.ReadLocalColumns | src/main/java/com/sforce/async/CSVReader.java:264-271 | every record nextRecordLocal returns has between 1 and maxColumnsPerRow fields |
| CsvProperties.SkipBlankResult | src/main/java/com/sforce/async/CSVReader.java:124-143 | the blank-record loop never ends on a blank record and keeps the column bounds |
| CsvProperties.ReadNextCounters | src/main/java/com/sforce/async/CSVReader.java:87-147 | a returned record is non-blank and within the column, row, file and record limits, and adds exactly its characters and one record to the counters; null leaves them alone; the counters never decrease |
| CsvProperties.ReadNextAccounted | src/main/java/com/sforce/async/CSVReader.java:121-147 | a call that does not throw keeps the counters equal to the characters and number of all records returned so far |
| CsvProperties.BlankLinesInvisible | src/main/java/com/sforce/async/CSVReader.java:124-143 | any number of blank lines ahead of the cursor do not change what nextRecord returns, the counters or the line numbers |
| CsvProperties.OutEofFlag | src/main/java/com/sforce/async/CSVReader.java:161-170 | atEOF is only set after an Eof has been read; a returned record ends on the Eol or Eof read last, with atEOF set exactly when that was Eof; a column exception on the final Eof leaves atEOF false |
| CsvProperties.InEofFlag | src/main/java/com/sforce/async/CSVReader.java:196-199 | the same after a quoted field; an Eof inside quotes sets atEOF and throws, the only exception that sets it |
| CsvProperties.StickyEof | src/main/java/com/sforce/async/CSVReader.java:150-152 | once atEOF is set, nextRecord returns null, consumes nothing and leaves the counters as they were |
| CsvProperties.EofInQuoteThenNull | src/main/java/com/sforce/async/CSVReader.java:196-199 | after "EOF reached before closing an opened quote" atEOF is set and the next nextRecord returns null |
| CsvProperties.OutFieldCount | src/main/java/com/sforce/async/CSVReader.java:161-176 | a finished record gains one field per separator outside quotes, plus one for its Eol or Eof |
| CsvProperties.InFieldCount | src/main/java/com/sforce/async/CSVReader.java:193-234 | the same count from inside a quoted field, where separators are text |
| CsvProperties.ReadLocalFieldCount | src/main/java/com/sforce/async/CSVReader.java:161-176 | a record returned by nextRecordLocal has one field more than the separators outside quotes among the tokens it consumed |
| CsvProperties.OutNoUnknownError | src/main/java/com/sforce/async/CSVReader.java:178-181 | the outer loop never throws "Unknown error" on a stream with no two words in a row |
| CsvProperties.InNoUnknownError | src/main/java/com/sforce/async/CSVReader.java:218-232 | the same after a quoted field: a word after a closing quote is a different exception |
| CsvProperties.ReadLocalNoUnknownError | src/main/java/com/sforce/async/CSVReader.java:178-181 | nextRecordLocal never throws "Unknown error" on a stream with no two words in a row |
| CsvErrors.OutErrorSite | src/main/java/com/sforce/async/CSVReader.java:158-192 | every exception of the outer loop carries the line after the token that raised it, and is raised on the tokens its kind names: word after word, quote after word, separator, end of line or end of file over the column limit |
| CsvErrors.InErrorSite | src/main/java/com/sforce/async/CSVReader.java:193-216 | the same inside quotes: Eof for an unterminated quote; the cell-size exception on a word longer than the limit, or on a separator or end of line when the limit is below one |
| CsvErrors.AfterQuoteErrorSite | src/main/java/com/sforce/async/CSVReader.java:218-232 | the same after a quote: a word right after a closing quote; the cell-size exception only on the second quote of a doubled quote, when the limit is below one |
| CsvErrors.ReadLocalErrorSite | src/main/java/com/sforce/async/CSVReader.java:149-243 | every exception nextRecordLocal throws is raised where its kind says, with the line of the tokenizer at that point |
| CsvErrors.SkipBlankErrorSite | src/main/java/com/sforce/async/CSVReader.java:124-143 | exceptions raised while skipping blank records keep that property |
| CsvErrors.ReadNextErrorSite | src/main/java/com/sforce/async/CSVReader.java:121-147 | every exception of nextRecord carries the tokenizer's line; the row, file and record limits are raised only after the record's Eol or Eof, so after an Eol they report the line after the record |
| CsvErrors.CheckRecordVerdict | src/main/java/com/sforce/async/CSVReader.java:87-118 | a record passes exactly when its characters, the file's characters with it and the record count with it are all within their limits (equal is allowed); an exception carries the current line; each counter is updated before its comparison, so a row-length failure keeps both counters, a file-size failure keeps the grown file size, a record-count failure keeps both grown counters |
| CsvErrors.UnquotedIgnoresCellLimit | src/main/java/com/sforce/async/CSVReader.java:178-185 | with no quote ahead, the outer loop gives the same result whatever the cell limit |
| CsvErrors.SkipBlankIgnoresCellLimit | src/main/java/com/sforce/async/CSVReader.java:124-143 | the blank-record loop is likewise independent of the cell limit without quotes ahead |
| CsvErrors.ReadNextIgnoresCellLimit | src/main/java/com/sforce/async/CSVReader.java:249-261 | on a stream with no quote ahead, nextRecord returns the same records, exceptions and state whatever the cell limit: only chunks inside quotes are checked |
| CsvErrors.QuotedWordCellLimit | src/main/java/com/sforce/async/CSVReader.java:212-215 | a quoted word throws the cell-size exception on its line exactly when it is longer than the limit, and otherwise becomes the field |
| CsvRoundTrip.OutSepStep | src/main/java/com/sforce/async/CSVReader.java:172-176 | when the record has room for one more field under the column limit, a separator outside quotes adds the field and starts a null one |
| CsvRoundTrip.OutEolStep | src/main/java/com/sforce/async/CSVReader.java:167-170 | when the record has room for one more field under the column limit, an end of line adds the field and returns the record, cursor after the Eol |
| CsvRoundTrip.OutWordStep | src/main/java/com/sforce/async/CSVReader.java:178-185 | a word into a null field becomes the field |
| CsvRoundTrip.OutQuoteStep | src/main/java/com/sforce/async/CSVReader.java:187-192 | a quote into a null field enters the quoted state |
| CsvRoundTrip.InChunkStep | src/main/java/com/sforce/async/CSVReader.java:201-215 | inside quotes, when the chunk fits the cell limit, a separator appends the separator character, an Eol exactly one '\n', a word its text |
| CsvRoundTrip.InEscapedQuoteStep | src/main/java/com/sforce/async/CSVReader.java:218-225 | when the cell limit is at least 1, a doubled quote appends exactly one '"' |
| CsvRoundTrip.InCloseStep | src/main/java/com/sforce/async/CSVReader.java:227-232 | a quote followed by a separator, Eol or Eof closes the field and the outer loop reads that token |
| CsvRoundTrip.BodyHead | src/main/java/com/sforce/async/CSVReader.java:201-225 | when the cell limit is at least 1 and every word of the body fits it, the first token or doubled quote of a quoted body appends the characters it stands for |
| CsvRoundTrip.QuotedBodyScan | src/main/java/com/sforce/async/CSVReader.java:193-234 | when the cell limit is at least 1 and every word of the body fits it, a whole quoted body and its closing quote append exactly the text the body stands for, and a body with nothing in it leaves the field as it was |
| CsvRoundTrip.QuotedFieldScan | src/main/java/com/sforce/async/CSVReader.java:187-234 | when the cell limit is at least 1 and every word of the body fits it, a quoted field followed by a separator, Eol or Eof is read as its body's text, and an empty one stays null |
| CsvRoundTrip.QuotedRecordScan | src/main/java/com/sforce/async/CSVReader.java:158-192 | when the cell limit is at least 1, every word inside the quotes fits it and the record with these fields stays within the column limit, the quoted fields of a record are appended to the record in order, each as the text between its quotes, empty ones as null |
| CsvRoundTrip.QuotedRecordRead | src/main/java/com/sforce/async/CSVReader.java:149-243 | when the cell limit is at least 1, every word inside the quotes fits it and the number of fields is within the column limit: on the tokens of a record of quoted fields (words, separators, ends of line and doubled quotes between the quotes), nextRecordLocal returns each field's text with a doubled quote as one '"', empty fields as null, the cursor just past its Eol; `CsvLexer.QuotedLineRoundTrip` states the same of real text |
| CsvRoundTrip.BareRecordScan | src/main/java/com/sforce/async/CSVReader.java:158-185 | when the record with these fields stays within the column limit, the fields of a bare record are appended to the record in order, empty ones as null |
| CsvRoundTrip.BareRecordRoundTrip | src/main/java/com/sforce/async/CSVReader.java:149-243 | when the number of fields is within the column limit, a record whose non-empty fields are single words, joined by separators and ended by an Eol, is read back, empty fields as null, with no cell limit applied however long a word is; `CsvLexer.BareLineRoundTrip` gives the text that tokenizes this way |
| CsvLexer.WordRun | src/main/java/com/sforce/async/CSVReader.java:74 | the word characters at the start of the input form a maximal run |
| CsvLexer.NextTok | src/main/java/com/sforce/async/CSVReader.java:72-83 | each token consumes at least one character; a word starts exactly at a word character and is followed by none |
| CsvLexer.Lex | src/main/java/com/sforce/async/CSVReader.java:72-83 | only the empty input has no tokens |
| CsvLexer.LexNoAdjacentWords | src/main/java/com/sforce/async/CSVReader.java:72-83 | the tokenizer never delivers two words in a row |
| CsvLexer.LexedNeverUnknownError | src/main/java/com/sforce/async/CSVReader.java:178-181 | on the tokens of any input, nextRecord never throws "Unknown error" |
| CsvLexer.QuotedLineRoundTrip | src/main/java/com/sforce/async/CSVReader.java:149-243 | when the separator is below U+0100 and not '"', '\n' or '\r', the cell limit is at least 1, no field holds '\r' or is longer than the cell limit, and the number of fields is within the column limit: a line written by quoting every field (quotes doubled), joined by the separator and ended by '\n', is tokenized and read back as its fields, empty ones as null, whatever text follows it |
| CsvLexer.LexBareLine | src/main/java/com/sforce/async/CSVReader.java:72-83 | when the separator is below U+0100 and not '"', '\n' or '\r': a record written bare, its fields of word characters only joined by the separator and ended by '\n', is tokenized as one word per non-empty field, a Sep between fields and an Eol, then the tokens of whatever follows |
| CsvLexer.BareLineRoundTrip | src/main/java/com/sforce/async/CSVReader.java:149-243 | under the same separator condition, and when the number of fields is within the column limit, such a bare line is tokenized and read back by nextRecordLocal as its fields, empty ones as null, whatever text follows, however long a field is |
| CsvScenarios.PlainRecord | src/main/java/com/sforce/async/CSVReader.java:121-147 | `a,b,c` and a newline is one record of three fields, counted as 3 characters and 1 record, then end of stream |
| CsvScenarios.UnescapedQuote | src/main/java/com/sforce/async/CSVReader.java:187-191 | `ab"c,d` throws the unescaped-quote exception on line 1 |
| CsvScenarios.UnterminatedQuote | src/main/java/com/sforce/async/CSVReader.java:196-199 | `"unterminated` throws the end-of-file-in-quote exception on line 1, then the reader returns end of stream |
| CsvScenarios.QuotedSecondField | src/main/java/com/sforce/async/CSVReader.java:218-225 | `"c""d"` is read as `c"d` |
| CsvScenarios.QuotedFields | src/main/java/com/sforce/async/CSVReader.java:193-234 | `"a,b","c""d"` is read as the two fields `a,b` and `c"d` |
| CsvScenarios.CellLimitPerChunk | src/main/java/com/sforce/async/CSVReader.java:249-261 | with a cell limit of 1, `"a,b"` is returned although its field has 3 characters |
| CsvScenarios.ColumnLimit | src/main/java/com/sforce/async/CSVReader.java:264-271 | with at most 3 columns, `1,2,3,4` throws the column exception, reported on line 2 |
| CsvScenarios.RecordLimit | src/main/java/com/sforce/async/CSVReader.java:110-116 | with at most 2 records, three records: two are returned, the third throws the record exception, reported on line 4 |

## Left out

- The JDK `StreamTokenizer` is not part of this model. The reader runs over a token sequence.
  `CsvLexer` states the tokenizer as an assumption read off the configuration at lines 72-83:
  - `'\r'`, `'\r\n'` and `'\n'` are each one end of line;
  - the separator and `'"'` are single tokens;
  - a separator at U+0100 or above stays a word character, because `ordinaryChar` ignores such
    characters;
  - every other character is grouped into maximal words.
- `lineno()` after a `pushBack` of an end of line: the JDK keeps the counter advanced while the
  cursor model steps back. No exception is raised between a `pushBack` and the next `nextToken`,
  which re-reads the token, so every reported line number agrees.
- The `Reader`, `InputStream` and encoding constructors (lines 45-67) are I/O plumbing and
  character decoding. The model starts from the tokens, with the separator given.
- Exception messages are left out. An exception is modelled by its kind and line number.
- The `CSVParseException(int)` constructor and `getRecordNumber` (lines 293-299) only store and
  return the number, which is the `recordNumber` field of the datatype.
- `maxFieldCount` (lines 41, 154, 238-240) is only a capacity hint for the `ArrayList`, with no
  observable effect.
- `ignoreBlankRecords` (line 28) is always true and has no setter, so blank records are always
  skipped.
- Only `maxRowsInFile` has a setter. The other limits are fixed at their defaults in the class.
  The reference functions and lemmas take any limits.
- CsvReading.CSVReader.CheckRecordExceptions: counters and row sizes are unbounded integers, while
  Java's are 32-bit `int`s. A single record can wrap `rowSizeInCharacters`, because the sum is
  taken before any limit is checked and unquoted words have no cell limit. For example, 5,000
  unquoted fields of 430,000 characters each come to about 2.15e9 characters: in Java the sum
  wraps negative and passes all three checks, while the model throws the row-length exception.
  The file-size counter can wrap the same way when the reader is called again after an exception.
- CsvReading.CSVReader.NextRecord: `nextToken` can also throw the `Reader`'s `IOException`, which
  `nextRecord` passes on (line 121). I/O errors are not modelled; the model's tokens never fail.
- Lengths are counted in Dafny characters (Unicode scalar values), while Java's `String.length()`
  counts UTF-16 code units. The two agree on text without characters above U+FFFF. A character
  above U+FFFF counts 1 in the model and 2 in Java, so Java reaches a limit earlier: a quoted word
  of 16,001 such characters is accepted by the model under the default cell limit of 32,000, while
  Java sees 32,002 code units and throws. This affects the members below.
- CsvReading.CSVReader.AppendFieldValue: the chunk's length is a count of characters, not UTF-16
  code units (the same holds of `CsvSpec.Appended`).
- CsvReading.CSVReader.CheckRecordExceptions: the row size is a count of characters, not UTF-16
  code units (the same holds of `CsvTypes.RowChars` and `CsvTypes.TotalChars`).
- CsvLexer.Lex: the input is a string of Unicode characters, not of UTF-16 code units, so a
  character above U+FFFF is one word character where the JDK tokenizer reads two surrogates; both
  are word characters, so the tokens differ only in the lengths noted above.
- The state after an exception is unspecified in the source. The model keeps running
  deterministically from whatever state the exception left. The counter invariant is only claimed
  up to the first exception.
- CsvLexer.QuotedLineRoundTrip: fields must have no `'\r'`, which comes back as `'\n'`. Each field
  must fit the cell limit. The separator must not be `'"'`, `'\n'` or `'\r'`, and must be below
  U+0100.
- `src/main/java/com/sforce/soap/partner/SoapType.java` is a generated enumeration with no
  behaviour, so it is not part of this model.
