/** Reading whole records at the token level: a record of quoted fields is read as the text between
    the quotes, and a record written bare is read back as the record it came from, with empty
    fields read as null. */
module CsvRoundTrip {
  import opened CsvTypes
  import opened CsvSpec

  /** The tokens b stand in the stream from index pos on. */
  predicate TokensAt(tokens: seq<Token>, pos: nat, b: seq<Token>)
    decreases |b|
  {
    |b| == 0 || (At(tokens, pos) == b[0] && TokensAt(tokens, pos + 1, b[1..]))
  }

  lemma {:induction false} TokensAtAppend(tokens: seq<Token>, pos: nat, a: seq<Token>, b: seq<Token>)
    ensures TokensAt(tokens, pos, a + b) <==> TokensAt(tokens, pos, a) && TokensAt(tokens, pos + |a|, b)
    decreases |a|
  {
    if |a| == 0 {
      assert a + b == b;
    } else {
      assert (a + b)[1..] == a[1..] + b;
      TokensAtAppend(tokens, pos + 1, a[1..], b);
    }
  }

  /** What may stand between an opening and a closing quote: words, separators, ends of line and
      doubled quotes, but no single quote and no end of file. */
  predicate QuotedBody(b: seq<Token>)
    decreases |b|
  {
    || |b| == 0
    || (b[0] == Quote && |b| >= 2 && b[1] == Quote && QuotedBody(b[2..]))
    || ((b[0].Word? || b[0] == Sep || b[0] == Eol) && QuotedBody(b[1..]))
  }

  /** The characters a quoted body stands for: a word its text, a separator the separator
      character, an end of line one '\n', a doubled quote one '"'. */
  function BodyText(b: seq<Token>, separator: char): string
    requires QuotedBody(b)
    decreases |b|
  {
    if |b| == 0 then ""
    else if b[0] == Quote then "\"" + BodyText(b[2..], separator)
    else if b[0] == Sep then [separator] + BodyText(b[1..], separator)
    else if b[0] == Eol then "\n" + BodyText(b[1..], separator)
    else b[0].text + BodyText(b[1..], separator)
  }

  /** Every word of b fits the cell limit. */
  predicate WordsFit(b: seq<Token>, maxCell: int)
  {
    forall i :: 0 <= i < |b| && b[i].Word? ==> |b[i].text| <= maxCell
  }

  // One transition of the reader each; the round-trip proofs below are chains of these.

  lemma OutSepStep(c: Config, pos: nat, record: Record, fieldValue: Field)
    requires At(c.tokens, pos) == Sep && |record| + 1 <= c.limits.maxColumnsPerRow
    ensures ScanOut(c, pos, record, fieldValue) == ScanOut(c, pos + 1, record + [fieldValue], None)
  {
  }

  lemma OutEolStep(c: Config, pos: nat, record: Record, fieldValue: Field)
    requires At(c.tokens, pos) == Eol && |record| + 1 <= c.limits.maxColumnsPerRow
    ensures ScanOut(c, pos, record, fieldValue) == Step(Done(Some(record + [fieldValue])), pos + 1, false)
  {
  }

  lemma OutWordStep(c: Config, pos: nat, record: Record, w: string)
    requires At(c.tokens, pos) == Word(w)
    ensures ScanOut(c, pos, record, None) == ScanOut(c, pos + 1, record, Some(w))
  {
  }

  lemma OutQuoteStep(c: Config, pos: nat, record: Record)
    requires At(c.tokens, pos) == Quote
    ensures ScanOut(c, pos, record, None) == ScanIn(c, pos + 1, record, None)
  {
  }

  lemma InChunkStep(c: Config, pos: nat, record: Record, fieldValue: Field, chunk: string)
    requires At(c.tokens, pos) in {Sep, Eol} || At(c.tokens, pos).Word?
    requires chunk == match At(c.tokens, pos) case Sep => [c.separator] case Eol => "\n" case Word(w) => w case _ => ""
    requires |chunk| <= c.limits.maxSizeOfIndividualCell
    ensures ScanIn(c, pos, record, fieldValue) == ScanIn(c, pos + 1, record, Some(Chars(fieldValue) + chunk))
  {
  }

  lemma InEscapedQuoteStep(c: Config, pos: nat, record: Record, fieldValue: Field)
    requires At(c.tokens, pos) == Quote && At(c.tokens, pos + 1) == Quote
    requires 1 <= c.limits.maxSizeOfIndividualCell
    ensures ScanIn(c, pos, record, fieldValue) == ScanIn(c, pos + 2, record, Some(Chars(fieldValue) + "\""))
  {
  }

  lemma InCloseStep(c: Config, pos: nat, record: Record, fieldValue: Field)
    requires At(c.tokens, pos) == Quote && At(c.tokens, pos + 1) in {Sep, Eol, Eof}
    ensures ScanIn(c, pos, record, fieldValue) == ScanOut(c, pos + 1, record, fieldValue)
  {
  }

  /** The first element of a non-empty quoted body, a single token or a doubled quote, read by one
      transition of the inner loop: the chunk it appends and what is left of the body. */
  lemma BodyHead(c: Config, pos: nat, record: Record, fieldValue: Field, b: seq<Token>)
      returns (k: nat, chunk: string)
    requires |b| > 0 && QuotedBody(b) && WordsFit(b, c.limits.maxSizeOfIndividualCell)
    requires 1 <= c.limits.maxSizeOfIndividualCell
    requires TokensAt(c.tokens, pos, b + [Quote])
    ensures 1 <= k <= |b|
    ensures ScanIn(c, pos, record, fieldValue) == ScanIn(c, pos + k, record, Some(Chars(fieldValue) + chunk))
    ensures QuotedBody(b[k..]) && WordsFit(b[k..], c.limits.maxSizeOfIndividualCell)
    ensures TokensAt(c.tokens, pos + k, b[k..] + [Quote])
    ensures BodyText(b, c.separator) == chunk + BodyText(b[k..], c.separator)
  {
    var maxCell := c.limits.maxSizeOfIndividualCell;
    var sep := c.separator;
    k := if b[0] == Quote then 2 else 1;
    chunk := if b[0] == Quote then "\"" else if b[0] == Sep then [sep] else if b[0] == Eol then "\n" else b[0].text;
    assert At(c.tokens, pos) == b[0];
    assert (b + [Quote])[1..] == b[1..] + [Quote];
    if b[0] == Quote {
      assert (b + [Quote])[1..][1..] == b[2..] + [Quote];
      assert At(c.tokens, pos + 1) == Quote;
      InEscapedQuoteStep(c, pos, record, fieldValue);
    } else {
      assert |chunk| <= maxCell by {
        if b[0].Word? {
          assert b[0].Word? && 0 < |b|;
        }
      }
      InChunkStep(c, pos, record, fieldValue, chunk);
    }
    forall i | 0 <= i < |b[k..]| && b[k..][i].Word? ensures |b[k..][i].text| <= maxCell {
      assert b[k..][i] == b[i + k];
    }
  }

  /** The field once a quoted body has been read into it: unchanged for an empty body, otherwise
      the body's characters appended to it. */
  function AfterBody(fieldValue: Field, b: seq<Token>, separator: char): Field
    requires QuotedBody(b)
  {
    if |b| == 0 then fieldValue else Some(Chars(fieldValue) + BodyText(b, separator))
  }

  lemma AfterBodyStep(fieldValue: Field, chunk: string, b: seq<Token>, k: nat, separator: char)
    requires 1 <= k <= |b| && QuotedBody(b) && QuotedBody(b[k..])
    requires BodyText(b, separator) == chunk + BodyText(b[k..], separator)
    ensures AfterBody(Some(Chars(fieldValue) + chunk), b[k..], separator) == AfterBody(fieldValue, b, separator)
  {
    var rest := BodyText(b[k..], separator);
    if |b[k..]| == 0 {
      assert rest == [];
      assert chunk + rest == chunk;
    } else {
      assert Chars(fieldValue) + chunk + rest == Chars(fieldValue) + (chunk + rest);
    }
  }

  /** Inside quotes, a body followed by a closing quote and then a separator, end of line or end of
      file adds the body's characters to the field and hands the token after the closing quote
      back to the outer loop. */
  lemma {:induction false} QuotedBodyScan(c: Config, pos: nat, end: nat, record: Record, fieldValue: Field, b: seq<Token>)
    requires QuotedBody(b) && WordsFit(b, c.limits.maxSizeOfIndividualCell)
    requires 1 <= c.limits.maxSizeOfIndividualCell
    requires TokensAt(c.tokens, pos, b + [Quote]) && end == pos + |b| + 1
    requires At(c.tokens, end) in {Sep, Eol, Eof}
    ensures ScanIn(c, pos, record, fieldValue) == ScanOut(c, end, record, AfterBody(fieldValue, b, c.separator))
    decreases |b|
  {
    if |b| == 0 {
      assert At(c.tokens, pos) == Quote;
      InCloseStep(c, pos, record, fieldValue);
    } else {
      var k, chunk := BodyHead(c, pos, record, fieldValue, b);
      QuotedBodyScan(c, pos + k, end, record, Some(Chars(fieldValue) + chunk), b[k..]);
      AfterBodyStep(fieldValue, chunk, b, k, c.separator);
    }
  }

  /** A quoted field followed by a separator, end of line or end of file is read as the characters
      of its body; a quoted field with an empty body stays null. */
  lemma QuotedFieldScan(c: Config, pos: nat, record: Record, b: seq<Token>)
    requires QuotedBody(b) && WordsFit(b, c.limits.maxSizeOfIndividualCell)
    requires 1 <= c.limits.maxSizeOfIndividualCell
    requires TokensAt(c.tokens, pos, [Quote] + b + [Quote])
    requires At(c.tokens, pos + |b| + 2) in {Sep, Eol, Eof}
    ensures ScanOut(c, pos, record, None)
         == ScanOut(c, pos + |b| + 2, record, if |b| == 0 then None else Some(BodyText(b, c.separator)))
  {
    assert TokensAt(c.tokens, pos + 1, b + [Quote]) && At(c.tokens, pos) == Quote by {
      assert ([Quote] + b + [Quote])[1..] == b + [Quote];
    }
    OutQuoteStep(c, pos, record);
    QuotedBodyScan(c, pos + 1, pos + |b| + 2, record, None, b);
    assert Chars(None) + BodyText(b, c.separator) == BodyText(b, c.separator);
    assert AfterBody(None, b, c.separator) == if |b| == 0 then None else Some(BodyText(b, c.separator));
  }

  /** The field as the reader returns it: a field with no characters is null. */
  function NullIfEmpty(f: string): Field
  {
    if |f| == 0 then None else Some(f)
  }

  function NullIfEmptyAll(fields: seq<string>): (r: Record)
    ensures |r| == |fields|
  {
    if |fields| == 0 then [] else [NullIfEmpty(fields[0])] + NullIfEmptyAll(fields[1..])
  }

  /** The field a quoted body is read as: null for an empty body, otherwise its characters. */
  function BodyField(b: seq<Token>, separator: char): Field
    requires QuotedBody(b)
  {
    if |b| == 0 then None else Some(BodyText(b, separator))
  }

  /** Bodies that may stand between the quotes of a field, each word within the cell limit. */
  predicate QuotedBodies(bs: seq<seq<Token>>, maxCell: int)
  {
    forall i :: 0 <= i < |bs| ==> QuotedBody(bs[i]) && WordsFit(bs[i], maxCell)
  }

  /** The fields a record of quoted bodies is read as. */
  function BodyFields(bs: seq<seq<Token>>, separator: char, maxCell: int): (r: Record)
    requires QuotedBodies(bs, maxCell)
    ensures |r| == |bs|
    decreases |bs|
  {
    if |bs| == 0 then [] else [BodyField(bs[0], separator)] + BodyFields(bs[1..], separator, maxCell)
  }

  /** One field between quotes. */
  function QuotedTokens(b: seq<Token>): seq<Token>
  {
    [Quote] + b + [Quote]
  }

  /** A record of quoted fields, joined by separators and ended by an Eol. */
  function QuotedRecordTokens(bs: seq<seq<Token>>): seq<Token>
    requires |bs| >= 1
    decreases |bs|
  {
    if |bs| == 1 then QuotedTokens(bs[0]) + [Eol]
    else QuotedTokens(bs[0]) + [Sep] + QuotedRecordTokens(bs[1..])
  }

  /** Where the parts of a quoted record stand: its first field, then a separator or end of line,
      then the rest of the record. */
  lemma QuotedRecordLayout(tokens: seq<Token>, pos: nat, bs: seq<seq<Token>>)
    requires |bs| >= 1
    requires TokensAt(tokens, pos, QuotedRecordTokens(bs))
    ensures var next := pos + |bs[0]| + 2;
      && TokensAt(tokens, pos, [Quote] + bs[0] + [Quote])
      && At(tokens, next) == (if |bs| == 1 then Eol else Sep)
      && (|bs| > 1 ==> TokensAt(tokens, next + 1, QuotedRecordTokens(bs[1..])))
      && |QuotedRecordTokens(bs)| == next - pos + 1 + (if |bs| == 1 then 0 else |QuotedRecordTokens(bs[1..])|)
  {
    var q := QuotedTokens(bs[0]);
    assert |q| == |bs[0]| + 2;
    var end := if |bs| == 1 then Eol else Sep;
    var tail := if |bs| == 1 then [] else QuotedRecordTokens(bs[1..]);
    assert QuotedRecordTokens(bs) == q + [end] + tail;
    assert |QuotedRecordTokens(bs)| == |q| + 1 + |tail|;
    TokensAtAppend(tokens, pos, q + [end], tail);
    TokensAtAppend(tokens, pos, q, [end]);
  }

  /** The first field of a record, then the rest, as the reader collects them. */
  lemma BodyFieldsCons(record: Record, bs: seq<seq<Token>>, separator: char, maxCell: int)
    requires |bs| >= 1 && QuotedBodies(bs, maxCell)
    ensures QuotedBodies(bs[1..], maxCell)
    ensures |bs| == 1 ==> record + [BodyField(bs[0], separator)] == record + BodyFields(bs, separator, maxCell)
    ensures |bs| > 1 ==>
      record + [BodyField(bs[0], separator)] + BodyFields(bs[1..], separator, maxCell)
        == record + BodyFields(bs, separator, maxCell)
  {
    assert forall i :: 0 <= i < |bs[1..]| ==> bs[1..][i] == bs[i + 1];
    assert BodyFields(bs, separator, maxCell)
        == [BodyField(bs[0], separator)] + BodyFields(bs[1..], separator, maxCell);
    if |bs| == 1 {
      assert BodyFields(bs[1..], separator, maxCell) == [];
    }
  }

  lemma {:induction false} QuotedRecordScan(c: Config, pos: nat, record: Record, bs: seq<seq<Token>>)
    requires |bs| >= 1 && QuotedBodies(bs, c.limits.maxSizeOfIndividualCell)
    requires 1 <= c.limits.maxSizeOfIndividualCell
    requires |record| + |bs| <= c.limits.maxColumnsPerRow
    requires TokensAt(c.tokens, pos, QuotedRecordTokens(bs))
    ensures ScanOut(c, pos, record, None)
         == Step(Done(Some(record + BodyFields(bs, c.separator, c.limits.maxSizeOfIndividualCell))),
                 pos + |QuotedRecordTokens(bs)|, false)
    decreases |bs|
  {
    var maxCell := c.limits.maxSizeOfIndividualCell;
    QuotedRecordLayout(c.tokens, pos, bs);
    assert QuotedBody(bs[0]) && WordsFit(bs[0], maxCell);
    QuotedFieldScan(c, pos, record, bs[0]);
    var field := BodyField(bs[0], c.separator);
    var next := pos + |bs[0]| + 2;
    BodyFieldsCons(record, bs, c.separator, maxCell);
    if |bs| == 1 {
      OutEolStep(c, next, record, field);
    } else {
      OutSepStep(c, next, record, field);
      QuotedRecordScan(c, next + 1, record + [field], bs[1..]);
    }
  }

  /** A record of quoted fields is read by nextRecordLocal as the characters between each pair of
      quotes (a doubled quote standing for one '"'), an empty field as null, with the cursor just
      past the Eol, as long as each word inside the quotes fits the cell limit: the limit is
      checked on each chunk appended, never on the whole field. */
  lemma QuotedRecordRead(c: Config, pos: nat, bs: seq<seq<Token>>)
    requires |bs| >= 1 && QuotedBodies(bs, c.limits.maxSizeOfIndividualCell)
    requires 1 <= c.limits.maxSizeOfIndividualCell
    requires |bs| <= c.limits.maxColumnsPerRow
    requires TokensAt(c.tokens, pos, QuotedRecordTokens(bs))
    ensures ReadLocal(c, pos, false)
         == Step(Done(Some(BodyFields(bs, c.separator, c.limits.maxSizeOfIndividualCell))),
                 pos + |QuotedRecordTokens(bs)|, false)
  {
    QuotedRecordScan(c, pos, [], bs);
    assert [] + BodyFields(bs, c.separator, c.limits.maxSizeOfIndividualCell)
        == BodyFields(bs, c.separator, c.limits.maxSizeOfIndividualCell);
  }

  /** The first field of a record, then the rest, as the reader collects them. */
  lemma NullIfEmptyAllCons(record: Record, fields: seq<string>)
    requires |fields| >= 1
    ensures |fields| == 1 ==> record + [NullIfEmpty(fields[0])] == record + NullIfEmptyAll(fields)
    ensures |fields| > 1 ==>
      record + [NullIfEmpty(fields[0])] + NullIfEmptyAll(fields[1..]) == record + NullIfEmptyAll(fields)
  {
    assert NullIfEmptyAll(fields) == [NullIfEmpty(fields[0])] + NullIfEmptyAll(fields[1..]);
    if |fields| == 1 {
      assert NullIfEmptyAll(fields[1..]) == [];
    }
  }

  /** A bare field: one word, or nothing at all for an empty field. */
  function BareTokens(f: string): seq<Token>
  {
    if |f| == 0 then [] else [Word(f)]
  }

  /** A record written without quotes, the fields joined by separators, ended by an Eol. */
  function BareRecordTokens(fields: seq<string>): seq<Token>
    requires |fields| >= 1
    decreases |fields|
  {
    if |fields| == 1 then BareTokens(fields[0]) + [Eol]
    else BareTokens(fields[0]) + [Sep] + BareRecordTokens(fields[1..])
  }

  lemma {:induction false} BareRecordScan(c: Config, pos: nat, record: Record, fields: seq<string>)
    requires |fields| >= 1
    requires |record| + |fields| <= c.limits.maxColumnsPerRow
    requires TokensAt(c.tokens, pos, BareRecordTokens(fields))
    ensures ScanOut(c, pos, record, None)
         == Step(Done(Some(record + NullIfEmptyAll(fields))), pos + |BareRecordTokens(fields)|, false)
    decreases |fields|
  {
    var w := BareTokens(fields[0]);
    var end := if |fields| == 1 then Eol else Sep;
    var tail := if |fields| == 1 then [] else BareRecordTokens(fields[1..]);
    assert BareRecordTokens(fields) == w + [end] + tail;
    TokensAtAppend(c.tokens, pos, w + [end], tail);
    TokensAtAppend(c.tokens, pos, w, [end]);
    assert At(c.tokens, pos + |w|) == end;
    var field := NullIfEmpty(fields[0]);
    var next := pos + |w|;
    if |fields[0]| > 0 {
      assert At(c.tokens, pos) == Word(fields[0]);
      OutWordStep(c, pos, record, fields[0]);
    }
    if |fields| == 1 {
      OutEolStep(c, next, record, field);
      NullIfEmptyAllCons(record, fields);
    } else {
      OutSepStep(c, next, record, field);
      BareRecordScan(c, next + 1, record + [field], fields[1..]);
      NullIfEmptyAllCons(record, fields);
    }
  }

  /** The bare round trip: a record whose non-empty fields are single words, joined by separators
      and ended by an Eol, is read back, empty fields as null. No cell limit applies to the words,
      however long they are. CsvLexer.BareLineRoundTrip gives the text that tokenizes this way. */
  lemma BareRecordRoundTrip(c: Config, pos: nat, fields: seq<string>)
    requires |fields| >= 1
    requires |fields| <= c.limits.maxColumnsPerRow
    requires TokensAt(c.tokens, pos, BareRecordTokens(fields))
    ensures ReadLocal(c, pos, false)
         == Step(Done(Some(NullIfEmptyAll(fields))), pos + |BareRecordTokens(fields)|, false)
  {
    BareRecordScan(c, pos, [], fields);
    assert [] + NullIfEmptyAll(fields) == NullIfEmptyAll(fields);
  }
}
