/** A character-level tokenizer, stated as an assumption about java.io.StreamTokenizer as the
    reader configures it (CSVReader.java lines 72-83): every character is a word character except
    the quote and the separator, which are single-character tokens, and '\n' and '\r', which are
    whitespace with significant ends of line ('\r' followed by '\n' is one end of line). Words are
    maximal runs of word characters. Over this tokenizer: no two words are ever adjacent, so
    "Unknown error" cannot be thrown, and a record written with every field quoted, or bare with
    fields of word characters only, is read back. */
module CsvLexer {
  import opened CsvTypes
  import opened CsvSpec
  import opened CsvProperties
  import opened CsvRoundTrip

  /** Whether the separator is a token of its own: ordinaryChar only acts on characters below
      U+0100, so a separator beyond them stays a word character. */
  predicate SeparatorToken(separator: char)
  {
    (separator as int) < 256
  }

  /** A character the tokenizer puts into words. */
  predicate IsWordChar(ch: char, separator: char)
  {
    ch != '\n' && ch != '\r' && ch != '"' && !(ch == separator && SeparatorToken(separator))
  }

  /** The length of the run of word characters at the start of s. */
  function WordRun(s: string, separator: char): (n: nat)
    ensures n <= |s|
    ensures forall i :: 0 <= i < n ==> IsWordChar(s[i], separator)
    ensures n < |s| ==> !IsWordChar(s[n], separator)
    decreases |s|
  {
    if |s| == 0 || !IsWordChar(s[0], separator) then 0 else 1 + WordRun(s[1..], separator)
  }

  /** One call of nextToken on the characters not yet read (at least one): the token, and the
      characters left after it. The end-of-line characters are checked first (whitespace is set
      last in the configuration), then the separator, then the quote. */
  function NextTok(s: string, separator: char): (r: (Token, string))
    requires |s| > 0
    ensures |r.1| < |s|
    ensures r.0.Word? <==> IsWordChar(s[0], separator)
    ensures r.0.Word? ==> |r.1| == 0 || !IsWordChar(r.1[0], separator)
  {
    if s[0] == '\r' then (Eol, if |s| >= 2 && s[1] == '\n' then s[2..] else s[1..])
    else if s[0] == '\n' then (Eol, s[1..])
    else if s[0] == separator && SeparatorToken(separator) then (Sep, s[1..])
    else if s[0] == '"' then (Quote, s[1..])
    else var n := WordRun(s, separator); (Word(s[..n]), s[n..])
  }

  /** The tokens of a whole input, up to (not including) the end of file, which the reader's
      cursor supplies past the last token. */
  function Lex(s: string, separator: char): (t: seq<Token>)
    ensures |t| == 0 <==> |s| == 0
    decreases |s|
  {
    if |s| == 0 then [] else var r := NextTok(s, separator); [r.0] + Lex(r.1, separator)
  }

  /** Words are maximal runs, so the tokenizer never delivers two words in a row. */
  lemma {:induction false} LexNoAdjacentWords(s: string, separator: char)
    ensures NoAdjacentWords(Lex(s, separator))
    decreases |s|
  {
    if |s| > 0 {
      var r := NextTok(s, separator);
      LexNoAdjacentWords(r.1, separator);
      var t := Lex(s, separator);
      var rt := Lex(r.1, separator);
      assert t == [r.0] + rt;
      forall i: nat | i < |t| && At(t, i).Word? ensures !At(t, i + 1).Word? {
        if i == 0 {
          if |r.1| > 0 {
            assert At(t, 1) == NextTok(r.1, separator).0;
          }
        } else {
          assert At(t, i) == At(rt, i - 1);
          assert At(t, i + 1) == At(rt, i);
        }
      }
    }
  }

  lemma {:induction false} SkipBlankNoUnknownError(c: Config, s: Step)
    requires NoAdjacentWords(c.tokens) && Reachable(c, s)
    requires s.result.Failed? ==> s.result.error.kind != UnknownError
    ensures var s' := SkipBlank(c, s); s'.result.Failed? ==> s'.result.error.kind != UnknownError
    decreases BlankBudget(c, s)
  {
    if s.result.Done? && s.result.value.Some? && IsBlank(s.result.value.value) {
      ReadLocalNoUnknownError(c, s.pos, s.atEOF);
      SkipBlankNoUnknownError(c, ReadLocal(c, s.pos, s.atEOF));
    }
  }

  /** "Unknown error" (a word while the field already holds text) is unreachable: on the tokens
      of any input, nextRecord never throws it. */
  lemma LexedNeverUnknownError(s: string, separator: char, lim: Limits, st: State)
    ensures var r := ReadNext(Config(Lex(s, separator), separator, lim), st).0;
      r.Failed? ==> r.error.kind != UnknownError
  {
    var c := Config(Lex(s, separator), separator, lim);
    LexNoAdjacentWords(s, separator);
    ReadLocalNoUnknownError(c, st.pos, st.atEOF);
    SkipBlankNoUnknownError(c, ReadLocal(c, st.pos, st.atEOF));
  }

  // ---------------------------------------------------------------------------------------------
  // Tokenizing a concatenation

  /** b starts where a token of a cannot run on into it: not with a word character, which could
      extend a word, and not with '\n', which could complete a '\r'. */
  predicate CleanStart(b: string, separator: char)
  {
    |b| > 0 ==> !IsWordChar(b[0], separator) && b[0] != '\n'
  }

  lemma {:induction false} WordRunAppend(a: string, b: string, separator: char)
    requires CleanStart(b, separator)
    ensures WordRun(a + b, separator) == WordRun(a, separator)
    decreases |a|
  {
    if |a| == 0 {
      assert a + b == b;
    } else if IsWordChar(a[0], separator) {
      assert (a + b)[1..] == a[1..] + b;
      WordRunAppend(a[1..], b, separator);
    }
  }

  lemma NextTokAppend(a: string, b: string, separator: char)
    requires |a| > 0 && CleanStart(b, separator)
    ensures NextTok(a + b, separator) == (NextTok(a, separator).0, NextTok(a, separator).1 + b)
  {
    if a[0] == '\r' {
      NextTokAppendCR(a, b, separator);
    } else if IsWordChar(a[0], separator) {
      NextTokAppendWord(a, b, separator);
    } else {
      assert (a + b)[0] == a[0] && (a + b)[1..] == a[1..] + b;
    }
  }

  lemma NextTokAppendCR(a: string, b: string, separator: char)
    requires |a| > 0 && a[0] == '\r' && CleanStart(b, separator)
    ensures NextTok(a + b, separator) == (NextTok(a, separator).0, NextTok(a, separator).1 + b)
  {
    var s := a + b;
    assert s[0] == a[0];
    if |a| >= 2 {
      assert s[1] == a[1];
      assert s[2..] == a[2..] + b;
    }
    assert s[1..] == a[1..] + b;
  }

  lemma NextTokAppendWord(a: string, b: string, separator: char)
    requires |a| > 0 && IsWordChar(a[0], separator) && CleanStart(b, separator)
    ensures NextTok(a + b, separator) == (NextTok(a, separator).0, NextTok(a, separator).1 + b)
  {
    var s := a + b;
    assert s[0] == a[0];
    WordRunAppend(a, b, separator);
    var n := WordRun(a, separator);
    assert s[..n] == a[..n];
    assert s[n..] == a[n..] + b;
  }

  /** The tokens of a followed by b are those of a, then those of b, when b starts cleanly. */
  lemma {:induction false} LexAppend(a: string, b: string, separator: char)
    requires CleanStart(b, separator)
    ensures Lex(a + b, separator) == Lex(a, separator) + Lex(b, separator)
    decreases |a|
  {
    if |a| == 0 {
      assert a + b == b;
    } else {
      NextTokAppend(a, b, separator);
      var r := NextTok(a, separator);
      LexAppend(r.1, b, separator);
      assert Lex(a + b, separator) == [r.0] + Lex(r.1 + b, separator);
    }
  }

  // ---------------------------------------------------------------------------------------------
  // Writing a record with every field quoted, and reading it back

  /** No carriage return: a '\r' inside quotes would come back as '\n' (and "\r\n" as one '\n'). */
  predicate NoCR(s: string)
  {
    forall i :: 0 <= i < |s| ==> s[i] != '\r'
  }

  /** A separator the reader can tell apart: neither the quote nor an end-of-line character, and
      a token of its own. */
  predicate PlainSeparator(separator: char)
  {
    separator != '"' && separator != '\n' && separator != '\r' && SeparatorToken(separator)
  }

  /** A field with every quote doubled, as a CSV writer escapes it. */
  function DoubleQuotes(f: string): string
    decreases |f|
  {
    if |f| == 0 then "" else (if f[0] == '"' then "\"\"" else [f[0]]) + DoubleQuotes(f[1..])
  }

  /** A field written between quotes. */
  function Quoted(f: string): string
  {
    "\"" + DoubleQuotes(f) + "\""
  }

  /** A record written with every field quoted, separated by the separator, ended by '\n'. */
  function QuotedLine(fields: seq<string>, separator: char): string
    requires |fields| >= 1
    decreases |fields|
  {
    if |fields| == 1 then Quoted(fields[0]) + "\n"
    else Quoted(fields[0]) + [separator] + QuotedLine(fields[1..], separator)
  }

  /** Text in which quotes only come in pairs. */
  predicate QuotesDoubled(u: string)
    decreases |u|
  {
    || |u| == 0
    || (u[0] == '"' && |u| >= 2 && u[1] == '"' && QuotesDoubled(u[2..]))
    || (u[0] != '"' && QuotesDoubled(u[1..]))
  }

  /** Such text with every pair of quotes read as one. */
  function Undouble(u: string): string
    requires QuotesDoubled(u)
    decreases |u|
  {
    if |u| == 0 then "" else if u[0] == '"' then "\"" + Undouble(u[2..]) else [u[0]] + Undouble(u[1..])
  }

  lemma {:induction false} DoubleQuotesUndone(f: string)
    ensures var u := DoubleQuotes(f);
      QuotesDoubled(u) && Undouble(u) == f && (|u| == 0 <==> |f| == 0) && (NoCR(f) ==> NoCR(u))
    decreases |f|
  {
    if |f| > 0 {
      DoubleQuotesUndone(f[1..]);
      var u := DoubleQuotes(f);
      var v := DoubleQuotes(f[1..]);
      if f[0] == '"' {
        assert u[2..] == v;
      } else {
        assert u[1..] == v;
      }
      if NoCR(f) {
        assert NoCR(f[1..]) by {
          forall i | 0 <= i < |f[1..]| ensures f[1..][i] != '\r' { assert f[1..][i] == f[i + 1]; }
        }
        forall i | 0 <= i < |u| ensures u[i] != '\r' {
          if f[0] == '"' { if i >= 2 { assert u[i] == v[i - 2]; } }
          else { if i >= 1 { assert u[i] == v[i - 1]; } }
        }
      }
      assert f == [f[0]] + f[1..];
    }
  }

  /** Undoubling text that starts with a character other than a quote. */
  lemma UndoubleHead(u: string)
    requires QuotesDoubled(u) && |u| > 0 && u[0] != '"'
    ensures QuotesDoubled(u[1..]) && Undouble(u) == [u[0]] + Undouble(u[1..])
  {
  }

  /** Splitting u after its first character and then after n - 1 more. */
  lemma PrefixAfterHead(u: string, n: nat)
    requires 1 <= n <= |u|
    ensures u[1..][n - 1..] == u[n..] && [u[0]] + u[1..][..n - 1] == u[..n]
  {
  }

  /** A prefix without quotes is read as it stands. */
  lemma {:induction false} UndoubleWordPrefix(u: string, n: nat)
    requires QuotesDoubled(u) && n <= |u|
    requires forall i :: 0 <= i < n ==> u[i] != '"'
    ensures QuotesDoubled(u[n..]) && Undouble(u) == u[..n] + Undouble(u[n..])
    decreases n
  {
    if n == 0 {
      assert u[0..] == u && u[..0] == "";
    } else {
      var v := u[1..];
      UndoubleHead(u);
      forall i | 0 <= i < n - 1 ensures v[i] != '"' {
        assert v[i] == u[i + 1];
      }
      UndoubleWordPrefix(v, n - 1);
      PrefixAfterHead(u, n);
      assert [u[0]] + (v[..n - 1] + Undouble(u[n..])) == ([u[0]] + v[..n - 1]) + Undouble(u[n..]);
    }
  }

  lemma NoCRSuffix(u: string, k: nat)
    requires NoCR(u) && k <= |u|
    ensures NoCR(u[k..])
  {
    forall i | 0 <= i < |u[k..]| ensures u[k..][i] != '\r' {
      assert u[k..][i] == u[i + k];
    }
  }

  /** The first token of a non-empty text without a leading '\r', and where the rest begins. */
  lemma LexHead(u: string, separator: char) returns (k: nat)
    requires |u| > 0 && u[0] != '\r'
    ensures 1 <= k <= |u| && Lex(u, separator) == [NextTok(u, separator).0] + Lex(u[k..], separator)
    ensures IsWordChar(u[0], separator) ==> k == WordRun(u, separator) && NextTok(u, separator).0 == Word(u[..k])
    ensures !IsWordChar(u[0], separator) ==> k == 1
    ensures u[0] == '\n' ==> NextTok(u, separator).0 == Eol
    ensures u[0] != '\n' && u[0] == separator && SeparatorToken(separator) ==> NextTok(u, separator).0 == Sep
    ensures u[0] == '"' && separator != '"' ==> NextTok(u, separator).0 == Quote
  {
    k := if IsWordChar(u[0], separator) then WordRun(u, separator) else 1;
  }

  /** Text with its quotes doubled and no carriage return tokenizes into a quoted body that stands
      for the undoubled text. */
  lemma {:induction false} LexDoubledBody(u: string, separator: char)
    requires QuotesDoubled(u) && NoCR(u) && separator != '"'
    ensures QuotedBody(Lex(u, separator)) && BodyText(Lex(u, separator), separator) == Undouble(u)
    decreases |u|
  {
    if |u| > 0 {
      var b := Lex(u, separator);
      var k := LexHead(u, separator);
      if u[0] == '"' {
        NoCRSuffix(u, 1);
        var k2 := LexHead(u[1..], separator);
        assert u[1..][1..] == u[2..];
        NoCRSuffix(u, 2);
        LexDoubledBody(u[2..], separator);
        assert b == [Quote] + ([Quote] + Lex(u[2..], separator));
        assert b[2..] == Lex(u[2..], separator);
      } else {
        if IsWordChar(u[0], separator) {
          UndoubleWordPrefix(u, k);
        }
        NoCRSuffix(u, k);
        LexDoubledBody(u[k..], separator);
        assert b[1..] == Lex(u[k..], separator);
      }
    }
  }

  /** No word of a quoted body is longer than the text the body stands for. */
  lemma {:induction false} BodyWordsFit(b: seq<Token>, separator: char)
    requires QuotedBody(b)
    ensures WordsFit(b, |BodyText(b, separator)|)
    decreases |b|
  {
    if |b| > 0 {
      var k := if b[0] == Quote then 2 else 1;
      BodyWordsFit(b[k..], separator);
      forall i | 0 <= i < |b| && b[i].Word? ensures |b[i].text| <= |BodyText(b, separator)| {
        if i >= k {
          assert b[i] == b[k..][i - k];
        }
      }
    }
  }

  /** The tokens of a quoted field followed by what comes after it. */
  lemma LexQuoted(f: string, tail: string, separator: char)
    requires separator != '"'
    ensures Lex(Quoted(f) + tail, separator)
         == [Quote] + Lex(DoubleQuotes(f), separator) + [Quote] + Lex(tail, separator)
  {
    var d := DoubleQuotes(f);
    assert Quoted(f) + tail == "\"" + (d + ("\"" + tail));
    LexAppend(d, "\"" + tail, separator);
    assert NextTok("\"" + tail, separator).1 == tail;
    assert NextTok("\"" + (d + ("\"" + tail)), separator).1 == d + ("\"" + tail);
  }

  /** A separator or an end of line, read as one token. */
  lemma LexPlainChar(ch: char, x: string, separator: char)
    requires PlainSeparator(separator) && (ch == '\n' || ch == separator)
    ensures Lex([ch] + x, separator) == [if ch == '\n' then Eol else Sep] + Lex(x, separator)
  {
    assert ([ch] + x)[1..] == x;
  }

  /** The bodies the tokenizer reads between the quotes of a record written by QuotedLine: the
      tokens of each field with its quotes doubled. */
  function FieldBodies(fields: seq<string>, separator: char): (bs: seq<seq<Token>>)
    ensures |bs| == |fields|
    decreases |fields|
  {
    if |fields| == 0 then [] else [Lex(DoubleQuotes(fields[0]), separator)] + FieldBodies(fields[1..], separator)
  }

  /** The tokens of a record written by QuotedLine. */
  function LexedLine(fields: seq<string>, separator: char): seq<Token>
    requires |fields| >= 1
  {
    QuotedRecordTokens(FieldBodies(fields, separator))
  }

  /** The last field of a quoted record: the field's tokens, then its end of line. */
  lemma LexQuotedLast(f: string, rest: string, separator: char)
    requires PlainSeparator(separator)
    ensures Lex(Quoted(f) + "\n" + rest, separator)
         == [Quote] + Lex(DoubleQuotes(f), separator) + [Quote] + [Eol] + Lex(rest, separator)
  {
    var tail := "\n" + rest;
    assert Quoted(f) + "\n" + rest == Quoted(f) + tail;
    LexQuoted(f, tail, separator);
    LexPlainChar('\n', rest, separator);
  }

  /** A field that is not the last: the field's tokens, its separator, then whatever follows. */
  lemma LexQuotedSep(f: string, after: string, separator: char)
    requires PlainSeparator(separator)
    ensures Lex(Quoted(f) + [separator] + after, separator)
         == [Quote] + Lex(DoubleQuotes(f), separator) + [Quote] + [Sep] + Lex(after, separator)
  {
    var tail := [separator] + after;
    assert Quoted(f) + [separator] + after == Quoted(f) + tail;
    LexQuoted(f, tail, separator);
    LexPlainChar(separator, after, separator);
  }

  /** A quoted record is its first field, then an end of line or a separator and the other fields,
      as text and as tokens. */
  lemma QuotedLineCons(fields: seq<string>, rest: string, separator: char)
    requires |fields| >= 1
    ensures var q := Quoted(fields[0]);
      var b := Lex(DoubleQuotes(fields[0]), separator);
      && (|fields| == 1 ==> QuotedLine(fields, separator) + rest == q + "\n" + rest
                            && LexedLine(fields, separator) == [Quote] + b + [Quote] + [Eol])
      && (|fields| > 1 ==>
            && QuotedLine(fields, separator) + rest == q + [separator] + (QuotedLine(fields[1..], separator) + rest)
            && LexedLine(fields, separator) == [Quote] + b + [Quote] + [Sep] + LexedLine(fields[1..], separator))
  {
    assert FieldBodies(fields, separator)[1..] == FieldBodies(fields[1..], separator);
  }

  /** A record of one field, then what follows it. */
  lemma LexQuotedLineLast(fields: seq<string>, rest: string, separator: char)
    requires |fields| == 1 && PlainSeparator(separator)
    ensures Lex(QuotedLine(fields, separator) + rest, separator) == LexedLine(fields, separator) + Lex(rest, separator)
  {
    QuotedLineCons(fields, rest, separator);
    LexQuotedLast(fields[0], rest, separator);
  }

  /** Joining token sequences: a field and a separator, then the rest of a record and what follows. */
  lemma JoinAfterSep(whole: seq<Token>, head: seq<Token>, tail: seq<Token>, more: seq<Token>, after: seq<Token>)
    requires whole == head + [Sep] + tail && tail == more + after
    ensures whole == (head + [Sep] + more) + after
  {
  }

  /** A record of several fields, given the tokens of its other fields and what follows them. */
  lemma LexQuotedLineStep(fields: seq<string>, rest: string, separator: char)
    requires |fields| > 1 && PlainSeparator(separator)
    requires Lex(QuotedLine(fields[1..], separator) + rest, separator)
          == LexedLine(fields[1..], separator) + Lex(rest, separator)
    ensures Lex(QuotedLine(fields, separator) + rest, separator) == LexedLine(fields, separator) + Lex(rest, separator)
  {
    var head := [Quote] + Lex(DoubleQuotes(fields[0]), separator) + [Quote];
    var after := QuotedLine(fields[1..], separator) + rest;
    QuotedLineCons(fields, rest, separator);
    LexQuotedSep(fields[0], after, separator);
    JoinAfterSep(Lex(QuotedLine(fields, separator) + rest, separator), head, Lex(after, separator),
                 LexedLine(fields[1..], separator), Lex(rest, separator));
  }

  /** Tokenizing a quoted record and what follows it gives the record's tokens, then the tokens of
      what follows. */
  lemma {:induction false} LexQuotedLine(fields: seq<string>, rest: string, separator: char)
    requires |fields| >= 1 && PlainSeparator(separator)
    ensures Lex(QuotedLine(fields, separator) + rest, separator) == LexedLine(fields, separator) + Lex(rest, separator)
    decreases |fields|
  {
    if |fields| == 1 {
      LexQuotedLineLast(fields, rest, separator);
    } else {
      LexQuotedLine(fields[1..], rest, separator);
      LexQuotedLineStep(fields, rest, separator);
    }
  }

  lemma {:induction false} TokensAtSuffix(tokens: seq<Token>, pos: nat)
    requires pos <= |tokens|
    ensures TokensAt(tokens, pos, tokens[pos..])
    decreases |tokens| - pos
  {
    if pos < |tokens| {
      TokensAtSuffix(tokens, pos + 1);
      assert tokens[pos..][1..] == tokens[pos + 1..];
    }
  }

  /** Every field can be written: no carriage return, and no longer than the cell limit. */
  predicate Writable(fields: seq<string>, maxCell: int)
  {
    forall i :: 0 <= i < |fields| ==> NoCR(fields[i]) && |fields[i]| <= maxCell
  }

  /** The tokens of a quoted field's contents form a body that stands for the field and whose
      words fit the cell limit. */
  lemma DoubledFieldBody(f: string, separator: char, maxCell: int)
    requires NoCR(f) && |f| <= maxCell && separator != '"'
    ensures var b := Lex(DoubleQuotes(f), separator);
      && QuotedBody(b) && BodyText(b, separator) == f && WordsFit(b, maxCell)
      && (|b| == 0 <==> |f| == 0)
  {
    DoubleQuotesUndone(f);
    LexDoubledBody(DoubleQuotes(f), separator);
    BodyWordsFit(Lex(DoubleQuotes(f), separator), separator);
  }

  /** The bodies of a record of writable fields are quoted bodies whose words fit the cell limit,
      and they are read as the fields, empty ones as null. */
  lemma {:induction false} FieldBodiesRead(fields: seq<string>, separator: char, maxCell: int)
    requires Writable(fields, maxCell) && separator != '"'
    ensures QuotedBodies(FieldBodies(fields, separator), maxCell)
    ensures BodyFields(FieldBodies(fields, separator), separator, maxCell) == NullIfEmptyAll(fields)
    decreases |fields|
  {
    if |fields| > 0 {
      var bs := FieldBodies(fields, separator);
      var rest := FieldBodies(fields[1..], separator);
      assert Writable(fields[1..], maxCell) by {
        forall i | 0 <= i < |fields[1..]| ensures NoCR(fields[1..][i]) && |fields[1..][i]| <= maxCell {
          assert fields[1..][i] == fields[i + 1];
        }
      }
      FieldBodiesRead(fields[1..], separator, maxCell);
      DoubledFieldBody(fields[0], separator, maxCell);
      assert bs[1..] == rest;
      forall i | 0 <= i < |bs| ensures QuotedBody(bs[i]) && WordsFit(bs[i], maxCell) {
        if i > 0 { assert bs[i] == rest[i - 1]; }
      }
      assert BodyField(bs[0], separator) == NullIfEmpty(fields[0]);
      assert BodyFields(bs, separator, maxCell) == [BodyField(bs[0], separator)] + BodyFields(rest, separator, maxCell);
    }
  }

  /** The character-level round trip: a record written by quoting every field (quotes doubled),
      separated by the separator and ended by a newline, is read back by nextRecordLocal as the
      fields it was written from, empty fields as null, whatever text follows it; the cursor stops
      right after the record's end of line, where the tokens of what follows begin. */
  lemma QuotedLineRoundTrip(fields: seq<string>, rest: string, separator: char, lim: Limits)
    requires |fields| >= 1 && PlainSeparator(separator)
    requires 1 <= lim.maxSizeOfIndividualCell && Writable(fields, lim.maxSizeOfIndividualCell)
    requires |fields| <= lim.maxColumnsPerRow
    ensures var tokens := Lex(QuotedLine(fields, separator) + rest, separator);
      && tokens == LexedLine(fields, separator) + Lex(rest, separator)
      && ReadLocal(Config(tokens, separator, lim), 0, false)
         == Step(Done(Some(NullIfEmptyAll(fields))), |LexedLine(fields, separator)|, false)
  {
    var c := Config(Lex(QuotedLine(fields, separator) + rest, separator), separator, lim);
    LexQuotedLine(fields, rest, separator);
    TokensAtSuffix(c.tokens, 0);
    assert c.tokens[0..] == c.tokens;
    TokensAtAppend(c.tokens, 0, LexedLine(fields, separator), Lex(rest, separator));
    FieldBodiesRead(fields, separator, lim.maxSizeOfIndividualCell);
    QuotedRecordRead(c, 0, FieldBodies(fields, separator));
  }

  // ---------------------------------------------------------------------------------------------
  // Writing a record bare, and reading it back

  /** Text the tokenizer reads as one word: word characters only, so no quote, no line break and
      no separator that is a token of its own. */
  predicate BareText(f: string, separator: char)
  {
    forall i :: 0 <= i < |f| ==> IsWordChar(f[i], separator)
  }

  /** A record written bare: the fields joined by the separator and ended by '\n'. */
  function BareLine(fields: seq<string>, separator: char): string
    requires |fields| >= 1
    decreases |fields|
  {
    if |fields| == 1 then fields[0] + "\n" else fields[0] + [separator] + BareLine(fields[1..], separator)
  }

  lemma {:induction false} WordRunBare(f: string, tail: string, separator: char)
    requires BareText(f, separator) && |tail| > 0 && !IsWordChar(tail[0], separator)
    ensures WordRun(f + tail, separator) == |f|
    decreases |f|
  {
    if |f| == 0 {
      assert f + tail == tail;
    } else {
      assert (f + tail)[0] == f[0] && (f + tail)[1..] == f[1..] + tail;
      assert BareText(f[1..], separator) by {
        forall i | 0 <= i < |f[1..]| ensures IsWordChar(f[1..][i], separator) { assert f[1..][i] == f[i + 1]; }
      }
      WordRunBare(f[1..], tail, separator);
    }
  }

  /** A bare field followed by a character that ends words is read as its tokens, then the rest. */
  lemma LexBareField(f: string, tail: string, separator: char)
    requires BareText(f, separator) && |tail| > 0 && !IsWordChar(tail[0], separator)
    ensures Lex(f + tail, separator) == BareTokens(f) + Lex(tail, separator)
  {
    var s := f + tail;
    if |f| == 0 {
      assert s == tail;
    } else {
      assert s[0] == f[0];
      WordRunBare(f, tail, separator);
      assert s[..|f|] == f && s[|f|..] == tail;
    }
  }

  /** The last field of a bare record: the field's tokens, then its end of line. */
  lemma LexBareLast(fields: seq<string>, rest: string, separator: char)
    requires |fields| == 1 && BareText(fields[0], separator) && PlainSeparator(separator)
    ensures Lex(BareLine(fields, separator) + rest, separator) == BareRecordTokens(fields) + Lex(rest, separator)
  {
    var tail := "\n" + rest;
    assert BareLine(fields, separator) + rest == fields[0] + tail;
    LexBareField(fields[0], tail, separator);
    LexPlainChar('\n', rest, separator);
  }

  /** A bare field that is not the last, given the tokens of the other fields and what follows. */
  lemma LexBareStep(fields: seq<string>, rest: string, separator: char)
    requires |fields| > 1 && BareText(fields[0], separator) && PlainSeparator(separator)
    requires Lex(BareLine(fields[1..], separator) + rest, separator)
          == BareRecordTokens(fields[1..]) + Lex(rest, separator)
    ensures Lex(BareLine(fields, separator) + rest, separator) == BareRecordTokens(fields) + Lex(rest, separator)
  {
    var after := BareLine(fields[1..], separator) + rest;
    var tail := [separator] + after;
    assert BareLine(fields, separator) + rest == fields[0] + tail;
    LexBareField(fields[0], tail, separator);
    LexPlainChar(separator, after, separator);
    JoinAfterSep(Lex(BareLine(fields, separator) + rest, separator), BareTokens(fields[0]), Lex(after, separator),
                 BareRecordTokens(fields[1..]), Lex(rest, separator));
  }

  /** Tokenizing a bare record and what follows it gives the record's tokens, then the tokens of
      what follows. */
  lemma {:induction false} LexBareLine(fields: seq<string>, rest: string, separator: char)
    requires |fields| >= 1 && PlainSeparator(separator)
    requires forall i :: 0 <= i < |fields| ==> BareText(fields[i], separator)
    ensures Lex(BareLine(fields, separator) + rest, separator) == BareRecordTokens(fields) + Lex(rest, separator)
    decreases |fields|
  {
    if |fields| == 1 {
      LexBareLast(fields, rest, separator);
    } else {
      assert forall i :: 0 <= i < |fields[1..]| ==> fields[1..][i] == fields[i + 1];
      LexBareLine(fields[1..], rest, separator);
      LexBareStep(fields, rest, separator);
    }
  }

  /** The character-level bare round trip: fields of word characters only, joined by the
      separator and ended by a newline, are read back by nextRecordLocal, empty fields as null,
      whatever text follows; no cell limit applies to them. */
  lemma BareLineRoundTrip(fields: seq<string>, rest: string, separator: char, lim: Limits)
    requires |fields| >= 1 && PlainSeparator(separator)
    requires forall i :: 0 <= i < |fields| ==> BareText(fields[i], separator)
    requires |fields| <= lim.maxColumnsPerRow
    ensures var tokens := Lex(BareLine(fields, separator) + rest, separator);
      && tokens == BareRecordTokens(fields) + Lex(rest, separator)
      && ReadLocal(Config(tokens, separator, lim), 0, false)
         == Step(Done(Some(NullIfEmptyAll(fields))), |BareRecordTokens(fields)|, false)
  {
    var c := Config(Lex(BareLine(fields, separator) + rest, separator), separator, lim);
    LexBareLine(fields, rest, separator);
    TokensAtSuffix(c.tokens, 0);
    assert c.tokens[0..] == c.tokens;
    TokensAtAppend(c.tokens, 0, BareRecordTokens(fields), Lex(rest, separator));
    BareRecordRoundTrip(c, 0, fields);
  }
}
