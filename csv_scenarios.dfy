/** Worked examples: the tokens of a few small inputs, as the tokenizer delivers them with ','
    as separator, read by nextRecord from a fresh reader. */
module CsvScenarios {
  import opened CsvTypes
  import opened CsvSpec

  /** A fresh reader's state: cursor at the start, no end of file seen, both counters zero. */
  function Start(): State
  {
    State(0, false, 0, 0)
  }

  /** `a,b,c` and a newline: one record of three fields, then end of stream. */
  lemma PlainRecord(c: Config)
    requires c.tokens == [Word("a"), Sep, Word("b"), Sep, Word("c"), Eol]
    requires c.limits == DefaultLimits
    ensures ReadNext(c, Start()) == (Done(Some([Some("a"), Some("b"), Some("c")])), State(6, false, 3, 1))
    ensures ReadNext(c, State(6, false, 3, 1)) == (Done(None), State(7, true, 3, 1))
  {
    var a := [Some("a")];
    var ab := a + [Some("b")];
    var record := ab + [Some("c")];
    assert ScanOut(c, 5, ab, Some("c")) == Step(Done(Some(record)), 6, false);
    assert ScanOut(c, 4, ab, None) == ScanOut(c, 5, ab, Some("c"));
    assert ScanOut(c, 3, a, Some("b")) == ScanOut(c, 4, ab, None);
    assert ScanOut(c, 2, a, None) == ScanOut(c, 3, a, Some("b"));
    assert [] + [Some("a")] == a;
    assert ScanOut(c, 1, [], Some("a")) == ScanOut(c, 2, a, None);
    assert ScanOut(c, 0, [], None) == ScanOut(c, 1, [], Some("a"));
    assert record == [Some("a"), Some("b"), Some("c")];
    assert RowChars(a) == 1 by { assert a[..0] == []; }
    assert RowChars(ab) == 2 by { assert ab[..1] == a; }
    assert RowChars(record) == 3 by { assert record[..2] == ab; }
    var blank: Record := [None];
    assert [] + [None] == blank;
    assert ReadLocal(c, 6, false) == Step(Done(Some(blank)), 7, true);
    assert IsBlank(blank);
    assert SkipBlank(c, Step(Done(Some(blank)), 7, true)) == Step(Done(None), 7, true);
  }

  /** `ab"c,d` and a newline: the quote arrives while the field holds text, on line 1. */
  lemma UnescapedQuote(c: Config)
    requires c.tokens == [Word("ab"), Quote, Word("c"), Sep, Word("d"), Eol]
    ensures ReadNext(c, Start()).0 == Failed(CSVParseException(ErrorKind.UnescapedQuote, 1))
  {
    assert Line(c.tokens, 2) == 1 by { assert Line(c.tokens, 1) == 1; }
    assert ScanOut(c, 0, [], None) == ScanOut(c, 1, [], Some("ab"));
  }

  /** `"unterminated` and end of file: the exception carries line 1, and the next call returns
      end of stream. */
  lemma UnterminatedQuote(c: Config)
    requires c.tokens == [Quote, Word("unterminated")]
    requires c.limits == DefaultLimits
    ensures ReadNext(c, Start()) == (Failed(CSVParseException(EofInQuote, 1)), State(3, true, 0, 0))
    ensures ReadNext(c, State(3, true, 0, 0)).0 == Done(None)
  {
    assert Line(c.tokens, 3) == 1 by {
      assert Line(c.tokens, 1) == 1;
      assert Line(c.tokens, 2) == 1;
    }
    assert [] + "unterminated" == "unterminated";
    assert ScanIn(c, 2, [], Some("unterminated")) == Step(Failed(CSVParseException(EofInQuote, 1)), 3, true);
    assert ScanIn(c, 1, [], None) == ScanIn(c, 2, [], Some("unterminated"));
    assert ScanOut(c, 0, [], None) == ScanIn(c, 1, [], None);
  }

  /** The tokens of `"a,b","c""d"` and a newline. */
  function QuotedFieldsTokens(): seq<Token>
  {
    [Quote, Word("a"), Sep, Word("b"), Quote, Sep, Quote, Word("c"), Quote, Quote, Word("d"), Quote, Eol]
  }

  /** The second field, `"c""d"`: the doubled quote is one quote. */
  lemma QuotedSecondField(c: Config, first: Record)
    requires c.tokens == QuotedFieldsTokens() && c.limits == DefaultLimits
    requires |first| == 1
    ensures ScanOut(c, 6, first, None) == Step(Done(Some(first + [Some("c\"d")])), 13, false)
  {
    assert ScanIn(c, 11, first, Some("c\"d")) == ScanOut(c, 12, first, Some("c\"d"));
    assert "c\"" + "d" == "c\"d";
    assert ScanIn(c, 10, first, Some("c\"")) == ScanIn(c, 11, first, Some("c\"d"));
    assert "c" + "\"" == "c\"";
    assert ScanIn(c, 8, first, Some("c")) == ScanIn(c, 10, first, Some("c\""));
    assert [] + "c" == "c";
    assert ScanIn(c, 7, first, None) == ScanIn(c, 8, first, Some("c"));
  }

  /** `"a,b","c""d"` and a newline: the separator inside quotes is text, the doubled quote is one
      quote. */
  lemma QuotedFields(c: Config)
    requires c.tokens == QuotedFieldsTokens()
    requires c.separator == ',' && c.limits == DefaultLimits
    ensures ReadLocal(c, 0, false) == Step(Done(Some([Some("a,b"), Some("c\"d")])), 13, false)
  {
    var first := [Some("a,b")];
    QuotedSecondField(c, first);
    assert ScanOut(c, 5, [], Some("a,b")) == ScanOut(c, 6, first, None) by {
      assert [] + [Some("a,b")] == first;
    }
    assert ScanIn(c, 4, [], Some("a,b")) == ScanOut(c, 5, [], Some("a,b"));
    assert "a," + "b" == "a,b";
    assert ScanIn(c, 3, [], Some("a,")) == ScanIn(c, 4, [], Some("a,b"));
    assert "a" + [','] == "a,";
    assert ScanIn(c, 2, [], Some("a")) == ScanIn(c, 3, [], Some("a,"));
    assert [] + "a" == "a";
    assert ScanIn(c, 1, [], None) == ScanIn(c, 2, [], Some("a"));
    assert first + [Some("c\"d")] == [Some("a,b"), Some("c\"d")];
  }

  /** `"a,b"` and a newline with a cell limit of one character: every chunk appended inside the
      quotes fits, so the three-character field is returned although it is longer than the limit. */
  lemma CellLimitPerChunk(c: Config)
    requires c.tokens == [Quote, Word("a"), Sep, Word("b"), Quote, Eol]
    requires c.separator == ',' && c.limits == DefaultLimits.(maxSizeOfIndividualCell := 1)
    ensures ReadLocal(c, 0, false) == Step(Done(Some([Some("a,b")])), 6, false)
    ensures |"a,b"| > c.limits.maxSizeOfIndividualCell
  {
    assert ScanOut(c, 5, [], Some("a,b")) == Step(Done(Some([Some("a,b")])), 6, false) by {
      assert [] + [Some("a,b")] == [Some("a,b")];
    }
    assert ScanIn(c, 4, [], Some("a,b")) == ScanOut(c, 5, [], Some("a,b"));
    assert "a," + "b" == "a,b";
    assert ScanIn(c, 3, [], Some("a,")) == ScanIn(c, 4, [], Some("a,b"));
    assert "a" + [','] == "a,";
    assert ScanIn(c, 2, [], Some("a")) == ScanIn(c, 3, [], Some("a,"));
    assert [] + "a" == "a";
    assert ScanIn(c, 1, [], None) == ScanIn(c, 2, [], Some("a"));
  }

  /** `1,2,3,4` and a newline with at most three columns: the fourth field is added at the end of
      line, once it has been consumed, so the exception reports line 2. */
  lemma ColumnLimit(c: Config)
    requires c.tokens == [Word("1"), Sep, Word("2"), Sep, Word("3"), Sep, Word("4"), Eol]
    requires c.limits.maxColumnsPerRow == 3
    ensures ReadNext(c, Start()).0 == Failed(CSVParseException(ExceededColumns, 2))
  {
    var r1 := [Some("1")];
    var r2 := r1 + [Some("2")];
    var r3 := r2 + [Some("3")];
    assert Line(c.tokens, 8) == 2 by {
      assert Line(c.tokens, 1) == 1;
      assert Line(c.tokens, 2) == 1;
      assert Line(c.tokens, 3) == 1;
      assert Line(c.tokens, 4) == 1;
      assert Line(c.tokens, 5) == 1;
      assert Line(c.tokens, 6) == 1;
      assert Line(c.tokens, 7) == 1;
    }
    assert ScanOut(c, 7, r3, Some("4")) == Step(Failed(CSVParseException(ExceededColumns, 2)), 8, false);
    assert ScanOut(c, 6, r3, None) == ScanOut(c, 7, r3, Some("4"));
    assert ScanOut(c, 4, r2, None) == ScanOut(c, 6, r3, None) by {
      assert ScanOut(c, 4, r2, None) == ScanOut(c, 5, r2, Some("3"));
    }
    assert ScanOut(c, 2, r1, None) == ScanOut(c, 4, r2, None) by {
      assert ScanOut(c, 2, r1, None) == ScanOut(c, 3, r1, Some("2"));
    }
    assert ScanOut(c, 0, [], None) == ScanOut(c, 2, r1, None) by {
      assert ScanOut(c, 0, [], None) == ScanOut(c, 1, [], Some("1"));
      assert [] + [Some("1")] == r1;
    }
  }

  /** With at most two records, three one-field records: the first two are returned, the third
      throws, reporting the line after its end of line. */
  lemma RecordLimit(c: Config)
    requires c.tokens == [Word("x"), Eol, Word("y"), Eol, Word("z"), Eol]
    requires c.limits == DefaultLimits.(maxRowsInFile := 2)
    ensures ReadNext(c, Start()) == (Done(Some([Some("x")])), State(2, false, 1, 1))
    ensures ReadNext(c, State(2, false, 1, 1)) == (Done(Some([Some("y")])), State(4, false, 2, 2))
    ensures ReadNext(c, State(4, false, 2, 2)).0 == Failed(CSVParseException(ExceededRecords, 4))
  {
    OneWordRecord(c, 0, "x");
    assert Line(c.tokens, 2) == 2 by { assert Line(c.tokens, 1) == 1; }
    OneWordRecord(c, 2, "y");
    assert Line(c.tokens, 4) == 3 by { assert Line(c.tokens, 3) == 2; }
    OneWordRecord(c, 4, "z");
    assert Line(c.tokens, 6) == 4 by { assert Line(c.tokens, 5) == 3; }
  }

  /** A word and an end of line: a record of one field of one character, not blank. */
  lemma OneWordRecord(c: Config, pos: nat, w: string)
    requires At(c.tokens, pos) == Word(w) && At(c.tokens, pos + 1) == Eol && |w| == 1
    requires 1 <= c.limits.maxColumnsPerRow
    ensures ReadLocal(c, pos, false) == Step(Done(Some([Some(w)])), pos + 2, false)
    ensures RowChars([Some(w)]) == 1 && !IsBlank([Some(w)])
  {
    assert [] + [Some(w)] == [Some(w)];
    assert ScanOut(c, pos, [], None) == ScanOut(c, pos + 1, [], Some(w));
    assert [Some(w)][..0] == [];
  }
}
