/** The `ini_parse` example of the `Aws::Util` test suite, line by line and
    as a whole.

    The example text has six lines: a whole-line comment, then, each
    indented by six spaces, a header followed by a trailing comment, a
    stray word, a pair followed by a trailing comment, a pair with spaces
    around its `=` and a `;` inside its value, and a header with no pair
    after it.

    Each line is written as the concatenation of the parts the line lemmas
    of `Ini` speak about; the characters are those of the test. */
module IniExamples {
  import opened Ini

  const Indent := "      "
  const Line0 := ";" + " command at the beginning of the line"
  const Line1 := Indent + ("[section1]" + " " + ";" + " comment at end of line")
  const Line2 := Indent + "invalidline" + ""
  const Line3 := Indent + ("key1=value1" + " " + ";" + "anothercomment")
  const Line4 := Indent + (("key2" + " ") + "=" + (" " + "value2;value3")) + ""
  const Line5 := Indent + ("[" + "emptysection" + "]") + ""
  const Sample := Line0 + "\n" + Line1 + "\n" + Line2 + "\n" + Line3 + "\n" + Line4 + "\n" + Line5

  lemma Line0Single() ensures '\n' !in Line0 {}
  lemma Line1Single() ensures '\n' !in Line1 {}
  lemma Line2Single() ensures '\n' !in Line2 {}
  lemma Line3Single() ensures '\n' !in Line3 {}
  lemma Line4Single() ensures '\n' !in Line4 {}
  lemma Line5Single() ensures '\n' !in Line5 {}

  // ---------------------------------------------------------------------
  // The lines one by one.

  /** A line starting with `;` is a comment. */
  lemma CommentLineIgnored()
    ensures Classify(Line0) == Ignored
  {
    assert Line0 == "" + ";" + " command at the beginning of the line";
    CommentLine("", " command at the beginning of the line");
  }

  lemma Section1Parts()
    ensures Indent + ("[" + "section1" + "]") + "" == Indent + "[section1]"
  {
  }

  lemma Section1Header()
    ensures Classify(Indent + "[section1]") == Header("section1")
  {
    Section1Parts();
    HeaderLine(Indent, "section1", "");
  }

  /** The comment after a header is dropped; the indented header names its
      section. */
  lemma CommentedHeader()
    ensures Classify(Line1) == Header("section1")
  {
    TrailingComment(Indent, "[section1]", " ", " comment at end of line");
    Section1Header();
  }

  /** A line with no `=` is ignored. */
  lemma InvalidLineIgnored()
    ensures Classify(Line2) == Ignored
  {
    PlainLine(Indent, "invalidline", "");
  }

  lemma Key1Parts()
    ensures Indent + (("key1" + "") + "=" + ("" + "value1")) + "" == Indent + "key1=value1"
  {
  }

  lemma Key1Pair()
    ensures Classify(Indent + "key1=value1") == Pair("key1", "value1")
  {
    Key1Parts();
    PairLine(Indent, "key1", "", "", "value1", "");
  }

  /** A comment after a value, started by whitespace and `;`, is dropped. */
  lemma CommentedPair()
    ensures Classify(Line3) == Pair("key1", "value1")
  {
    TrailingComment(Indent, "key1=value1", " ", "anothercomment");
    Key1Pair();
  }

  /** Spaces around `=` are trimmed, and a `;` with no whitespace before it
      is part of the value. */
  lemma SemicolonInValue()
    ensures Classify(Line4) == Pair("key2", "value2;value3")
  {
    PairLine(Indent, "key2", " ", " ", "value2;value3", "");
  }

  lemma EmptySectionHeader()
    ensures Classify(Line5) == Header("emptysection")
  {
    HeaderLine(Indent, "emptysection", "");
  }

  // ---------------------------------------------------------------------
  // The whole text.

  lemma NextLine(t: string, l: string, e: Entry)
    requires '\n' !in l && Classify(l) == e
    ensures Run(Lines(t + "\n" + l)) == Step(Run(Lines(t)), e)
  {
    LinesAppend(t, l);
    RunSnoc(Lines(t), l);
  }

  lemma SampleHeader()
    ensures Run(Lines(Line0 + "\n" + Line1 + "\n" + Line2)) == State(Some("section1"), map[])
  {
    Line0Single();
    Line1Single();
    Line2Single();
    LinesSingle(Line0);
    CommentLineIgnored();
    RunSnoc([], Line0);
    assert [] + [Line0] == [Line0];
    CommentedHeader();
    NextLine(Line0, Line1, Header("section1"));
    InvalidLineIgnored();
    NextLine(Line0 + "\n" + Line1, Line2, Ignored);
  }

  lemma SamplePairs()
    ensures Run(Lines(Line0 + "\n" + Line1 + "\n" + Line2 + "\n" + Line3 + "\n" + Line4))
      == State(Some("section1"), Store(Store(map[], "section1", "key1", "value1"), "section1", "key2", "value2;value3"))
  {
    var t := Line0 + "\n" + Line1 + "\n" + Line2;
    SampleHeader();
    Line3Single();
    Line4Single();
    CommentedPair();
    NextLine(t, Line3, Pair("key1", "value1"));
    SemicolonInValue();
    NextLine(t + "\n" + Line3, Line4, Pair("key2", "value2;value3"));
  }

  /** The test's expectations: both keys land in `section1` with their
      values, and the header with no pairs after it leaves no section. */
  lemma SampleDocument()
    ensures var doc := Parse(Sample);
      Lookup(doc, "section1", "key1") == Some("value1")
      && Lookup(doc, "section1", "key2") == Some("value2;value3")
      && "emptysection" !in doc
  {
    SamplePairs();
    Line5Single();
    EmptySectionHeader();
    NextLine(Line0 + "\n" + Line1 + "\n" + Line2 + "\n" + Line3 + "\n" + Line4, Line5, Header("emptysection"));
    StoreLookup(Store(map[], "section1", "key1", "value1"), "section1", "key2", "value2;value3", "section1", "key1");
  }

  // ---------------------------------------------------------------------
  // A pair before any header.

  /** The line `k=v`. */
  const LonePair := "" + (("k" + "") + "=" + ("" + "v")) + ""

  lemma LonePairSingle() ensures '\n' !in LonePair {}

  /** A key and value with no header before them create no section. */
  lemma PairWithoutSection()
    ensures Parse(LonePair) == map[]
  {
    PairLine("", "k", "", "", "v", "");
    LonePairSingle();
    LinesSingle(LonePair);
    RunSnoc([], LonePair);
    assert [] + [LonePair] == [LonePair];
  }
}
