/**
  Worked inputs for `parsePdfLines`, each stated for the whole pass. The facts
  about a literal line (its tokens, its kind) are proved in lemmas of their
  own and then combined, so that no proof has to evaluate the extractor on a
  literal from scratch.
 */
module PdfParserScenarios {
  import opened Wrappers
  import opened JavaText
  import opened JavaInt
  import opened PdfParser
  import opened PdfParserProps

  /** An ASCII line never contains the Cyrillic totals word. */
  lemma AsciiIsNotTotals(s: string)
    requires forall i :: 0 <= i < |s| ==> s[i] < '\U{0080}'
    ensures !Contains(s, TotalsWord)
  {
    NotContainedWithoutFirst(s, TotalsWord);
  }

  /** An ASCII line that opens with a digit or with a Latin letter other than
      B is neither a header nor noise. */
  lemma AsciiCandidate(row: string)
    requires |row| > 0 && row[0] != 'B'
    requires 'a' <= row[0] <= 'z' || 'A' <= row[0] <= 'Z' || '0' <= row[0] <= '9'
    requires forall i :: 0 <= i < |row| ==> row[i] < '\U{0080}'
    ensures !IsHeader(row) && !IsNoise(row)
  {
    AsciiIsNotTotals(row);
  }

  // ---------------------------------------------------------------------------
  // A faculty header followed by one data row.

  lemma IvanRendered()
    ensures Row("1", ["Ivan", "Petrov"], 250, "A100") == "1 Ivan Petrov 250 A100"
  {
  }

  lemma IvanFields()
    ensures WsFree("1") && NameOk(["Ivan", "Petrov"]) && WsFree("A100")
  {
  }

  lemma IvanCandidate()
    ensures !IsHeader("1 Ivan Petrov 250 A100") && !IsNoise("1 Ivan Petrov 250 A100")
  {
    AsciiCandidate("1 Ivan Petrov 250 A100");
  }

  lemma HeaderThenIvanRow()
    ensures Parse(["\U{0412}0101 Faculty of Law", Row("1", ["Ivan", "Petrov"], 250, "A100")])
      == [StudentRecord(Some("\U{0412}0101 Faculty of Law"), JoinSpaced(["Ivan", "Petrov"]), "A100", 250)]
  {
    assert "\U{0412}0101 Faculty of Law"[..2] == FacultyPrefix;
    IvanRendered();
    IvanFields();
    IvanCandidate();
    RowBelowHeader("\U{0412}0101 Faculty of Law", "1", ["Ivan", "Petrov"], 250, "A100");
  }

  /** "В0101 Faculty of Law" then "1 Ivan Petrov 250 A100" gives one record
      of that faculty, with name "Ivan Petrov", code "A100" and score 250. */
  lemma HeaderThenRow()
    ensures Parse(["\U{0412}0101 Faculty of Law", "1 Ivan Petrov 250 A100"])
      == [StudentRecord(Some("\U{0412}0101 Faculty of Law"), "Ivan Petrov", "A100", 250)]
  {
    HeaderThenIvanRow();
    IvanRendered();
    assert JoinSpaced(["Ivan", "Petrov"]) == "Ivan Petrov";
  }

  // ---------------------------------------------------------------------------
  // Lines that yield nothing.

  /** The column-title row "№" and a totals row "Сумма баллов: 500" yield no record. */
  lemma TitleAndTotals()
    ensures Parse(["\U{2116}", TotalsWord + " \U{0431}\U{0430}\U{043B}\U{043B}\U{043E}\U{0432}: 500"]) == []
  {
    var title := "\U{2116}";
    var totals := TotalsWord + " \U{0431}\U{0430}\U{043B}\U{043B}\U{043E}\U{0432}: 500";
    assert title[..1] == NumeroSign;
    assert totals[..|TotalsWord|] == TotalsWord;
    assert totals[0] == '\U{0421}';
    assert totals[..1] != LatinBPrefix && totals[..2] != FacultyPrefix;
    SkippedLineKind(title);
    SkippedLineKind(totals);
    RunWithoutData(Start, [title, totals]);
  }

  lemma XyzTokens()
    ensures Split("x y z") == ["x", "y", "z"]
  {
    assert JoinSpaced(["x", "y", "z"]) == "x y z";
    SplitOfJoin(["x", "y", "z"]);
  }

  /** "x y z" has three tokens, one short of a data row. */
  lemma XyzMalformed()
    ensures Classify("x y z") == Malformed
  {
    XyzTokens();
    AsciiCandidate("x y z");
  }

  /** A header followed by the three-token line "x y z" yields no record. */
  lemma ShortRowDropped()
    ensures Parse(["B1", "x y z"]) == []
  {
    XyzMalformed();
    HeaderStep(Start, "B1");
    var lines := ["B1", "x y z"];
    assert lines[..1] == ["B1"] && ["B1"][..0] == [];
    assert Run(Start, ["B1"]) == Pass(Some("B1"), []);
    assert Run(Start, lines) == Step(Pass(Some("B1"), []), "x y z");
  }

  lemma AnnaTokens()
    ensures Split("1 Anna Ivanova abc A200") == ["1", "Anna", "Ivanova", "abc", "A200"]
  {
    assert JoinSpaced(["1", "Anna", "Ivanova", "abc", "A200"]) == "1 Anna Ivanova abc A200";
    SplitOfJoin(["1", "Anna", "Ivanova", "abc", "A200"]);
  }

  /** A row whose score column "abc" is not a number is malformed. */
  lemma AnnaMalformed()
    ensures Classify("1 Anna Ivanova abc A200") == Malformed
  {
    AsciiCandidate("1 Anna Ivanova abc A200");
    AnnaTokens();
    ParseIntCases();
  }

  /** "1 Anna Ivanova abc A200" alone yields no record. */
  lemma NonNumericScoreDropped()
    ensures Parse(["1 Anna Ivanova abc A200"]) == []
  {
    AnnaMalformed();
    assert ["1 Anna Ivanova abc A200"][..0] == [];
    assert Run(Start, ["1 Anna Ivanova abc A200"]) == Step(Start, "1 Anna Ivanova abc A200");
  }

  // ---------------------------------------------------------------------------
  // Which header a record carries.

  lemma XRendered()
    ensures Row("1", ["X"], 10, "C1") == "1 X 10 C1"
  {
  }

  lemma XFields()
    ensures WsFree("1") && NameOk(["X"]) && WsFree("C1")
  {
  }

  lemma LatinBHeaders()
    ensures IsHeader("B1") && IsHeader("B2")
  {
    assert "B1"[..1] == LatinBPrefix && "B2"[..1] == LatinBPrefix;
  }

  /** "1 X 10 C1" is a data line with name "X", code "C1" and score 10. */
  lemma XKind()
    ensures Classify("1 X 10 C1") == Data("X", "C1", 10)
  {
    XRendered();
    XFields();
    AsciiCandidate("1 X 10 C1");
    RowRoundTrip("1", ["X"], 10, "C1");
  }

  /** Of the headers "B1" and "B2" the second is in effect for "1 X 10 C1". */
  lemma LastHeaderWins()
    ensures Parse(["B1", "B2", "1 X 10 C1"]) == [StudentRecord(Some("B2"), "X", "C1", 10)]
  {
    XKind();
    LatinBHeaders();
    TwoHeadersThenData("B1", "B2", "1 X 10 C1");
  }

  lemma PavlovaRendered()
    ensures Row("2", ["Anna", "Pavlova"], 200, "A2") == "2 Anna Pavlova 200 A2"
  {
  }

  lemma PavlovaFields()
    ensures WsFree("2") && NameOk(["Anna", "Pavlova"]) && WsFree("A2")
  {
  }

  lemma PavlovaCandidate()
    ensures !IsHeader("2 Anna Pavlova 200 A2") && !IsNoise("2 Anna Pavlova 200 A2")
  {
    AsciiCandidate("2 Anna Pavlova 200 A2");
  }

  lemma LatinBRowThenPavlovaRow()
    ensures Parse(["B7 Boris Orlov 300 A1", Row("2", ["Anna", "Pavlova"], 200, "A2")])
      == [StudentRecord(Some("B7 Boris Orlov 300 A1"), JoinSpaced(["Anna", "Pavlova"]), "A2", 200)]
  {
    assert "B7 Boris Orlov 300 A1"[..1] == LatinBPrefix;
    PavlovaRendered();
    PavlovaFields();
    PavlovaCandidate();
    RowBelowHeader("B7 Boris Orlov 300 A1", "2", ["Anna", "Pavlova"], 200, "A2");
  }

  /** A row whose first column starts with a Latin B, "B7 Boris Orlov 300 A1",
      is taken for a header: it yields no record and becomes the faculty of
      the row below it. */
  lemma LatinBRowIsHeader()
    ensures Parse(["B7 Boris Orlov 300 A1", "2 Anna Pavlova 200 A2"])
      == [StudentRecord(Some("B7 Boris Orlov 300 A1"), "Anna Pavlova", "A2", 200)]
  {
    LatinBRowThenPavlovaRow();
    PavlovaRendered();
    assert JoinSpaced(["Anna", "Pavlova"]) == "Anna Pavlova";
  }
}
