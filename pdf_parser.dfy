/**
  The line-to-record extractor `PdfParser.parsePdfLines`: one forward pass
  over the text lines of a grant report, carrying the current faculty (the
  text of the latest header line) and emitting one `StudentRecord` per data
  line.

  The pass is specified as a fold (`Run`) of the per-line transition `Step`,
  which is driven by the classification `Classify`; the method
  `ParsePdfLines` is the Java loop and is proved equal to that fold.
 */
module PdfParser {
  import opened Wrappers
  import opened JavaText
  import opened JavaInt

  /** One extracted row. `faculty` is `None` where Java stores `null`. */
  datatype StudentRecord = StudentRecord(
    faculty: Option<string>,
    fio: string,
    code: string,
    sumPoints: int32)

  /** Cyrillic "В0" (U+0412 followed by the digit zero). */
  const FacultyPrefix: string := "\U{0412}0"
  /** Latin capital B. */
  const LatinBPrefix: string := "B"
  /** The numero sign "№" that opens the column-title row. */
  const NumeroSign: string := "\U{2116}"
  /** Cyrillic "Сумма", found in totals rows. */
  const TotalsWord: string := "\U{0421}\U{0443}\U{043C}\U{043C}\U{0430}"

  predicate IsHeader(line: string) {
    StartsWith(line, FacultyPrefix) || StartsWith(line, LatinBPrefix)
  }

  predicate IsNoise(line: string) {
    |line| == 0 || StartsWith(line, NumeroSign) || Contains(line, TotalsWord)
  }

  /** What one line means to the extractor. */
  datatype LineKind =
    | Header(text: string)
    | Noise
    | Malformed
    | Data(fio: string, code: string, points: int32)

  /** The tokens that make up the name: indices 1 to |parts| - 3. */
  function NameTokens(parts: seq<string>): seq<string>
    requires |parts| >= 4
  {
    parts[1..|parts| - 2]
  }

  /** The classification the loop body applies to one line, in the order of
      its tests: header, noise, too few tokens, unparseable score, data. */
  function Classify(line: string): (k: LineKind)
    ensures k.Header? <==> IsHeader(line)
    ensures k.Header? ==> k.text == line
    ensures k.Noise? ==> IsNoise(line)
    ensures k.Data? ==> |k.code| > 0 && WsFree(k.code)
    ensures k.Data? ==> k.fio == [] || (!IsBlank(k.fio[0]) && !IsBlank(k.fio[|k.fio| - 1]))
  {
    if IsHeader(line) then Header(line)
    else if IsNoise(line) then Noise
    else
      var parts := Split(line);
      SplitShape(line);
      if |parts| < 4 then Malformed
      else
        match ParseInt(parts[|parts| - 2])
        case None => Malformed
        case Some(points) => Data(Trim(JoinSpaced(NameTokens(parts))), parts[|parts| - 1], points)
  }

  /** The loop's state between two lines: `currentFaculty` and `records`. */
  datatype Pass = Pass(faculty: Option<string>, records: seq<StudentRecord>)

  const Start: Pass := Pass(None, [])

  /** How a line of kind `k` changes the state: a header replaces the
      faculty, a data line appends one record, every other line changes nothing. */
  function Advance(p: Pass, k: LineKind): Pass {
    match k
    case Header(text) => Pass(Some(text), p.records)
    case Data(fio, code, points) =>
      Pass(p.faculty, p.records + [StudentRecord(p.faculty, fio, code, points)])
    case _ => p
  }

  /** One iteration of the loop. */
  function Step(p: Pass, line: string): Pass {
    Advance(p, Classify(line))
  }

  /** The loop over `lines`, from state `p`. */
  function Run(p: Pass, lines: seq<string>): Pass
    decreases |lines|
  {
    if |lines| == 0 then p else Step(Run(p, lines[..|lines| - 1]), lines[|lines| - 1])
  }

  /** What `parsePdfLines(lines)` returns. */
  function Parse(lines: seq<string>): seq<StudentRecord> {
    Run(Start, lines).records
  }

  /** The name of a data line: the `StringBuilder` loop that appends every
      name token followed by one space, then `trim()`. */
  method BuildFio(parts: seq<string>) returns (fio: string)
    requires |parts| >= 4
    ensures fio == Trim(JoinSpaced(NameTokens(parts)))
  {
    var fioBuilder: string := "";
    for i := 1 to |parts| - 2
      invariant fioBuilder == if i == 1 then "" else JoinSpaced(parts[1..i]) + " "
    {
      if i == 1 {
        assert parts[1..2] == [parts[1]];
      } else {
        assert parts[1..i + 1] == parts[1..i] + [parts[i]];
        JoinSpacedSnoc(parts[1..i], parts[i]);
      }
      fioBuilder := fioBuilder + parts[i] + " ";
    }
    TrimTrailingSpace(JoinSpaced(NameTokens(parts)));
    fio := Trim(fioBuilder);
  }

  /** `parsePdfLines`: the Java loop, with `continue` for each skipped line. */
  method ParsePdfLines(lines: seq<string>) returns (records: seq<StudentRecord>)
    ensures records == Parse(lines)
  {
    records := [];
    var currentFaculty: Option<string> := None;

    for n := 0 to |lines|
      invariant Pass(currentFaculty, records) == Run(Start, lines[..n])
    {
      var line := lines[n];
      assert lines[..n + 1][..n] == lines[..n];
      ghost var before := Pass(currentFaculty, records);
      assert Run(Start, lines[..n + 1]) == Step(before, line);

      if StartsWith(line, FacultyPrefix) || StartsWith(line, LatinBPrefix) {
        currentFaculty := Some(line);
        continue;
      }

      if |line| == 0 || StartsWith(line, NumeroSign) || Contains(line, TotalsWord) {
        continue;
      }

      var parts := Split(line);
      if |parts| < 4 {
        continue;
      }

      var code := parts[|parts| - 1];
      var parsed := ParseInt(parts[|parts| - 2]);
      if parsed.None? {
        continue;
      }
      var sumPoints := parsed.value;

      var fio := BuildFio(parts);

      var record := StudentRecord(currentFaculty, fio, code, sumPoints);
      records := records + [record];
    }
    assert lines[..|lines|] == lines;
  }
}
