/**
  Properties of the extractor pass `PdfParser.Run`, and through the method's
  postcondition, of `parsePdfLines`: how headers carry over, which lines are
  ignored, how many records come out and in what order, and how the fields of a
  record come from the tokens of its line.
 */
module PdfParserProps {
  import opened Wrappers
  import opened JavaText
  import opened JavaInt
  import opened PdfParser

  // ---------------------------------------------------------------------------
  // The pass seen through the kinds of its lines. Everything about order,
  // count and faculty depends on the lines only through `Classify`, so it is
  // proved once on `seq<LineKind>` and then carried over to lines.

  /** The fold of `Advance` over a sequence of line kinds. */
  function Fold(p: Pass, ks: seq<LineKind>): Pass
    decreases |ks|
  {
    if |ks| == 0 then p else Advance(Fold(p, ks[..|ks| - 1]), ks[|ks| - 1])
  }

  /** The kind of every line. */
  function Kinds(lines: seq<string>): (ks: seq<LineKind>)
    ensures |ks| == |lines|
    decreases |lines|
  {
    if |lines| == 0 then [] else Kinds(lines[..|lines| - 1]) + [Classify(lines[|lines| - 1])]
  }

  lemma {:induction false} KindsAt(lines: seq<string>, j: nat)
    requires j < |lines|
    ensures Kinds(lines)[j] == Classify(lines[j])
    decreases |lines|
  {
    var init := lines[..|lines| - 1];
    if j < |lines| - 1 {
      KindsAt(init, j);
      assert lines[j] == init[j];
    }
  }

  lemma {:induction false} KindsPrefix(lines: seq<string>, j: nat)
    requires j <= |lines|
    ensures Kinds(lines)[..j] == Kinds(lines[..j])
    decreases |lines|
  {
    if j < |lines| {
      var init := lines[..|lines| - 1];
      KindsPrefix(init, j);
      assert init[..j] == lines[..j];
      assert Kinds(lines)[..|lines| - 1] == Kinds(init);
    } else {
      assert lines[..j] == lines;
    }
  }

  /** The pass over the lines is the fold over their kinds. */
  lemma {:induction false} RunIsFold(p: Pass, lines: seq<string>)
    ensures Run(p, lines) == Fold(p, Kinds(lines))
    decreases |lines|
  {
    if |lines| > 0 {
      var init := lines[..|lines| - 1];
      RunIsFold(p, init);
      assert Kinds(lines)[..|lines| - 1] == Kinds(init);
    }
  }

  // ---------------------------------------------------------------------------
  // The pass is a fold: it splits at any point of the input.

  lemma {:induction false} RunAppend(p: Pass, a: seq<string>, b: seq<string>)
    ensures Run(p, a + b) == Run(Run(p, a), b)
    decreases |b|
  {
    if |b| == 0 {
      assert a + b == a;
    } else {
      assert (a + b)[..|a + b| - 1] == a + b[..|b| - 1];
      RunAppend(p, a, b[..|b| - 1]);
    }
  }

  /** Records already emitted are never touched again: the pass only appends. */
  lemma {:induction false} RunKeepsRecords(p: Pass, lines: seq<string>)
    ensures Run(p, lines).records == p.records + Run(Pass(p.faculty, []), lines).records
    ensures Run(p, lines).faculty == Run(Pass(p.faculty, []), lines).faculty
    decreases |lines|
  {
    if |lines| > 0 {
      RunKeepsRecords(p, lines[..|lines| - 1]);
    }
  }

  /** Parsing `a + b` emits the records of `a`, then those of `b` parsed from
      the faculty in effect at the end of `a`. */
  lemma ParseConcat(a: seq<string>, b: seq<string>)
    ensures Parse(a + b) == Parse(a) + Run(Pass(Run(Start, a).faculty, []), b).records
  {
    RunAppend(Start, a, b);
    RunKeepsRecords(Run(Start, a), b);
  }

  // ---------------------------------------------------------------------------
  // At most one record per line.

  lemma {:induction false} RunGrowth(p: Pass, lines: seq<string>)
    ensures |p.records| <= |Run(p, lines).records| <= |p.records| + |lines|
    decreases |lines|
  {
    if |lines| > 0 {
      RunGrowth(p, lines[..|lines| - 1]);
    }
  }

  lemma RecordCountBound(lines: seq<string>)
    ensures |Parse(lines)| <= |lines|
  {
    RunGrowth(Start, lines);
  }

  // ---------------------------------------------------------------------------
  // The faculty in effect is the text of the nearest preceding header.

  /** Index of the last header line of `lines`, or -1 when there is none. */
  function LastHeaderAt(lines: seq<string>): (r: int)
    ensures -1 <= r < |lines|
    ensures r >= 0 ==> IsHeader(lines[r])
    ensures forall j :: r < j < |lines| ==> !IsHeader(lines[j])
    decreases |lines|
  {
    if |lines| == 0 then -1
    else if IsHeader(lines[|lines| - 1]) then |lines| - 1
    else LastHeaderAt(lines[..|lines| - 1])
  }

  /** The text of the last header of `lines`; `None` (Java `null`) when there is none. */
  function NearestHeader(lines: seq<string>): Option<string> {
    var h := LastHeaderAt(lines);
    if h < 0 then None else Some(lines[h])
  }

  /** After any stretch of lines the carried faculty is the last header of that
      stretch, or what it was before when the stretch has no header. */
  lemma {:induction false} RunFaculty(p: Pass, lines: seq<string>)
    ensures Run(p, lines).faculty == if LastHeaderAt(lines) < 0 then p.faculty else NearestHeader(lines)
    decreases |lines|
  {
    if |lines| > 0 {
      var init := lines[..|lines| - 1];
      RunFaculty(p, init);
      if !IsHeader(lines[|lines| - 1]) {
        assert LastHeaderAt(lines) == LastHeaderAt(init);
        assert LastHeaderAt(init) >= 0 ==> lines[LastHeaderAt(init)] == init[LastHeaderAt(init)];
      }
    }
  }

  lemma FacultyIsNearestHeader(lines: seq<string>)
    ensures Run(Start, lines).faculty == NearestHeader(lines)
  {
    RunFaculty(Start, lines);
  }

  /** Lines that are not data lines emit nothing. */
  lemma {:induction false} RunWithoutData(p: Pass, lines: seq<string>)
    requires forall k :: 0 <= k < |lines| ==> !Classify(lines[k]).Data?
    ensures Run(p, lines).records == p.records
    decreases |lines|
  {
    if |lines| > 0 {
      RunWithoutData(p, lines[..|lines| - 1]);
    }
  }

  /** A run of header lines emits nothing and leaves the last of them in effect. */
  lemma ConsecutiveHeaders(p: Pass, hs: seq<string>)
    requires |hs| > 0
    requires forall k :: 0 <= k < |hs| ==> IsHeader(hs[k])
    ensures Run(p, hs) == Pass(Some(hs[|hs| - 1]), p.records)
  {
    RunWithoutData(p, hs);
    RunFaculty(p, hs);
  }

  /** A header overwrites the faculty whatever it was, and every line that
      starts with a Latin `B` is a header, even one that looks like a data row. */
  lemma HeaderStep(p: Pass, line: string)
    requires IsHeader(line) || (|line| > 0 && line[0] == 'B')
    ensures Step(p, line) == Pass(Some(line), p.records)
  {
    if |line| > 0 && line[0] == 'B' {
      assert StartsWith(line, LatinBPrefix);
    }
  }

  // ---------------------------------------------------------------------------
  // Noise and malformed lines are invisible.

  /** A non-header line that is empty, starts with "№", contains "Сумма", has
      fewer than four tokens or whose score token does not parse is noise or
      malformed: no exception, just a line to skip. */
  lemma SkippedLineKind(x: string)
    requires !IsHeader(x)
    requires IsNoise(x) || |Split(x)| < 4 || ParseInt(Split(x)[|Split(x)| - 2]).None?
    ensures Classify(x) == Noise || Classify(x) == Malformed
  {
  }

  /** Such a line can be removed from the input without changing anything:
      it emits nothing and leaves the faculty as it was. */
  lemma SkippedLineInvisible(p: Pass, a: seq<string>, x: string, b: seq<string>)
    requires !IsHeader(x)
    requires IsNoise(x) || |Split(x)| < 4 || ParseInt(Split(x)[|Split(x)| - 2]).None?
    ensures forall q :: Step(q, x) == q
    ensures Run(p, a + [x] + b) == Run(p, a + b)
  {
    SkippedLineKind(x);
    RunAppend(p, a + [x], b);
    RunAppend(p, a, b);
    assert (a + [x])[..|a|] == a;
    assert Run(p, a + [x]) == Step(Run(p, a), x);
  }

  // ---------------------------------------------------------------------------
  // Every record comes from exactly one data line, in input order.

  /** The positions of the data kinds in `ks`, in increasing order. */
  function DataIndices(ks: seq<LineKind>): (r: seq<nat>)
    ensures |r| <= |ks|
    ensures forall k :: 0 <= k < |r| ==> r[k] < |ks| && ks[r[k]].Data?
    ensures forall k1, k2 :: 0 <= k1 < k2 < |r| ==> r[k1] < r[k2]
    ensures forall j :: 0 <= j < |ks| && ks[j].Data? ==> j in r
    decreases |ks|
  {
    if |ks| == 0 then []
    else
      var r := DataIndices(ks[..|ks| - 1]);
      if ks[|ks| - 1].Data? then r + [|ks| - 1] else r
  }

  /** The record a data kind yields under a given faculty. */
  function RecordOfKind(faculty: Option<string>, k: LineKind): StudentRecord
    requires k.Data?
  {
    StudentRecord(faculty, k.fio, k.code, k.points)
  }

  /** The fold appends one record per data kind, in order, each carrying the
      faculty in effect just before its own position. */
  lemma {:induction false} FoldProvenance(p: Pass, ks: seq<LineKind>)
    ensures |Fold(p, ks).records| == |p.records| + |DataIndices(ks)|
    ensures Fold(p, ks).records[..|p.records|] == p.records
    ensures forall k :: 0 <= k < |DataIndices(ks)| ==>
      Fold(p, ks).records[|p.records| + k]
        == RecordOfKind(Fold(p, ks[..DataIndices(ks)[k]]).faculty, ks[DataIndices(ks)[k]])
    decreases |ks|
  {
    if |ks| > 0 {
      var init := ks[..|ks| - 1];
      var last := ks[|ks| - 1];
      FoldProvenance(p, init);
      var r := DataIndices(init);
      var q := Fold(p, init);
      assert Fold(p, ks) == Advance(q, last);
      forall k | 0 <= k < |r|
        ensures ks[..r[k]] == init[..r[k]] && ks[r[k]] == init[r[k]]
      {
      }
      if last.Data? {
        assert DataIndices(ks) == r + [|ks| - 1];
        assert Fold(p, ks).records == q.records + [RecordOfKind(q.faculty, last)];
        assert ks[..|ks| - 1] == init;
      } else {
        assert DataIndices(ks) == r;
        assert Fold(p, ks).records == q.records;
      }
    }
  }

  lemma KindsAll(lines: seq<string>)
    ensures forall j :: 0 <= j < |lines| ==> Kinds(lines)[j] == Classify(lines[j])
  {
    forall j | 0 <= j < |lines| ensures Kinds(lines)[j] == Classify(lines[j]) {
      KindsAt(lines, j);
    }
  }

  /** The indices of the data lines of `lines`, in increasing order, each
      data line exactly once. */
  function DataLines(lines: seq<string>): (r: seq<nat>)
    ensures |r| <= |lines|
    ensures forall k :: 0 <= k < |r| ==> r[k] < |lines| && Classify(lines[r[k]]).Data?
    ensures forall k1, k2 :: 0 <= k1 < k2 < |r| ==> r[k1] < r[k2]
    ensures forall j :: 0 <= j < |lines| && Classify(lines[j]).Data? ==> j in r
  {
    KindsAll(lines);
    DataIndices(Kinds(lines))
  }

  /** The record that data line `j` of `lines` yields: its own fields and the
      nearest header above it. */
  function RecordOfLine(lines: seq<string>, j: nat): StudentRecord
    requires j < |lines| && Classify(lines[j]).Data?
  {
    RecordOfKind(NearestHeader(lines[..j]), Classify(lines[j]))
  }

  /** The k-th record is the one yielded by the k-th data line. With the
      ordering of `DataLines`, records appear in the order of their lines,
      every data line yields one and nothing else yields any. */
  lemma Provenance(lines: seq<string>)
    ensures |Parse(lines)| == |DataLines(lines)|
    ensures forall k :: 0 <= k < |Parse(lines)| ==> Parse(lines)[k] == RecordOfLine(lines, DataLines(lines)[k])
  {
    var ks := Kinds(lines);
    var r := DataIndices(ks);
    assert DataLines(lines) == r;
    RunIsFold(Start, lines);
    assert Parse(lines) == Fold(Start, ks).records;
    StartProvenance(ks);
    forall k | 0 <= k < |r|
      ensures Parse(lines)[k] == RecordOfLine(lines, r[k])
    {
      RecordOfLineByKinds(lines, r[k]);
    }
  }

  /** `FoldProvenance` from the start state. */
  lemma StartProvenance(ks: seq<LineKind>)
    ensures |Fold(Start, ks).records| == |DataIndices(ks)|
    ensures forall k :: 0 <= k < |DataIndices(ks)| ==>
      Fold(Start, ks).records[k]
        == RecordOfKind(Fold(Start, ks[..DataIndices(ks)[k]]).faculty, ks[DataIndices(ks)[k]])
  {
    FoldProvenance(Start, ks);
    assert |Start.records| == 0;
  }

  /** The record of data line `j`, read off the fold over the kinds. */
  lemma RecordOfLineByKinds(lines: seq<string>, j: nat)
    requires j < |lines| && Classify(lines[j]).Data?
    ensures Kinds(lines)[j].Data?
    ensures RecordOfKind(Fold(Start, Kinds(lines)[..j]).faculty, Kinds(lines)[j]) == RecordOfLine(lines, j)
  {
    KindsAt(lines, j);
    KindsPrefix(lines, j);
    RunIsFold(Start, lines[..j]);
    FacultyIsNearestHeader(lines[..j]);
  }

  // ---------------------------------------------------------------------------
  // The fields of a record.

  /** The name is built from token 1 to token |parts| - 3; with exactly four
      tokens it is token 1 alone, and token 0 is never part of it. */
  lemma FourTokenLine(line: string)
    requires Classify(line).Data? && |Split(line)| == 4
    ensures Classify(line).fio == Trim(Split(line)[1])
    ensures Classify(line).code == Split(line)[3]
    ensures ParseInt(Split(line)[2]) == Some(Classify(line).points)
  {
    assert NameTokens(Split(line)) == [Split(line)[1]];
  }

  /** The columns of a candidate data row: a first column, the name tokens,
      the rendered score and the code. */
  function RowFields(first: string, name: seq<string>, points: int32, code: string): seq<string> {
    [first] + name + [Render(points), code]
  }

  /** The row itself, columns separated by single spaces. */
  function Row(first: string, name: seq<string>, points: int32, code: string): string {
    JoinSpaced(RowFields(first, name, points, code))
  }

  predicate NoBlank(t: string) {
    forall i :: 0 <= i < |t| ==> !IsBlank(t[i])
  }

  /** Name tokens as the extractor can give them back: non-empty, and free of
      whitespace and of anything else `trim()` would remove. */
  predicate NameOk(name: seq<string>) {
    |name| > 0 && forall k :: 0 <= k < |name| ==> name[k] != [] && NoBlank(name[k])
  }

  lemma RowTokens(first: string, name: seq<string>, points: int32, code: string)
    requires WsFree(first) && NameOk(name) && code != [] && WsFree(code)
    ensures Split(Row(first, name, points, code)) == RowFields(first, name, points, code)
  {
    var score := Render(points);
    var ts := RowFields(first, name, points, code);
    assert WsFree(score) by {
      forall i | 0 <= i < |score| ensures !IsWs(score[i]) {
        assert score[i] == '-' || IsDigit(score[i]);
      }
    }
    forall k | 0 <= k < |ts| ensures WsFree(ts[k]) {
      if 0 < k <= |name| {
        assert ts[k] == name[k - 1];
        forall i | 0 <= i < |ts[k]| ensures !IsWs(ts[k][i]) {
          WsIsBlank(ts[k][i]);
        }
      }
    }
    assert forall k :: 0 < k < |ts| ==> ts[k] != [] by {
      forall k | 0 < k < |ts| ensures ts[k] != [] {
        if k <= |name| {
          assert ts[k] == name[k - 1];
        }
      }
    }
    SplitOfJoin(ts);
  }

  lemma NameUntrimmed(name: seq<string>)
    requires NameOk(name)
    ensures Trim(JoinSpaced(name)) == JoinSpaced(name)
  {
    JoinSpacedFirst(name);
    JoinSpacedLast(name);
    TrimOfTrimmed(JoinSpaced(name));
  }

  lemma ClassifyData(line: string, parts: seq<string>, points: int32)
    requires !IsHeader(line) && !IsNoise(line)
    requires Split(line) == parts && |parts| >= 4
    requires ParseInt(parts[|parts| - 2]) == Some(points)
    ensures Classify(line) == Data(Trim(JoinSpaced(NameTokens(parts))), parts[|parts| - 1], points)
  {
  }

  /** Extraction is the inverse of rendering a row: a row built from a first
      column, name tokens, a 32-bit score and a code yields exactly that name,
      score and code, provided the line is neither a header nor noise. */
  lemma RowRoundTrip(first: string, name: seq<string>, points: int32, code: string)
    requires WsFree(first) && NameOk(name) && code != [] && WsFree(code)
    requires !IsHeader(Row(first, name, points, code)) && !IsNoise(Row(first, name, points, code))
    ensures Classify(Row(first, name, points, code)) == Data(JoinSpaced(name), code, points)
  {
    var ts := RowFields(first, name, points, code);
    RowTokens(first, name, points, code);
    assert NameTokens(ts) == name;
    assert ts[|ts| - 2] == Render(points) && ts[|ts| - 1] == code;
    ParseRender(points);
    NameUntrimmed(name);
    ClassifyData(Row(first, name, points, code), ts, points);
  }

  /** A data row directly below a header becomes one record of that faculty. */
  lemma RowBelowHeader(h: string, first: string, name: seq<string>, points: int32, code: string)
    requires IsHeader(h)
    requires WsFree(first) && NameOk(name) && code != [] && WsFree(code)
    requires !IsHeader(Row(first, name, points, code)) && !IsNoise(Row(first, name, points, code))
    ensures Parse([h, Row(first, name, points, code)]) == [StudentRecord(Some(h), JoinSpaced(name), code, points)]
  {
    var row := Row(first, name, points, code);
    RowRoundTrip(first, name, points, code);
    HeaderStep(Start, h);
    var lines := [h, row];
    assert lines[..1] == [h] && [h][..0] == [];
    assert Run(Start, [h]) == Pass(Some(h), []);
    assert Run(Start, lines) == Step(Pass(Some(h), []), row);
  }

  /** A data line below two consecutive headers becomes one record, of the
      second of them. */
  lemma TwoHeadersThenData(h1: string, h2: string, x: string)
    requires IsHeader(h1) && IsHeader(h2) && Classify(x).Data?
    ensures Parse([h1, h2, x]) == [RecordOfKind(Some(h2), Classify(x))]
  {
    HeaderStep(Start, h1);
    HeaderStep(Pass(Some(h1), []), h2);
    var lines := [h1, h2, x];
    assert lines[..2] == [h1, h2] && [h1, h2][..1] == [h1] && [h1][..0] == [];
    assert Run(Start, [h1]) == Pass(Some(h1), []);
    assert Run(Start, [h1, h2]) == Pass(Some(h2), []);
    assert Run(Start, lines) == Step(Pass(Some(h2), []), x);
  }

  /** A data line appended to any input adds exactly its own record, under the
      faculty in effect at the end of that input. */
  lemma DataAfter(pre: seq<string>, line: string)
    requires Classify(line).Data?
    ensures Run(Start, pre + [line])
      == Pass(Run(Start, pre).faculty, Parse(pre) + [RecordOfKind(Run(Start, pre).faculty, Classify(line))])
  {
    var lines := pre + [line];
    assert lines[..|pre|] == pre;
  }

  /** A data line directly below one or more headers becomes one record, of
      the last of them. */
  lemma DataBelowHeaders(lines: seq<string>)
    requires |lines| > 1 && forall k :: 0 <= k < |lines| - 1 ==> IsHeader(lines[k])
    requires Classify(lines[|lines| - 1]).Data?
    ensures Parse(lines) == [RecordOfKind(Some(lines[|lines| - 2]), Classify(lines[|lines| - 1]))]
  {
    var hs := lines[..|lines| - 1];
    assert forall k :: 0 <= k < |hs| ==> IsHeader(hs[k]);
    ConsecutiveHeaders(Start, hs);
    assert Run(Start, hs) == Pass(Some(lines[|lines| - 2]), []);
    DataAfter(hs, lines[|lines| - 1]);
    assert hs + [lines[|lines| - 1]] == lines;
  }
}
