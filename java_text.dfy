/**
  The parts of `java.lang.String` that the line extractor relies on:
  `startsWith`, `contains`, `split("\\s+")` (limit 0) and `trim()`.
  Strings are sequences of characters; every pattern used by the extractor
  lies in the Basic Multilingual Plane, so comparing Unicode scalar values
  here agrees with Java's comparison of UTF-16 code units.
 */
module JavaText {

  /** `s.startsWith(p)`. */
  predicate StartsWith(s: string, p: string) {
    |p| <= |s| && s[..|p|] == p
  }

  /** `s.contains(p)`: `p` occurs in `s` at some offset. */
  predicate Contains(s: string, p: string)
    decreases |s|
  {
    StartsWith(s, p) || (|s| > 0 && Contains(s[1..], p))
  }

  /** The offset at which a contained pattern occurs. */
  lemma {:induction false} ContainsWitness(s: string, p: string) returns (i: nat)
    requires Contains(s, p)
    ensures i + |p| <= |s| && s[i..i + |p|] == p
    decreases |s|
  {
    if StartsWith(s, p) {
      i := 0;
    } else {
      var j := ContainsWitness(s[1..], p);
      assert s[1..][j..j + |p|] == s[j + 1..j + 1 + |p|];
      i := j + 1;
    }
  }

  /** A pattern whose first character does not occur in `s` is not contained in it. */
  lemma NotContainedWithoutFirst(s: string, p: string)
    requires |p| > 0 && forall i :: 0 <= i < |s| ==> s[i] != p[0]
    ensures !Contains(s, p)
  {
    if Contains(s, p) {
      var i := ContainsWitness(s, p);
      assert false;
    }
  }

  /** The characters matched by the regular expression class `\s` (ASCII only). */
  predicate IsWs(c: char) {
    c == ' ' || c == '\t' || c == '\n' || c == '\U{000B}' || c == '\U{000C}' || c == '\r'
  }

  predicate WsFree(s: string) {
    forall k :: 0 <= k < |s| ==> !IsWs(s[k])
  }

  /** The characters that `String.trim()` removes: every code up to U+0020. */
  predicate IsBlank(c: char) {
    c <= ' '
  }

  /** Every `\s` character is also removed by `trim()`. */
  lemma WsIsBlank(c: char)
    ensures IsWs(c) ==> IsBlank(c)
  {
  }

  /** All non-whitespace characters of `s`, in order. */
  function RemoveWs(s: string): string
    decreases |s|
  {
    if |s| == 0 then [] else (if IsWs(s[0]) then [] else [s[0]]) + RemoveWs(s[1..])
  }

  lemma {:induction false} RemoveWsAppend(a: string, b: string)
    ensures RemoveWs(a + b) == RemoveWs(a) + RemoveWs(b)
    decreases |a|
  {
    if |a| > 0 {
      assert (a + b)[1..] == a[1..] + b;
      RemoveWsAppend(a[1..], b);
    } else {
      assert a + b == b;
    }
  }

  lemma {:induction false} RemoveWsOfWsFree(s: string)
    requires WsFree(s)
    ensures RemoveWs(s) == s
    decreases |s|
  {
    if |s| > 0 {
      RemoveWsOfWsFree(s[1..]);
    }
  }

  lemma {:induction false} RemoveWsOfWsRun(s: string)
    requires forall k :: 0 <= k < |s| ==> IsWs(s[k])
    ensures RemoveWs(s) == []
    decreases |s|
  {
    if |s| > 0 {
      RemoveWsOfWsRun(s[1..]);
    }
  }

  /** Concatenation of a list of strings. */
  function Concat(ts: seq<string>): string
    decreases |ts|
  {
    if |ts| == 0 then [] else ts[0] + Concat(ts[1..])
  }

  lemma {:induction false} ConcatSnoc(ts: seq<string>, t: string)
    ensures Concat(ts + [t]) == Concat(ts) + t
    decreases |ts|
  {
    if |ts| > 0 {
      assert (ts + [t])[1..] == ts[1..] + [t];
      ConcatSnoc(ts[1..], t);
    }
  }

  /** Index of the first `\s` character at or after `i`, or `|s|` if none:
      where the next match of `\s+` begins. */
  function FindWs(s: string, i: nat): (j: nat)
    requires i <= |s|
    ensures i <= j <= |s|
    ensures j < |s| ==> IsWs(s[j])
    ensures forall k :: i <= k < j ==> !IsWs(s[k])
    decreases |s| - i
  {
    if i == |s| || IsWs(s[i]) then i else FindWs(s, i + 1)
  }

  /** Index of the first non-`\s` character at or after `i`, or `|s|` if none:
      where a greedy match of `\s+` starting at `i` ends. */
  function SkipWs(s: string, i: nat): (j: nat)
    requires i <= |s|
    ensures i <= j <= |s|
    ensures j < |s| ==> !IsWs(s[j])
    ensures forall k :: i <= k < j ==> IsWs(s[k])
    decreases |s| - i
  {
    if i == |s| || !IsWs(s[i]) then i else SkipWs(s, i + 1)
  }

  /** The segments of `s` around every maximal run of whitespace, before
      Java drops the trailing empty ones. A leading run yields an empty first
      segment, a trailing run an empty last one; all others are non-empty. */
  function Pieces(s: string): seq<string>
    decreases |s|
  {
    var i := FindWs(s, 0);
    if i == |s| then [s]
    else
      var j := SkipWs(s, i);
      [s[..i]] + Pieces(s[j..])
  }

  lemma {:induction false} PiecesShape(s: string)
    ensures |Pieces(s)| >= 1
    ensures |s| > 0 && !IsWs(s[0]) ==> Pieces(s)[0] != []
    ensures forall k :: 0 <= k < |Pieces(s)| ==> WsFree(Pieces(s)[k])
    ensures forall k :: 0 < k < |Pieces(s)| - 1 ==> Pieces(s)[k] != []
    ensures Concat(Pieces(s)) == RemoveWs(s)
    decreases |s|
  {
    var i := FindWs(s, 0);
    if i == |s| {
      RemoveWsOfWsFree(s);
      assert Concat([s]) == s + Concat([]);
    } else {
      var j := SkipWs(s, i);
      var rest := Pieces(s[j..]);
      PiecesShape(s[j..]);
      RemoveWsAroundRun(s, i, j);
      var r := [s[..i]] + rest;
      assert Pieces(s) == r;
      assert r[1..] == rest;
    }
  }

  lemma RemoveWsAroundRun(s: string, i: nat, j: nat)
    requires i <= j <= |s|
    requires forall k :: 0 <= k < i ==> !IsWs(s[k])
    requires forall k :: i <= k < j ==> IsWs(s[k])
    ensures RemoveWs(s) == s[..i] + RemoveWs(s[j..])
  {
    RemoveWsOfFreePrefix(s, i);
    RemoveWsOfRunSlice(s, i, j);
    RemoveWsFreeThenRun(s[..i], s[i..j], s[j..]);
    SliceThree(s, i, j);
  }

  lemma SliceThree(s: string, i: nat, j: nat)
    requires i <= j <= |s|
    ensures s[..i] + s[i..j] + s[j..] == s
  {
  }

  lemma RemoveWsFreeThenRun(a: string, w: string, b: string)
    requires RemoveWs(a) == a && RemoveWs(w) == []
    ensures RemoveWs(a + w + b) == a + RemoveWs(b)
  {
    RemoveWsAppend(a, w);
    assert a + [] == a;
    RemoveWsAppend(a + w, b);
  }

  lemma RemoveWsOfFreePrefix(s: string, i: nat)
    requires i <= |s|
    requires forall k :: 0 <= k < i ==> !IsWs(s[k])
    ensures RemoveWs(s[..i]) == s[..i]
  {
    var a := s[..i];
    assert WsFree(a) by {
      forall k | 0 <= k < |a| ensures !IsWs(a[k]) { assert a[k] == s[k]; }
    }
    RemoveWsOfWsFree(a);
  }

  lemma RemoveWsOfRunSlice(s: string, i: nat, j: nat)
    requires i <= j <= |s|
    requires forall k :: i <= k < j ==> IsWs(s[k])
    ensures RemoveWs(s[i..j]) == []
  {
    var w := s[i..j];
    assert forall k :: 0 <= k < |w| ==> IsWs(w[k]) by {
      forall k | 0 <= k < |w| ensures IsWs(w[k]) { assert w[k] == s[i + k]; }
    }
    RemoveWsOfWsRun(w);
  }

  /** Drops the empty strings at the end of a list, as `split` does with limit 0. */
  function DropTrailingEmpty(r: seq<string>): seq<string>
    decreases |r|
  {
    if |r| > 0 && r[|r| - 1] == [] then DropTrailingEmpty(r[..|r| - 1]) else r
  }

  lemma {:induction false} DropTrailingEmptyShape(r: seq<string>)
    ensures |DropTrailingEmpty(r)| <= |r| && DropTrailingEmpty(r) == r[..|DropTrailingEmpty(r)|]
    ensures forall k :: |DropTrailingEmpty(r)| <= k < |r| ==> r[k] == []
    ensures |DropTrailingEmpty(r)| > 0 ==> DropTrailingEmpty(r)[|DropTrailingEmpty(r)| - 1] != []
    ensures Concat(DropTrailingEmpty(r)) == Concat(r)
    decreases |r|
  {
    if |r| > 0 && r[|r| - 1] == [] {
      var init := r[..|r| - 1];
      DropTrailingEmptyShape(init);
      ConcatSnoc(init, []);
      assert init + [[]] == r;
      assert init[..|DropTrailingEmpty(init)|] == r[..|DropTrailingEmpty(init)|];
    }
  }

  /** `s.split("\\s+")`. When the pattern does not match at all the result is
      `[s]` as it stands (so `""` gives `[""]`); otherwise the segments around
      the matches, with trailing empty segments removed. */
  function Split(s: string): seq<string> {
    if FindWs(s, 0) == |s| then [s] else DropTrailingEmpty(Pieces(s))
  }

  /** What `split` promises: tokens without whitespace, none empty except
      possibly the first, nothing but whitespace lost, the input itself when
      it holds no whitespace, and no empty token at the end of a non-empty
      input. */
  lemma SplitShape(s: string)
    ensures forall k :: 0 <= k < |Split(s)| ==> WsFree(Split(s)[k])
    ensures forall k :: 0 < k < |Split(s)| ==> Split(s)[k] != []
    ensures Concat(Split(s)) == RemoveWs(s)
    ensures WsFree(s) ==> Split(s) == [s]
    ensures s != [] && |Split(s)| > 0 ==> Split(s)[|Split(s)| - 1] != []
  {
    var i := FindWs(s, 0);
    if i == |s| {
      assert Split(s) == [s];
      RemoveWsOfWsFree(s);
      assert Concat([s]) == s + Concat([]);
    } else {
      SplitAtWs(s, i);
      assert !WsFree(s);
      PiecesShape(s);
      DropPieces(Pieces(s));
    }
  }

  /** Dropping the trailing empty strings from a list of segments shaped like
      `Pieces` leaves no empty string after the first one. */
  lemma DropPieces(r: seq<string>)
    requires |r| >= 1
    requires forall k :: 0 <= k < |r| ==> WsFree(r[k])
    requires forall k :: 0 < k < |r| - 1 ==> r[k] != []
    ensures forall k :: 0 <= k < |DropTrailingEmpty(r)| ==> WsFree(DropTrailingEmpty(r)[k])
    ensures forall k :: 0 < k < |DropTrailingEmpty(r)| ==> DropTrailingEmpty(r)[k] != []
    ensures Concat(DropTrailingEmpty(r)) == Concat(r)
    ensures |DropTrailingEmpty(r)| > 0 ==> DropTrailingEmpty(r)[|DropTrailingEmpty(r)| - 1] != []
  {
    DropTrailingEmptyShape(r);
    var d := DropTrailingEmpty(r);
    assert forall k :: 0 <= k < |d| ==> d[k] == r[k];
  }

  /** `String.join(" ", ts)`. */
  function JoinSpaced(ts: seq<string>): string
    decreases |ts|
  {
    if |ts| == 0 then []
    else if |ts| == 1 then ts[0]
    else ts[0] + " " + JoinSpaced(ts[1..])
  }

  lemma {:induction false} JoinSpacedSnoc(ts: seq<string>, t: string)
    requires |ts| > 0
    ensures JoinSpaced(ts + [t]) == JoinSpaced(ts) + " " + t
    decreases |ts|
  {
    if |ts| > 1 {
      assert (ts + [t])[1..] == ts[1..] + [t];
      JoinSpacedSnoc(ts[1..], t);
    }
  }

  lemma JoinSpacedFirst(ts: seq<string>)
    requires |ts| > 0 && ts[0] != []
    ensures |JoinSpaced(ts)| > 0 && JoinSpaced(ts)[0] == ts[0][0]
  {
  }

  lemma {:induction false} JoinSpacedLast(ts: seq<string>)
    requires |ts| > 0 && ts[|ts| - 1] != []
    ensures |JoinSpaced(ts)| > 0
    ensures JoinSpaced(ts)[|JoinSpaced(ts)| - 1] == ts[|ts| - 1][|ts[|ts| - 1]| - 1]
    decreases |ts|
  {
    if |ts| > 1 {
      JoinSpacedLast(ts[1..]);
    }
  }

  /** In a joined list of at least two tokens the first match of `\s+` is the
      single space after the first token. */
  lemma JoinSpacedHead(ts: seq<string>)
    requires |ts| >= 2 && WsFree(ts[0]) && WsFree(ts[1]) && ts[1] != []
    ensures FindWs(JoinSpaced(ts), 0) == |ts[0]|
    ensures SkipWs(JoinSpaced(ts), |ts[0]|) == |ts[0]| + 1
    ensures JoinSpaced(ts)[..|ts[0]|] == ts[0]
    ensures JoinSpaced(ts)[|ts[0]| + 1..] == JoinSpaced(ts[1..])
  {
    var s := JoinSpaced(ts);
    var rest := JoinSpaced(ts[1..]);
    var i := |ts[0]|;
    assert s == ts[0] + " " + rest;
    assert s[i] == ' ';
    assert forall k :: 0 <= k < i ==> s[k] == ts[0][k];
    JoinSpacedFirst(ts[1..]);
    assert s[i + 1] == rest[0] == ts[1][0];
  }

  /** Splitting is the inverse of joining with single spaces, for tokens that
      hold no whitespace and (after the first) are non-empty. */
  lemma {:induction false} PiecesOfJoin(ts: seq<string>)
    requires |ts| >= 1
    requires forall k :: 0 <= k < |ts| ==> WsFree(ts[k])
    requires forall k :: 0 < k < |ts| ==> ts[k] != []
    ensures Pieces(JoinSpaced(ts)) == ts
    decreases |ts|
  {
    var s := JoinSpaced(ts);
    if |ts| == 1 {
      assert FindWs(s, 0) == |s|;
    } else {
      JoinSpacedHead(ts);
      var tail := ts[1..];
      assert forall k :: 0 <= k < |tail| ==> WsFree(tail[k]);
      assert forall k :: 0 < k < |tail| ==> tail[k] != [];
      PiecesOfJoin(tail);
      assert ts == [ts[0]] + tail;
    }
  }

  lemma {:induction false} SplitOfJoin(ts: seq<string>)
    requires |ts| >= 1
    requires forall k :: 0 <= k < |ts| ==> WsFree(ts[k])
    requires forall k :: 0 < k < |ts| ==> ts[k] != []
    ensures Split(JoinSpaced(ts)) == ts
  {
    var s := JoinSpaced(ts);
    if |ts| == 1 {
      assert Split(s) == [s];
    } else {
      assert s == ts[0] + " " + JoinSpaced(ts[1..]);
      assert s[|ts[0]|] == ' ';
      assert FindWs(s, 0) < |s|;
      PiecesOfJoin(ts);
    }
  }

  /** A string of `\s` characters only. */
  predicate IsWsRun(w: string) {
    forall k :: 0 <= k < |w| ==> IsWs(w[k])
  }

  /** `ts[0] + seps[0] + ts[1] + ... + ts[|ts| - 1]`. */
  function JoinWith(ts: seq<string>, seps: seq<string>): string
    requires |ts| >= 1 && |seps| == |ts| - 1
    decreases |ts|
  {
    if |ts| == 1 then ts[0] else ts[0] + seps[0] + JoinWith(ts[1..], seps[1..])
  }

  /** In `a + w + b` the first match of `\s+` is exactly `w`, when `a` holds no
      whitespace, `w` is a non-empty run and `b` does not open with whitespace. */
  lemma BreakAt(a: string, w: string, b: string)
    requires WsFree(a) && |w| > 0 && IsWsRun(w) && (b == [] || !IsWs(b[0]))
    ensures FindWs(a + w + b, 0) == |a|
    ensures SkipWs(a + w + b, |a|) == |a| + |w|
    ensures (a + w + b)[..|a|] == a && (a + w + b)[|a| + |w|..] == b
  {
    var s := a + w + b;
    assert forall k :: 0 <= k < |a| ==> s[k] == a[k];
    assert forall k :: |a| <= k < |a| + |w| ==> s[k] == w[k - |a|];
    assert s[|a|] == w[0];
    if b != [] {
      assert s[|a| + |w|] == b[0];
    }
  }

  /** One step of `Pieces` over `a + w + b`: the piece `a`, then the pieces of `b`. */
  lemma PiecesStep(a: string, w: string, b: string)
    requires WsFree(a) && |w| > 0 && IsWsRun(w) && (b == [] || !IsWs(b[0]))
    ensures Pieces(a + w + b) == [a] + Pieces(b)
  {
    BreakAt(a, w, b);
  }

  lemma PiecesOfWsFree(s: string)
    requires WsFree(s)
    ensures Pieces(s) == [s]
  {
    assert FindWs(s, 0) == |s|;
  }

  /** `DropTrailingEmpty` keeps a list whose last string is non-empty, and
      drops one empty string appended to it. */
  lemma DropTrailingEmptyOfNonEmptyLast(ts: seq<string>)
    requires |ts| > 0 && ts[|ts| - 1] != []
    ensures DropTrailingEmpty(ts) == ts && DropTrailingEmpty(ts + [[]]) == ts
  {
    assert (ts + [[]])[..|ts|] == ts;
  }

  lemma JoinWithFirst(ts: seq<string>, seps: seq<string>)
    requires |ts| >= 1 && |seps| == |ts| - 1 && ts[0] != []
    ensures |JoinWith(ts, seps)| > 0 && JoinWith(ts, seps)[0] == ts[0][0]
  {
    if |ts| > 1 {
      assert JoinWith(ts, seps) == ts[0] + (seps[0] + JoinWith(ts[1..], seps[1..]));
    }
  }

  /** The conditions `JoinWith` is taken under: whitespace-free tokens, all
      but the first non-empty, separated by non-empty whitespace runs. */
  predicate Separated(ts: seq<string>, seps: seq<string>) {
    && |ts| >= 1 && |seps| == |ts| - 1
    && (forall k :: 0 <= k < |ts| ==> WsFree(ts[k]))
    && (forall k :: 0 < k < |ts| ==> ts[k] != [])
    && (forall k :: 0 <= k < |seps| ==> |seps[k]| > 0 && IsWsRun(seps[k]))
  }

  lemma SeparatedTail(ts: seq<string>, seps: seq<string>)
    requires Separated(ts, seps) && |ts| > 1
    ensures Separated(ts[1..], seps[1..])
    ensures WsFree(ts[0]) && ts[1] != [] && WsFree(ts[1]) && |seps[0]| > 0 && IsWsRun(seps[0])
  {
    var ts', seps' := ts[1..], seps[1..];
    assert forall k :: 0 <= k < |ts'| ==> ts'[k] == ts[k + 1];
    assert forall k :: 0 <= k < |seps'| ==> seps'[k] == seps[k + 1];
  }

  lemma {:induction false} PiecesOfJoinWith(ts: seq<string>, seps: seq<string>, tail: string)
    requires Separated(ts, seps) && IsWsRun(tail)
    ensures tail == [] ==> Pieces(JoinWith(ts, seps) + tail) == ts
    ensures tail != [] ==> Pieces(JoinWith(ts, seps) + tail) == ts + [[]]
    decreases |ts|
  {
    if |ts| == 1 {
      assert JoinWith(ts, seps) + tail == ts[0] + tail;
      PiecesOfTokenThenRun(ts[0], tail);
      assert [ts[0]] == ts;
    } else {
      var ts', seps' := ts[1..], seps[1..];
      SeparatedTail(ts, seps);
      PiecesOfJoinWithStep(ts, seps, tail);
      PiecesOfJoinWith(ts', seps', tail);
      if tail == [] {
        assert [ts[0]] + ts' == ts;
      } else {
        assert [ts[0]] + (ts' + [[]]) == ts + [[]];
      }
    }
  }

  lemma PiecesOfJoinWithStep(ts: seq<string>, seps: seq<string>, tail: string)
    requires |ts| > 1 && |seps| == |ts| - 1
    requires WsFree(ts[0]) && ts[1] != [] && WsFree(ts[1])
    requires |seps[0]| > 0 && IsWsRun(seps[0])
    ensures Pieces(JoinWith(ts, seps) + tail) == [ts[0]] + Pieces(JoinWith(ts[1..], seps[1..]) + tail)
  {
    var rest := JoinWith(ts[1..], seps[1..]) + tail;
    JoinWithCons(ts, seps, tail);
    JoinWithFirst(ts[1..], seps[1..]);
    assert rest[0] == ts[1][0];
    PiecesStep(ts[0], seps[0], rest);
  }

  lemma PiecesOfTokenThenRun(t: string, tail: string)
    requires WsFree(t) && IsWsRun(tail)
    ensures Pieces(t + tail) == if tail == [] then [t] else [t, []]
  {
    if tail == [] {
      assert t + tail == t;
      PiecesOfWsFree(t);
    } else {
      assert t + tail == t + tail + [];
      PiecesStep(t, tail, []);
      PiecesOfWsFree([]);
    }
  }

  lemma JoinWithCons(ts: seq<string>, seps: seq<string>, tail: string)
    requires |ts| > 1 && |seps| == |ts| - 1
    ensures JoinWith(ts, seps) + tail == ts[0] + seps[0] + (JoinWith(ts[1..], seps[1..]) + tail)
  {
  }

  /** `split("\\s+")` breaks exactly at the whitespace runs: tokens separated by
      any non-empty runs, followed by an optional run, come back as they were.
      An empty first token stands for a leading run. */
  lemma SplitOfJoinWith(ts: seq<string>, seps: seq<string>, tail: string)
    requires Separated(ts, seps)
    requires IsWsRun(tail) && (tail != [] ==> ts[|ts| - 1] != [])
    ensures Split(JoinWith(ts, seps) + tail) == ts
  {
    var s := JoinWith(ts, seps) + tail;
    if |ts| == 1 && tail == [] {
      assert s == ts[0];
      assert FindWs(s, 0) == |s|;
    } else {
      SplitAtWs(s, |ts[0]|) by {
        JoinWithBreak(ts, seps, tail);
      }
      PiecesOfJoinWith(ts, seps, tail);
      DropTrailingEmptyOfNonEmptyLast(ts);
    }
  }

  /** Where there are two tokens or a trailing run, the character right after
      the first token is whitespace. */
  lemma JoinWithBreak(ts: seq<string>, seps: seq<string>, tail: string)
    requires |ts| >= 1 && |seps| == |ts| - 1
    requires |ts| > 1 ==> |seps[0]| > 0 && IsWsRun(seps[0])
    requires IsWsRun(tail) && (|ts| > 1 || tail != [])
    ensures |ts[0]| < |JoinWith(ts, seps) + tail| && IsWs((JoinWith(ts, seps) + tail)[|ts[0]|])
  {
    var s := JoinWith(ts, seps) + tail;
    if |ts| == 1 {
      assert s == ts[0] + tail;
      assert s[|ts[0]|] == tail[0];
    } else {
      assert s == ts[0] + (seps[0] + (JoinWith(ts[1..], seps[1..]) + tail));
      assert s[|ts[0]|] == seps[0][0];
    }
  }

  /** A line with some whitespace in it splits into its pieces, trailing empty
      ones dropped. */
  lemma SplitAtWs(s: string, i: nat)
    requires i < |s| && IsWs(s[i])
    ensures Split(s) == DropTrailingEmpty(Pieces(s))
  {
    assert FindWs(s, 0) <= i;
  }

  /** A line that opens with whitespace but is not all whitespace splits with an
      empty first token. */
  lemma SplitLeadingRun(s: string)
    requires |s| > 0 && IsWs(s[0])
    requires exists k :: 0 <= k < |s| && !IsWs(s[k])
    ensures |Split(s)| > 1 && Split(s)[0] == []
  {
    var j := SkipWs(s, 0);
    assert j < |s|;
    PiecesShape(s[j..]);
    assert Pieces(s) == [[]] + Pieces(s[j..]);
    DropTrailingEmptyShape(Pieces(s));
    assert Pieces(s)[1] != [];
  }

  /** A line of whitespace only splits into no token at all. */
  lemma SplitAllWs(s: string)
    requires |s| > 0 && IsWsRun(s)
    ensures Split(s) == []
  {
    assert [] + s + [] == s;
    PiecesStep([], s, []);
    PiecesOfWsFree([]);
    var e: seq<string> := [[], []];
    assert Pieces(s) == e;
    assert e[..1] == [[]] && e[..1][..0] == [];
    assert DropTrailingEmpty(e[..1]) == [];
    SplitAtWs(s, 0);
  }

  /** Tabs and repeated spaces break like single spaces, a trailing run adds
      nothing, a leading run gives an empty first token, and blanks alone give
      no token at all. */
  lemma SplitCases()
    ensures Split("a\t\tb  c ") == ["a", "b", "c"]
    ensures Split(" a b") == ["", "a", "b"]
    ensures Split("   ") == []
  {
    assert JoinWith(["a", "b", "c"], ["\t\t", "  "]) + " " == "a\t\tb  c ";
    SplitOfJoinWith(["a", "b", "c"], ["\t\t", "  "], " ");
    assert JoinWith(["", "a", "b"], [" ", " "]) + "" == " a b";
    SplitOfJoinWith(["", "a", "b"], [" ", " "], "");
    SplitAllWs("   ");
  }

  /** The leading part of `trim()`: drops every character up to U+0020 at the front. */
  function TrimStart(s: string): string
    decreases |s|
  {
    if |s| > 0 && IsBlank(s[0]) then TrimStart(s[1..]) else s
  }

  /** `TrimStart` keeps a suffix that does not open with a blank, and drops only blanks. */
  lemma {:induction false} TrimStartShape(s: string)
    ensures |TrimStart(s)| <= |s| && TrimStart(s) == s[|s| - |TrimStart(s)|..]
    ensures TrimStart(s) == [] || !IsBlank(TrimStart(s)[0])
    ensures forall k :: 0 <= k < |s| - |TrimStart(s)| ==> IsBlank(s[k])
    decreases |s|
  {
    if |s| > 0 && IsBlank(s[0]) {
      TrimStartShape(s[1..]);
    }
  }

  /** The trailing part of `trim()`: drops every character up to U+0020 at the end. */
  function TrimEnd(s: string): string
    decreases |s|
  {
    if |s| > 0 && IsBlank(s[|s| - 1]) then TrimEnd(s[..|s| - 1]) else s
  }

  /** `TrimEnd` keeps a prefix that does not close with a blank, and drops only blanks. */
  lemma {:induction false} TrimEndShape(s: string)
    ensures |TrimEnd(s)| <= |s| && TrimEnd(s) == s[..|TrimEnd(s)|]
    ensures TrimEnd(s) == [] || !IsBlank(TrimEnd(s)[|TrimEnd(s)| - 1])
    ensures forall k :: |TrimEnd(s)| <= k < |s| ==> IsBlank(s[k])
    decreases |s|
  {
    if |s| > 0 && IsBlank(s[|s| - 1]) {
      TrimEndShape(s[..|s| - 1]);
    }
  }

  /** `s.trim()`. */
  function Trim(s: string): (r: string)
    ensures r == [] || (!IsBlank(r[0]) && !IsBlank(r[|r| - 1]))
  {
    TrimStartShape(s);
    TrimEndShape(TrimStart(s));
    TrimEnd(TrimStart(s))
  }

  lemma {:induction false} TrimStartAppend(s: string, t: string)
    ensures TrimStart(s + t) == if TrimStart(s) == [] then TrimStart(t) else TrimStart(s) + t
    decreases |s|
  {
    if |s| > 0 && IsBlank(s[0]) {
      assert (s + t)[1..] == s[1..] + t;
      TrimStartAppend(s[1..], t);
    } else if |s| == 0 {
      assert s + t == t;
    }
  }

  /** A trailing space never survives `trim()`: the space the extractor appends
      after the last name token makes no difference. */
  lemma TrimTrailingSpace(s: string)
    ensures Trim(s + " ") == Trim(s)
  {
    TrimStartAppend(s, " ");
    if TrimStart(s) != [] {
      var x := TrimStart(s);
      assert (x + " ")[..|x|] == x;
    }
  }

  /** `trim()` leaves alone a string whose ends are not blank. */
  lemma TrimOfTrimmed(s: string)
    requires s == [] || (!IsBlank(s[0]) && !IsBlank(s[|s| - 1]))
    ensures Trim(s) == s
  {
  }
}
