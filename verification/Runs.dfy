/** Run-length decompositions of lines of modules, and what the penalty rules count on them. */
module Runs {
  import opened BitStream

  /** A row or column of modules, dark being true. */
  type Line = Bits

  const PENALTY_N1 := 3
  const PENALTY_N2 := 3
  const PENALTY_N3 := 40
  const PENALTY_N4 := 10

  function Solid(colour: bool, n: nat): (s: Line)
    ensures |s| == n && forall k | 0 <= k < n :: s[k] == colour
  {
    seq(n, _ => colour)
  }

  /** The lengths of the maximal runs of equal modules. */
  function Groups(s: Line): (r: seq<nat>)
    ensures |r| <= |s| && (s != [] ==> r != [])
    ensures forall i | 0 <= i < |r| :: r[i] > 0
  {
    if s == [] then []
    else
      var k := |s| - 1;
      var r := Groups(s[..k]);
      if k > 0 && s[k] == s[k - 1] then r[|r| - 1 := r[|r| - 1] + 1] else r + [1]
  }

  lemma GroupsNext(s: Line, c: bool)
    ensures s != [] && c == s[|s| - 1] ==>
              Groups(s + [c]) == Groups(s)[|Groups(s)| - 1 := Groups(s)[|Groups(s)| - 1] + 1]
    ensures s == [] || c != s[|s| - 1] ==> Groups(s + [c]) == Groups(s) + [1]
  {
    assert (s + [c])[..|s|] == s;
  }

  // ----- Groups are the run-length decomposition

  /** The line with these run lengths, in alternating colours from the given one. */
  function Expand(colour: bool, r: seq<nat>): Line {
    if r == [] then [] else Expand(colour, r[..|r| - 1]) + Solid(RunColour(colour, |r| - 1), r[|r| - 1])
  }

  /** The colour of the i-th run when the first one has the given colour. */
  predicate RunColour(colour: bool, i: nat) {
    if i % 2 == 0 then colour else !colour
  }

  lemma {:induction false} LastRun(colour: bool, r: seq<nat>)
    requires r != [] && forall i | 0 <= i < |r| :: r[i] > 0
    ensures var s := Expand(colour, r);
            && s != [] && s[|s| - 1] == RunColour(colour, |r| - 1) && s[0] == colour
  {
    if |r| > 1 { LastRun(colour, r[..|r| - 1]); }
  }

  lemma GroupsSingle(c: bool)
    ensures Groups([c]) == [1] && Expand(c, [1]) == [c]
  {
    assert [c][..0] == [];
    assert Expand(c, [1]) == Expand(c, [1][..0]) + Solid(c, 1);
  }

  lemma ColoursAlternate(colour: bool, i: nat)
    ensures RunColour(colour, i + 1) == !RunColour(colour, i)
  {
  }

  /** Expanding the groups of a line gives the line. */
  lemma {:induction false} GroupsExpand(s: Line)
    requires s != []
    ensures Expand(s[0], Groups(s)) == s
  {
    hide Expand, Groups, Solid, RunColour;
    var k := |s| - 1;
    if k == 0 {
      assert s == [s[0]];
      GroupsSingle(s[0]);
    } else {
      var p, c := s[..k], s[k];
      var r := Groups(p);
      assert s == p + [c];
      GroupsExpand(p);
      LastRun(p[0], r);
      GroupsNext(p, c);
      if c == p[k - 1] {
        ExpandLonger(p[0], r);
      } else {
        ExpandMore(p[0], r);
        ColoursAlternate(p[0], |r| - 1);
      }
    }
  }

  lemma ExpandLonger(colour: bool, r: seq<nat>)
    requires r != []
    ensures Expand(colour, r[|r| - 1 := r[|r| - 1] + 1]) == Expand(colour, r) + [RunColour(colour, |r| - 1)]
  {
    var m := |r| - 1;
    var q := r[m := r[m] + 1];
    assert q[..m] == r[..m];
    assert Solid(RunColour(colour, m), q[m]) == Solid(RunColour(colour, m), r[m]) + [RunColour(colour, m)];
  }

  lemma ExpandMore(colour: bool, r: seq<nat>)
    ensures Expand(colour, r + [1]) == Expand(colour, r) + [RunColour(colour, |r|)]
  {
    assert (r + [1])[..|r|] == r;
    assert Solid(RunColour(colour, |r|), 1) == [RunColour(colour, |r|)];
  }

  /** No other positive run lengths expand to the same line. */
  lemma {:induction false} GroupsUnique(colour: bool, r: seq<nat>)
    requires forall i | 0 <= i < |r| :: r[i] > 0
    ensures Groups(Expand(colour, r)) == r
    decreases Sum(r)
  {
    hide Groups, Expand, Sum;
    if r == [] {
      EmptyRuns(colour);
    } else {
      var m := |r| - 1;
      var q := if r[m] > 1 then r[m := r[m] - 1] else r[..m];
      SumSmaller(r, q);
      GroupsUnique(colour, q);
      if r[m] > 1 {
        assert q[m := q[m] + 1] == r;
        LastRun(colour, q);
        ExpandLonger(colour, q);
      } else {
        assert r == q + [1];
        if q != [] { LastRun(colour, q); } else { EmptyRuns(colour); }
        ExpandMore(colour, q);
      }
      GroupsNext(Expand(colour, q), RunColour(colour, m));
    }
  }

  lemma EmptyRuns(colour: bool)
    ensures Expand(colour, []) == [] && Groups([]) == []
  {
  }

  function Sum(r: seq<nat>): nat {
    if r == [] then 0 else Sum(r[..|r| - 1]) + r[|r| - 1]
  }

  lemma SumSmaller(r: seq<nat>, q: seq<nat>)
    requires r != [] && r[|r| - 1] > 0
    requires q == r[..|r| - 1] || q == r[|r| - 1 := r[|r| - 1] - 1]
    ensures Sum(q) < Sum(r)
  {
    if q != r[..|r| - 1] { assert q[..|q| - 1] == r[..|r| - 1]; }
  }

  /** The runs add up to the line. */
  lemma {:induction false} GroupsSum(s: Line)
    ensures Sum(Groups(s)) == |s|
  {
    if s != [] {
      var k := |s| - 1;
      var r := Groups(s[..k]);
      GroupsSum(s[..k]);
      if k > 0 && s[k] == s[k - 1] {
        assert r[|r| - 1 := r[|r| - 1] + 1][..|r| - 1] == r[..|r| - 1];
      } else {
        assert (r + [1])[..|r|] == r;
      }
    }
  }

  lemma {:induction false} PartBelowSum(r: seq<nat>, i: nat)
    requires i < |r|
    ensures r[i] <= Sum(r)
  {
    if i < |r| - 1 { PartBelowSum(r[..|r| - 1], i); }
  }

  // ----- Long runs

  function LongRun(length: nat): nat {
    if length >= 5 then length - 2 else 0
  }

  function LongRuns(r: seq<nat>): nat {
    if r == [] then 0 else LongRuns(r[..|r| - 1]) + LongRun(r[|r| - 1])
  }

  lemma {:induction false} LongRunsBounded(r: seq<nat>)
    ensures LongRuns(r) <= Sum(r)
  {
    if r != [] { LongRunsBounded(r[..|r| - 1]); }
  }

  // ----- Finder patterns

  /** Dark, light, dark, light, dark in the proportions 1:1:3:1:1 around run c. */
  predicate Core(r: seq<nat>, c: nat, n: nat)
    requires 2 <= c && c + 2 < |r|
  {
    n > 0 && r[c - 2] == n && r[c - 1] == n && r[c] == 3 * n && r[c + 1] == n && r[c + 2] == n
  }

  /**
   The patterns centred on run c of a line whose runs of even index are light: one for each side on
   which the light run next to the core has four units while the other has at least one.
   */
  function PatternsAround(r: seq<nat>, c: nat): nat
    requires 3 <= c && c + 3 < |r|
  {
    var n := r[c + 2];
    if c % 2 == 0 || !Core(r, c, n) then 0
    else (if r[c - 3] >= 4 * n && r[c + 3] >= n then 1 else 0) + (if r[c + 3] >= 4 * n && r[c - 3] >= n then 1 else 0)
  }

  /** The patterns that a scan has met when it has seen the given runs: those with a run on each side of the core. */
  function Patterns(r: seq<nat>): nat {
    if |r| < 7 then 0 else Patterns(r[..|r| - 1]) + PatternsAround(r, |r| - 4)
  }

  /** The sum over all centres from 3 to before `end`. */
  function PatternsCentred(r: seq<nat>, end: nat): nat
    requires end <= 3 || end + 3 <= |r|
  {
    if end <= 3 then 0 else PatternsCentred(r, end - 1) + PatternsAround(r, end - 1)
  }

  lemma {:induction false} CentredPrefix(r: seq<nat>, k: nat, end: nat)
    requires k <= |r| && (end <= 3 || end + 3 <= k)
    ensures PatternsCentred(r[..k], end) == PatternsCentred(r, end)
  {
    if end > 3 { CentredPrefix(r, k, end - 1); }
  }

  /** The scan misses none: its count is the sum over every run that has three neighbours on both sides. */
  lemma {:induction false} PatternsAreCentred(r: seq<nat>)
    ensures Patterns(r) == if |r| < 7 then 0 else PatternsCentred(r, |r| - 3)
  {
    hide PatternsAround;
    if |r| >= 7 {
      var k := |r| - 1;
      PatternsAreCentred(r[..k]);
      if k >= 7 { CentredPrefix(r, k, k - 3); }
      LastCentre(r);
    }
  }

  lemma LastCentre(r: seq<nat>)
    requires |r| >= 7
    ensures var k := |r| - 4; PatternsAround(r, k) + PatternsCentred(r, k) == PatternsCentred(r, k + 1)
    ensures |r| == 7 ==> PatternsCentred(r, 3) == 0
  {
    hide PatternsAround;
  }

  lemma {:induction false} PatternsBounded(r: seq<nat>)
    ensures Patterns(r) <= 2 * |r|
  {
    if |r| >= 7 { PatternsBounded(r[..|r| - 1]); }
  }

  /** The line between light borders as wide as itself. */
  function Bordered(line: Line): Line {
    Zeros(|line|) + line + Zeros(|line|)
  }

  /** The penalty of a row or column: long runs, and forty for each finder-like pattern. */
  function LinePenalty(line: Line): nat {
    LongRuns(Groups(line)) + PENALTY_N3 * Patterns(Groups(Bordered(line)))
  }

  lemma LinePenaltyBounded(line: Line)
    ensures LinePenalty(line) <= 241 * |line|
  {
    hide LongRuns, Patterns, Groups;
    GroupsSum(line);
    LongRunsBounded(Groups(line));
    PatternsBounded(Groups(Bordered(line)));
  }
}
