/** What the penalty of a line counts, said of its modules instead of its runs. */
module Lines {
  import opened Runs

  // ----- Where runs lie

  predicate AllPositive(r: seq<nat>) {
    forall i | 0 <= i < |r| :: r[i] > 0
  }

  /** The n modules from i on lie in the line and have the colour. */
  predicate SolidAt(s: Line, i: int, n: nat, colour: bool) {
    0 <= i && i + n <= |s| && forall k | i <= k < i + n :: s[k] == colour
  }

  /** Where run j begins. */
  function Position(r: seq<nat>, j: nat): nat
    requires j <= |r|
  {
    Sum(r[..j])
  }

  lemma PositionNext(r: seq<nat>, j: nat)
    requires j < |r|
    ensures Position(r, j + 1) == Position(r, j) + r[j] && Position(r, 0) == 0
  {
    assert r[..j + 1][..j] == r[..j];
  }

  lemma {:induction false} ExpandLength(colour: bool, r: seq<nat>)
    ensures |Expand(colour, r)| == Sum(r)
  {
    if r != [] { ExpandLength(colour, r[..|r| - 1]); }
  }

  /** Run j fills the places from its position up to the next one. */
  lemma {:induction false} RunFills(r: seq<nat>, j: nat)
    requires j < |r|
    ensures SolidAt(Expand(false, r), Position(r, j), r[j], RunColour(false, j))
    decreases |r|
  {
    hide RunColour, Sum;
    var m := |r| - 1;
    var t := Expand(false, r[..m]);
    ExpandLength(false, r[..m]);
    if j == m {
      assert Position(r, m) == |t|;
    } else {
      RunFills(r[..m], j);
      assert r[..m][..j] == r[..j];
      assert Expand(false, r)[..|t|] == t;
      SolidInPrefix(Expand(false, r), |t|, Position(r, j), r[j], RunColour(false, j));
    }
  }

  lemma SolidInPrefix(s: Line, e: nat, i: int, n: nat, colour: bool)
    requires e <= |s|
    ensures SolidAt(s[..e], i, n, colour) <==> SolidAt(s, i, n, colour) && i + n <= e
  {
    if SolidAt(s[..e], i, n, colour) {
      forall k | i <= k < i + n ensures s[k] == colour { assert s[..e][k] == colour; }
    }
  }

  /** A run from a to e that is maximal to the left: what ends at e with another colour before it is the run. */
  lemma WholeRun(s: Line, a: nat, e: nat, colour: bool, n: nat)
    requires a < e && SolidAt(s, a, e - a, colour) && (a > 0 ==> s[a - 1] != colour) && n > 0
    ensures SolidAt(s, e - n, n, colour) <==> n <= e - a
    ensures SolidAt(s, e - n, n, colour) && e - n > 0 && s[e - n - 1] != colour <==> a > 0 && n == e - a
  {
    if n > e - a && a > 0 { assert s[a - 1] != colour; }
    if n < e - a { assert s[e - n - 1] == colour; }
  }

  /** The n modules up to e have the colour, and the one before them has not. */
  predicate EndsExactly(s: Line, e: int, n: nat, colour: bool) {
    SolidAt(s, e - n, n, colour) && e - n > 0 && s[e - n - 1] != colour
  }

  lemma RunEnds(r: seq<nat>, j: nat, n: nat, colour: bool)
    requires AllPositive(r) && j < |r| && n > 0 && colour == RunColour(false, j)
    ensures SolidAt(Expand(false, r), Position(r, j + 1) - n, n, colour) <==> n <= r[j]
    ensures EndsExactly(Expand(false, r), Position(r, j + 1), n, colour) <==> j > 0 && n == r[j]
    ensures Position(r, j) == Position(r, j + 1) - r[j]
  {
    hide Expand, Sum, Position;
    PositionNext(r, j);
    RunFills(r, j);
    if j > 0 {
      PositionNext(r, j - 1);
      RunFills(r, j - 1);
      ColoursAlternate(false, j - 1);
      PositionRises(r, j);
    } else {
      PositionNext(r, 0);
    }
    WholeRun(Expand(false, r), Position(r, j), Position(r, j + 1), colour, n);
  }

  lemma {:induction false} PositionRises(r: seq<nat>, j: nat)
    requires AllPositive(r) && 0 < j <= |r|
    ensures Position(r, j) > 0
  {
    hide Sum, Position;
    PositionNext(r, j - 1);
  }

  // ----- Finder patterns

  /** From p on: n dark, n light, 3n dark, n light, n dark; with light modules before and after. */
  predicate FinderAt(s: Line, p: int, n: nat, before: nat, after: nat) {
    && CoreAt(s, p, n) && SolidAt(s, p - before, before, false) && SolidAt(s, p + 7 * n, after, false)
  }

  predicate CoreAt(s: Line, p: int, n: nat) {
    && n > 0
    && SolidAt(s, p, n, true) && SolidAt(s, p + n, n, false) && SolidAt(s, p + 2 * n, 3 * n, true)
    && SolidAt(s, p + 5 * n, n, false) && SolidAt(s, p + 6 * n, n, true)
  }

  /** Such a core after `before` light modules, ending at e. */
  predicate CoreUpTo(s: Line, e: int, n: nat, before: nat) {
    CoreAt(s, e - 7 * n, n) && SolidAt(s, e - 7 * n - before, before, false)
  }

  /** In a core every part begins where the colour changes. */
  lemma CoreParts(s: Line, e: int, n: nat, before: nat)
    requires n > 0 && before > 0
    ensures CoreUpTo(s, e, n, before) <==>
            && EndsExactly(s, e, n, true) && EndsExactly(s, e - n, n, false) && EndsExactly(s, e - 2 * n, 3 * n, true)
            && EndsExactly(s, e - 5 * n, n, false) && EndsExactly(s, e - 6 * n, n, true)
            && SolidAt(s, e - 7 * n - before, before, false)
  {
  }

  /** The last of the first m runs, which is dark, ends a core exactly if the runs before it have the proportions. */
  lemma CoreRuns(r: seq<nat>, m: nat, n: nat, before: nat)
    requires AllPositive(r) && 0 < m <= |r| && m % 2 == 0 && n > 0 && before > 0
    ensures CoreUpTo(Expand(false, r), Position(r, m), n, before) <==>
            && m >= 6 && r[m - 1] == n && r[m - 2] == n && r[m - 3] == 3 * n && r[m - 4] == n && r[m - 5] == n
            && r[m - 6] >= before
  {
    hide Expand, Sum, Position, CoreUpTo, EndsExactly, SolidAt, AllPositive;
    CoreParts(Expand(false, r), Position(r, m), n, before);
    RunEnds(r, m - 1, n, true);
    if m > 1 && r[m - 1] == n {
      RunEnds(r, m - 2, n, false);
      if m > 2 && r[m - 2] == n {
        RunEnds(r, m - 3, 3 * n, true);
        if m > 3 && r[m - 3] == 3 * n {
          RunEnds(r, m - 4, n, false);
          if m > 4 && r[m - 4] == n {
            RunEnds(r, m - 5, n, true);
            if m > 5 && r[m - 5] == n { RunEnds(r, m - 6, before, false); }
          }
        }
      }
    }
  }

  // ----- Counting the finder patterns

  datatype Place = Place(p: int, n: nat)

  /** The finder patterns with four units of light on the left and one on the right, or the other way round. */
  ghost function Finders(s: Line, leftWide: bool): set<Place> {
    set p: int, n: nat |
      0 <= p <= |s| && n <= |s| && FinderAt(s, p, n, Before(leftWide, n), After(leftWide, n)) :: Place(p, n)
  }

  function Before(leftWide: bool, n: nat): nat {
    if leftWide then 4 * n else n
  }

  function After(leftWide: bool, n: nat): nat {
    if leftWide then n else 4 * n
  }

  ghost predicate EndsBy(f: Place, e: int) {
    f.p + 7 * f.n <= e
  }

  ghost function FindersUpTo(s: Line, leftWide: bool, e: int): set<Place> {
    set f | f in Finders(s, leftWide) && EndsBy(f, e)
  }

  lemma RunBegins(r: seq<nat>, j: nat, n: nat, colour: bool)
    requires AllPositive(r) && j < |r| && colour == RunColour(false, j)
    ensures SolidAt(Expand(false, r), Position(r, j), n, colour) <==> n <= r[j]
  {
    hide Expand, Sum, Position, AllPositive;
    RunFills(r, j);
    if j + 1 < |r| {
      NextRun(r, j, colour);
      WholeStart(Expand(false, r), Position(r, j), Position(r, j) + r[j], colour, n);
    } else {
      PositionNext(r, j);
      LinesEnd(r);
    }
  }

  lemma NextRun(r: seq<nat>, j: nat, colour: bool)
    requires AllPositive(r) && j + 1 < |r| && colour == RunColour(false, j)
    ensures Position(r, j) + r[j] < |Expand(false, r)|
    ensures Expand(false, r)[Position(r, j) + r[j]] != colour
  {
    hide Expand, Sum, Position;
    PositionNext(r, j);
    RunFills(r, j + 1);
    ColoursAlternate(false, j);
  }

  lemma WholeStart(s: Line, a: nat, e: nat, colour: bool, n: nat)
    requires a <= e < |s| && SolidAt(s, a, e - a, colour) && s[e] != colour
    ensures SolidAt(s, a, n, colour) <==> n <= e - a
  {
    if n > e - a { assert s[e] != colour; }
  }

  lemma LinesEnd(r: seq<nat>)
    ensures Position(r, |r|) == |Expand(false, r)|
  {
    hide Expand, Sum;
    ExpandLength(false, r);
    assert r[..|r|] == r;
  }

  /** The runs around a core that ends with the m-th run, with the light it needs on both sides. */
  predicate Proportions(r: seq<nat>, m: nat, n: nat, leftWide: bool)
    requires m < |r|
  {
    && m % 2 == 0 && m >= 6 && n > 0 && Core(r, m - 3, n)
    && r[m - 6] >= Before(leftWide, n) && r[m] >= After(leftWide, n)
  }

  lemma FinderHere(r: seq<nat>, m: nat, n: nat, leftWide: bool)
    requires AllPositive(r) && 0 < m < |r|
    ensures FinderAt(Expand(false, r), Position(r, m) - 7 * n, n, Before(leftWide, n), After(leftWide, n))
       <==> Proportions(r, m, n, leftWide)
  {
    hide Expand, Sum, Position, AllPositive, SolidAt, CoreAt;
    if n > 0 {
      var s, e := Expand(false, r), Position(r, m);
      if m % 2 == 0 {
        CoreRuns(r, m, n, Before(leftWide, n));
        RunBegins(r, m, After(leftWide, n), false);
      } else {
        LightEnds(r, m);
        DarkEnds(s, e - 7 * n, n);
      }
    } else {
      DarkEnds(Expand(false, r), Position(r, m) - 7 * n, n);
    }
  }

  /** A core ends dark, and an odd number of runs ends light. */
  lemma DarkEnds(s: Line, p: int, n: nat)
    ensures CoreAt(s, p, n) ==> n > 0 && 0 < p + 7 * n <= |s| && s[p + 7 * n - 1]
  {
    if CoreAt(s, p, n) { assert SolidAt(s, p + 6 * n, n, true); }
  }

  lemma LightEnds(r: seq<nat>, m: nat)
    requires AllPositive(r) && 0 < m <= |r| && m % 2 == 1
    ensures 0 < Position(r, m) <= |Expand(false, r)| && !Expand(false, r)[Position(r, m) - 1]
  {
    hide Expand, Sum, Position;
    PositionNext(r, m - 1);
    RunFills(r, m - 1);
  }

  /** Every finder pattern ends where a run ends, before the line does. */
  lemma NoFinderInside(r: seq<nat>, j: nat, f: Place, leftWide: bool)
    requires AllPositive(r) && j < |r| && f in Finders(Expand(false, r), leftWide)
    ensures !(Position(r, j) < f.p + 7 * f.n < Position(r, j) + r[j])
    ensures 0 < f.p + 7 * f.n < |Expand(false, r)|
  {
    hide Expand, Sum, Position, AllPositive;
    var s, e := Expand(false, r), f.p + 7 * f.n;
    RunFills(r, j);
    DarkEnds(s, f.p, f.n);
    assert SolidAt(s, e, After(leftWide, f.n), false);
    assert !s[e];
  }

  /** Where a core with the given unit lies that ends with the m-th run. */
  function Ending(r: seq<nat>, m: nat, n: nat): Place
    requires m <= |r|
  {
    var e: int := Position(r, m);
    Place(e - 7 * n, n)
  }

  /** The patterns up to the end of the m-th run: those before it, and one if the runs have the proportions. */
  lemma FindersNext(r: seq<nat>, m: nat, leftWide: bool)
    requires AllPositive(r) && 0 < m < |r|
    ensures |FindersUpTo(Expand(false, r), leftWide, Position(r, m))|
         == |FindersUpTo(Expand(false, r), leftWide, Position(r, m - 1))|
            + if Proportions(r, m, r[m - 1], leftWide) then 1 else 0
  {
    hide Expand, Sum, Position, Proportions, AllPositive, Finders, Before, After, Ending, EndsBy;
    var s, n := Expand(false, r), r[m - 1];
    var earlier, now := FindersUpTo(s, leftWide, Position(r, m - 1)), FindersUpTo(s, leftWide, Position(r, m));
    forall f: Place
      ensures f in now <==> f in earlier || (f == Ending(r, m, n) && Proportions(r, m, n, leftWide))
      ensures f == Ending(r, m, n) ==> f !in earlier
    {
      NewFinder(r, m, f, leftWide);
      StillEnds(r, m, f);
    }
    OneMore(earlier, now, Ending(r, m, n), Proportions(r, m, n, leftWide));
  }

  lemma StillEnds(r: seq<nat>, m: nat, f: Place)
    requires AllPositive(r) && 0 < m < |r|
    ensures EndsBy(f, Position(r, m - 1)) ==> EndsBy(f, Position(r, m))
    ensures f == Ending(r, m, r[m - 1]) ==> !EndsBy(f, Position(r, m - 1))
  {
    hide Position;
    PositionNext(r, m - 1);
  }

  lemma OneMore<T>(earlier: set<T>, now: set<T>, x: T, more: bool)
    requires forall f :: f in now <==> f in earlier || (f == x && more)
    requires x !in earlier
    ensures |now| == |earlier| + if more then 1 else 0
  {
    if more {
      assert now == earlier + {x};
    } else {
      assert now == earlier;
    }
  }

  lemma RunIsPositive(r: seq<nat>, j: nat)
    requires AllPositive(r) && j < |r|
    ensures r[j] > 0
  {
  }

  lemma NewFinder(r: seq<nat>, m: nat, f: Place, leftWide: bool)
    requires AllPositive(r) && 0 < m < |r|
    ensures f in Finders(Expand(false, r), leftWide) && EndsBy(f, Position(r, m)) && !EndsBy(f, Position(r, m - 1))
       <==> f == Ending(r, m, r[m - 1]) && Proportions(r, m, r[m - 1], leftWide)
  {
    hide Expand, Sum, Position, Proportions, AllPositive, Finders, Before, After, FinderAt;
    var s := Expand(false, r);
    PositionNext(r, m - 1);
    RunIsPositive(r, m - 1);
    if f in Finders(s, leftWide) { NoFinderInside(r, m - 1, f, leftWide); }
    FinderMember(s, f, leftWide);
    FinderHere(r, m, f.n, leftWide);
    OnlyUnit(r, m, f.n, leftWide);
  }

  lemma OnlyUnit(r: seq<nat>, m: nat, n: nat, leftWide: bool)
    requires m < |r|
    ensures Proportions(r, m, n, leftWide) ==> n == r[m - 1]
  {
  }

  lemma FinderMember(s: Line, f: Place, leftWide: bool)
    ensures f in Finders(s, leftWide) <==> FinderAt(s, f.p, f.n, Before(leftWide, f.n), After(leftWide, f.n))
  {
    assert f == Place(f.p, f.n);
  }

  lemma AroundIs(r: seq<nat>, m: nat)
    requires 6 <= m < |r| && r[m - 1] > 0
    ensures PatternsAround(r, m - 3)
         == (if Proportions(r, m, r[m - 1], true) then 1 else 0) + (if Proportions(r, m, r[m - 1], false) then 1 else 0)
  {
  }

  lemma {:induction false} FindersCounted(r: seq<nat>, m: nat)
    requires AllPositive(r) && m < |r|
    ensures var s, e := Expand(false, r), Position(r, m);
            |FindersUpTo(s, true, e)| + |FindersUpTo(s, false, e)| == PatternsCentred(r, if m >= 2 then m - 2 else 0)
  {
    hide Expand, Sum, Position, Proportions, AllPositive, PatternsAround, FindersUpTo;
    if m == 0 {
      NoneAtStart(r, true);
      NoneAtStart(r, false);
    } else {
      FindersCounted(r, m - 1);
      FindersNext(r, m, true);
      FindersNext(r, m, false);
      RunIsPositive(r, m - 1);
      if m >= 6 { AroundIs(r, m); } else { TooShort(r, m); }
    }
  }

  lemma TooShort(r: seq<nat>, m: nat)
    requires m < 6 && m < |r|
    ensures forall n, leftWide :: !Proportions(r, m, n, leftWide)
  {
  }

  lemma NoneAtStart(r: seq<nat>, leftWide: bool)
    requires AllPositive(r) && r != []
    ensures FindersUpTo(Expand(false, r), leftWide, Position(r, 0)) == {}
  {
    hide Expand, Sum, Position, AllPositive, Finders;
    PositionNext(r, 0);
    forall f | f in Finders(Expand(false, r), leftWide)
      ensures !EndsBy(f, 0)
    {
      NoFinderInside(r, 0, f, leftWide);
    }
  }

  lemma FindersAll(r: seq<nat>, leftWide: bool)
    requires AllPositive(r) && r != []
    ensures FindersUpTo(Expand(false, r), leftWide, Position(r, |r| - 1)) == Finders(Expand(false, r), leftWide)
  {
    hide Expand, Sum, Position, AllPositive, Finders;
    var k := |r| - 1;
    PositionNext(r, k);
    LinesEnd(r);
    forall f | f in Finders(Expand(false, r), leftWide)
      ensures EndsBy(f, Position(r, k))
    {
      NoFinderInside(r, k, f, leftWide);
    }
  }

  /** On every line that begins light, what the runs count are the finder patterns among the modules. */
  lemma PatternsAreFinders(s: Line)
    requires s != [] && !s[0]
    ensures Patterns(Groups(s)) == |Finders(s, true)| + |Finders(s, false)|
  {
    hide Expand, Groups, Patterns, Finders, FindersUpTo, Position;
    var r := Groups(s);
    GroupsExpand(s);
    PatternsAreCentred(r);
    FindersCounted(r, |r| - 1);
    FindersAll(r, true);
    FindersAll(r, false);
    NoCentres(r);
  }

  lemma NoCentres(r: seq<nat>)
    requires r != []
    ensures |r| < 7 ==> PatternsCentred(r, if |r| >= 3 then |r| - 3 else 0) == 0
  {
  }

  // ----- Long runs

  /** Five modules of one colour, the first one at p. */
  predicate FiveAlike(s: Line, p: int) {
    0 <= p && p + 5 <= |s| && s[p] == s[p + 1] == s[p + 2] == s[p + 3] == s[p + 4]
  }

  /** They are the first ones of that colour. */
  predicate Fresh(s: Line, p: int)
    requires FiveAlike(s, p)
  {
    p == 0 || s[p - 1] != s[p]
  }

  ghost function Fives(s: Line): set<int> {
    set p | 0 <= p < |s| && FiveAlike(s, p)
  }

  ghost function FreshFives(s: Line): set<int> {
    set p | 0 <= p < |s| && FiveAlike(s, p) && Fresh(s, p)
  }

  /** The last run is made of the last modules of one colour. */
  lemma {:induction false} LastRunIs(s: Line)
    requires s != []
    ensures Groups(s) != []
    ensures var x := Groups(s)[|Groups(s)| - 1];
            && 0 < x <= |s| && (forall k | |s| - x <= k < |s| :: s[k] == s[|s| - 1])
            && (x < |s| ==> s[|s| - x - 1] != s[|s| - 1])
  {
    hide Groups;
    var p, c := s[..|s| - 1], s[|s| - 1];
    assert s == p + [c];
    if p == [] {
      GroupsSingle(c);
    } else {
      LastRunIs(p);
      GroupsNext(p, c);
    }
  }

  lemma LongRunsAppend(s: Line, c: bool)
    ensures var t := s + [c];
            Groups(t) != [] &&
            var x := Groups(t)[|Groups(t)| - 1];
            LongRuns(Groups(t)) == LongRuns(Groups(s)) + LongRun(x) - (if x > 1 then LongRun(x - 1) else 0)
  {
    hide Groups, LongRun;
    LastRunIs(s + [c]);
    GroupsNext(s, c);
    var r := Groups(s);
    if s != [] && c == s[|s| - 1] {
      LastRunIs(s);
      var q := r[|r| - 1 := r[|r| - 1] + 1];
      assert q[..|r| - 1] == r[..|r| - 1];
    } else {
      EmptyRuns(c);
      assert (r + [1])[..|r|] == r;
    }
  }

  /** Appending a module adds at most one group of five, the last one. */
  lemma FivesAppend(s: Line, c: bool, x: nat)
    requires var t := s + [c];
             && 0 < x <= |t| && (forall k | |t| - x <= k < |t| :: t[k] == c) && (x < |t| ==> t[|t| - x - 1] != c)
    ensures |Fives(s + [c])| == |Fives(s)| + if x >= 5 then 1 else 0
    ensures |FreshFives(s + [c])| == |FreshFives(s)| + if x == 5 then 1 else 0
  {
    var t, last: int := s + [c], |s| - 4;
    forall p
      ensures p in Fives(t) <==> p in Fives(s) || (p == last && x >= 5)
      ensures p in FreshFives(t) <==> p in FreshFives(s) || (p == last && x == 5)
    {
      FiveAgain(s, c, p);
      if p == last { LastFive(t, x); }
    }
    OneMore(Fives(s), Fives(t), last, x >= 5);
    OneMore(FreshFives(s), FreshFives(t), last, x == 5);
  }

  lemma FiveAgain(s: Line, c: bool, p: int)
    ensures p + 5 <= |s| ==> FiveAlike(s + [c], p) == FiveAlike(s, p)
    ensures p + 5 <= |s| && FiveAlike(s, p) ==> Fresh(s + [c], p) == Fresh(s, p)
  {
  }

  lemma LastFive(t: Line, x: nat)
    requires 0 < x <= |t| && (forall k | |t| - x <= k < |t| :: t[k] == t[|t| - 1])
    requires x < |t| ==> t[|t| - x - 1] != t[|t| - 1]
    ensures FiveAlike(t, |t| - 5) <==> x >= 5
    ensures FiveAlike(t, |t| - 5) ==> (Fresh(t, |t| - 5) <==> x == 5)
  {
  }

  /** Long runs count one for every five modules of one colour in a row, and two more for the first five of each run. */
  lemma {:induction false} LongRunsAreFives(s: Line)
    ensures LongRuns(Groups(s)) == |Fives(s)| + 2 * |FreshFives(s)|
  {
    hide Groups, LongRuns, Fives, FreshFives;
    if s == [] {
      NoFives();
    } else {
      var p, c := s[..|s| - 1], s[|s| - 1];
      assert s == p + [c];
      LongRunsAreFives(p);
      LongRunsAppend(p, c);
      LastRunIs(s);
      FivesAppend(p, c, Groups(s)[|Groups(s)| - 1]);
    }
  }

  lemma NoFives()
    ensures LongRuns(Groups([])) == 0 && Fives([]) == {} && FreshFives([]) == {}
  {
  }

  // ----- The penalty of a line

  /**
   The penalty of a row or column, said of its modules: one for every five of one colour in a row and two
   more for the first five of each run; and forty for every dark-light-dark-light-dark in the proportions
   1:1:3:1:1 that has four units of light on one side and one on the other, between the borders.
   */
  lemma PenaltyOfModules(line: Line)
    ensures LinePenalty(line) == |Fives(line)| + 2 * |FreshFives(line)|
                                 + 40 * (|Finders(Bordered(line), true)| + |Finders(Bordered(line), false)|)
  {
    hide Groups, LongRuns, Fives, FreshFives, Finders, Patterns;
    LongRunsAreFives(line);
    if line == [] {
      assert Bordered([]) == [];
      NoFinders();
    } else {
      PatternsAreFinders(Bordered(line));
    }
  }

  lemma NoFinders()
    ensures Patterns(Groups([])) == 0 && Finders([], true) == {} && Finders([], false) == {}
  {
  }
}
