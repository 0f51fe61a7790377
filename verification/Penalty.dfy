/** The penalty score of a symbol. */
module Penalty {
  import opened Bitwise
  import opened BitStream
  import opened Symbol
  import opened Runs

  // ----- The sliding history of runs

  /** The history holds the last seven of the completed runs, the latest first, and zeros beyond them. */
  ghost predicate History(h: seq<nat>, done: seq<nat>) {
    && |h| == 7
    && (forall k | 0 <= k < 7 :: h[k] == if k < |done| then done[|done| - 1 - k] else 0)
    && (forall k | 0 <= k < |done| :: done[k] > 0)
  }

  /** Push a completed run; the first one gets the border. */
  method FinderPenaltyAddHistory(currentRunLength: nat, runHistory: array<nat>, qrsize: nat, ghost done: seq<nat>)
    requires runHistory.Length == 7 && History(runHistory[..], done)
    requires currentRunLength > 0 || (done == [] && qrsize > 0)
    modifies runHistory
    ensures History(runHistory[..], done + [currentRunLength + if done == [] then qrsize else 0])
  {
    var length := currentRunLength;
    if runHistory[0] == 0 { length := length + qrsize; }
    forall k | 1 <= k < 7 { runHistory[k] := runHistory[k - 1]; }
    runHistory[0] := length;
  }

  /** The patterns that end with the run just completed, a light one. */
  method FinderPenaltyCountPatterns(runHistory: array<nat>, qrsize: nat, ghost done: seq<nat>) returns (count: nat)
    requires runHistory.Length == 7 && History(runHistory[..], done) && |done| % 2 == 1
    requires runHistory[1] <= qrsize * 3
    ensures count == if |done| >= 7 then PatternsAround(done, |done| - 4) else 0
  {
    var n := runHistory[1];
    assert n <= qrsize * 3;
    var core := n > 0 && runHistory[2] == n && runHistory[3] == n * 3 && runHistory[4] == n && runHistory[5] == n;
    count := (if core && runHistory[0] >= n * 4 && runHistory[6] >= n then 1 else 0)
           + (if core && runHistory[6] >= n * 4 && runHistory[0] >= n then 1 else 0);
  }

  // ----- What is known in the middle of a line

  /** The line scanned so far, with the border before it. */
  function Left(n: nat, line: Line): Line {
    Zeros(n) + line
  }

  /** The runs completed so far: all but the current one. */
  function Done(n: nat, line: Line): seq<nat>
    requires n > 0
  {
    var r := Groups(Left(n, line));
    r[..|r| - 1]
  }

  ghost predicate Scanning(n: nat, line: Line, runColor: bool, runX: nat, h: seq<nat>)
    requires n > 0
  {
    var s := Left(n, line);
    var r := Groups(s);
    && History(h, Done(n, line))
    && runColor == s[|s| - 1]
    && r[|r| - 1] == runX + (if |r| == 1 then n else 0)
    && (if line == [] then runX == 0 else runX == Groups(line)[|Groups(line)| - 1])
  }

  lemma GroupsParity(s: Line)
    requires s != [] && !s[0]
    ensures s[|s| - 1] <==> |Groups(s)| % 2 == 0
  {
    hide Expand, Groups;
    GroupsExpand(s);
    LastRun(s[0], Groups(s));
  }

  lemma LeftGroups(n: nat, line: Line, c: bool)
    requires n > 0
    ensures var s := Left(n, line);
            && s != [] && !s[0] && Left(n, line + [c]) == s + [c] && Groups(s) != []
  {
    hide Groups;
    assert Left(n, line + [c]) == Left(n, line) + [c];
  }

  lemma ScanningStart(n: nat, h: seq<nat>)
    requires n > 0 && h == [0, 0, 0, 0, 0, 0, 0]
    ensures Scanning(n, [], false, 0, h) && Patterns(Done(n, [])) == 0
  {
    assert Left(n, []) == Zeros(n);
    SolidGroups(n);
  }

  lemma {:induction false} SolidGroups(n: nat)
    requires n > 0
    ensures Groups(Zeros(n)) == [n]
  {
    if n > 1 {
      SolidGroups(n - 1);
      GroupsNext(Zeros(n - 1), false);
      assert Zeros(n) == Zeros(n - 1) + [false];
    } else {
      GroupsSingle(false);
      assert Zeros(1) == [false];
    }
  }

  function LongStep(runX: nat): nat {
    if runX == 5 then PENALTY_N1 else if runX > 5 then 1 else 0
  }

  lemma LongRunsNext(line: Line, c: bool, runX: nat)
    requires if line == [] then runX == 0 && !c else c == line[|line| - 1] && runX == Groups(line)[|Groups(line)| - 1]
    ensures LongRuns(Groups(line + [c])) == LongRuns(Groups(line)) + LongStep(runX + 1)
    ensures Groups(line + [c]) != [] && Groups(line + [c])[|Groups(line + [c])| - 1] == runX + 1
  {
    hide Groups;
    GroupsNext(line, c);
    if line == [] {
      GroupsSingle(c);
      EmptyRuns(c);
      assert line + [c] == [c];
      assert LongRuns([1]) == LongRuns([1][..0]) + 0;
    } else {
      var r := Groups(line);
      assert r[|r| - 1 := r[|r| - 1] + 1][..|r| - 1] == r[..|r| - 1];
    }
  }

  /** A module of the current colour lengthens the current run. */
  lemma ScanningSame(n: nat, line: Line, c: bool, runX: nat, h: seq<nat>)
    requires n > 0 && Scanning(n, line, c, runX, h)
    ensures Scanning(n, line + [c], c, runX + 1, h) && Done(n, line + [c]) == Done(n, line)
    ensures LongRuns(Groups(line + [c])) == LongRuns(Groups(line)) + LongStep(runX + 1)
  {
    hide Groups, LongRuns, History, LongStep, Left;
    LeftGroups(n, line, c);
    LeftLast(n, line);
    LongRunsNext(line, c, runX);
    GroupsNext(Left(n, line), c);
    var r := Groups(Left(n, line));
    assert r[|r| - 1 := r[|r| - 1] + 1][..|r| - 1] == r[..|r| - 1];
  }

  lemma LeftLast(n: nat, line: Line)
    requires n > 0
    ensures var s := Left(n, line);
            s != [] && s[|s| - 1] == (if line == [] then false else line[|line| - 1])
  {
  }

  lemma LongRunsFresh(line: Line, c: bool)
    requires line == [] || c != line[|line| - 1]
    ensures LongRuns(Groups(line + [c])) == LongRuns(Groups(line))
    ensures Groups(line + [c]) != [] && Groups(line + [c])[|Groups(line + [c])| - 1] == 1
  {
    hide Groups;
    GroupsNext(line, c);
    var r := Groups(line);
    assert (r + [1])[..|r|] == r;
  }

  lemma DoneChange(n: nat, line: Line, c: bool)
    requires n > 0 && c != Left(n, line)[|Left(n, line)| - 1]
    ensures Groups(Left(n, line + [c])) == Groups(Left(n, line)) + [1]
    ensures Done(n, line + [c]) == Groups(Left(n, line))
  {
    hide Groups;
    LeftGroups(n, line, c);
    GroupsNext(Left(n, line), c);
  }

  lemma DoneCurrent(n: nat, line: Line, runColor: bool, runX: nat, h: seq<nat>)
    requires n > 0 && Scanning(n, line, runColor, runX, h)
    ensures Groups(Left(n, line)) == Done(n, line) + [runX + if Done(n, line) == [] then n else 0]
    ensures runColor == Left(n, line)[|Left(n, line)| - 1]
    ensures runColor <==> |Groups(Left(n, line))| % 2 == 0
  {
    hide Groups, History;
    LeftGroups(n, line, runColor);
    GroupsParity(Left(n, line));
  }

  /** A module of the other colour completes the current run. */
  lemma ScanningChange(n: nat, line: Line, runColor: bool, runX: nat, h: seq<nat>, h': seq<nat>)
    requires n > 0 && Scanning(n, line, runColor, runX, h)
    requires History(h', Done(n, line) + [runX + if Done(n, line) == [] then n else 0])
    ensures Scanning(n, line + [!runColor], !runColor, 1, h')
    ensures Done(n, line + [!runColor]) == Done(n, line) + [runX + if Done(n, line) == [] then n else 0]
    ensures LongRuns(Groups(line + [!runColor])) == LongRuns(Groups(line))
    ensures |Done(n, line + [!runColor])| % 2 == if runColor then 0 else 1
  {
    hide Groups, LongRuns, History, Left, Done, Scanning;
    var c := !runColor;
    DoneCurrent(n, line, runColor, runX, h);
    DoneChange(n, line, c);
    LeftLast(n, line);
    LeftLast(n, line + [c]);
    LongRunsFresh(line, c);
    ScanningFresh(n, line + [c], c, Groups(Left(n, line)), h');
  }

  lemma ScanningFresh(n: nat, line: Line, c: bool, done: seq<nat>, h: seq<nat>)
    requires n > 0 && line != [] && Done(n, line) == done != [] && History(h, done)
    requires Groups(Left(n, line)) == done + [1]
    requires Left(n, line)[|Left(n, line)| - 1] == c && Groups(line)[|Groups(line)| - 1] == 1
    ensures Scanning(n, line, c, 1, h)
  {
    hide Groups, History, Left, Done;
  }

  lemma PatternsNext(done: seq<nat>, x: nat)
    ensures var d := done + [x];
            Patterns(d) == Patterns(done) + if |d| >= 7 && |d| % 2 == 1 then PatternsAround(d, |d| - 4) else 0
  {
    assert (done + [x])[..|done|] == done;
    if |done| < 6 {
    }
  }

  lemma RunsBounded(n: nat, line: Line, i: nat)
    requires n > 0 && |line| <= n && i < |Done(n, line)|
    ensures Done(n, line)[i] <= 2 * n
  {
    hide Groups, Sum;
    var r := Groups(Left(n, line));
    GroupsSum(Left(n, line));
    PartBelowSum(r, i);
  }

  // ----- The end of a line

  lemma {:induction false} GroupsLightTail(s: Line, n: nat)
    requires s != [] && n > 0
    ensures var r := Groups(s);
            Groups(s + Zeros(n)) == if s[|s| - 1] then r + [n] else r[|r| - 1 := r[|r| - 1] + n]
  {
    hide Groups;
    var t := s + Zeros(n - 1);
    assert s + Zeros(n) == t + [false];
    GroupsNext(t, false);
    if n == 1 {
      assert t == s;
    } else {
      GroupsLightTail(s, n - 1);
    }
  }

  /** The runs that the history has seen once the line is terminated. */
  function Final(n: nat, line: Line, runColor: bool, runX: nat): seq<nat>
    requires n > 0
  {
    var done := Done(n, line);
    var border := if done == [] then n else 0;
    if runColor then done + [runX + border] + [n] else done + [runX + n + border]
  }

  /** They are the runs of the bordered line, and the last of them is light. */
  lemma FinalRuns(n: nat, line: Line, runColor: bool, runX: nat, h: seq<nat>)
    requires n > 0 && |line| == n && Scanning(n, line, runColor, runX, h)
    ensures Final(n, line, runColor, runX) == Groups(Bordered(line))
    ensures |Final(n, line, runColor, runX)| % 2 == 1
    ensures runColor ==> Done(n, line) != []
    ensures !runColor ==> |Done(n, line)| % 2 == 0
    ensures runX > 0
  {
    hide Groups, History, Left, Done, Scanning, Zeros, Bordered;
    LeftLast(n, line);
    GroupsLightTail(Left(n, line), n);
    BorderedIs(line);
    DoneCurrent(n, line, runColor, runX, h);
    ScanningHistory(n, line, runColor, runX, h);
    var done := Done(n, line);
    LongerLast(done, runX + if done == [] then n else 0, n);
  }

  lemma LongerLast(done: seq<nat>, x: nat, n: nat)
    ensures var r := done + [x]; r[|r| - 1 := r[|r| - 1] + n] == done + [x + n]
  {
  }

  lemma BorderedIs(line: Line)
    ensures Bordered(line) == Left(|line|, line) + Zeros(|line|)
  {
  }

  lemma FinalPatterns(n: nat, line: Line, runColor: bool, runX: nat, h: seq<nat>)
    requires n > 0 && |line| == n && Scanning(n, line, runColor, runX, h)
    ensures var d := Groups(Bordered(line));
            Patterns(d) == Patterns(Done(n, line)) + if |d| >= 7 then PatternsAround(d, |d| - 4) else 0
  {
    hide Groups, History, Scanning, Done, Patterns, PatternsAround, Bordered;
    FinalRuns(n, line, runColor, runX, h);
    var done := Done(n, line);
    var border := if done == [] then n else 0;
    if runColor {
      PatternsNext(done, runX + border);
      PatternsNext(done + [runX + border], n);
    } else {
      PatternsNext(done, runX + n + border);
    }
  }

  lemma FinalBounded(line: Line, i: nat)
    requires i < |Groups(Bordered(line))|
    ensures Groups(Bordered(line))[i] <= 3 * |line|
  {
    hide Groups, Sum;
    GroupsSum(Bordered(line));
    PartBelowSum(Groups(Bordered(line)), i);
  }

  /** Complete the last run, with the border behind the line. */
  method Terminate(currentRunColor: bool, currentRunLength: nat, runHistory: array<nat>, qrsize: nat,
                   ghost done: seq<nat>)
    requires runHistory.Length == 7 && qrsize > 0 && currentRunLength > 0 && History(runHistory[..], done)
    modifies runHistory
    ensures var border := if done == [] then qrsize else 0;
            History(runHistory[..], if currentRunColor then done + [currentRunLength + border] + [qrsize]
                                    else done + [currentRunLength + qrsize + border])
  {
    hide History;
    var length := currentRunLength;
    ghost var seen := done;
    if currentRunColor {
      FinderPenaltyAddHistory(length, runHistory, qrsize, seen);
      seen := seen + [length + if seen == [] then qrsize else 0];
      length := 0;
    }
    length := length + qrsize;
    FinderPenaltyAddHistory(length, runHistory, qrsize, seen);
  }

  /** The patterns that end with the border behind the line. */
  method FinderPenaltyTerminateAndCount(currentRunColor: bool, currentRunLength: nat, runHistory: array<nat>,
                                        qrsize: nat, ghost line: Line)
    returns (count: nat)
    requires runHistory.Length == 7 && qrsize == |line| > 0
    requires Scanning(qrsize, line, currentRunColor, currentRunLength, runHistory[..])
    modifies runHistory
    ensures Patterns(Groups(Bordered(line))) == Patterns(Done(qrsize, line)) + count
  {
    hide Scanning, Done, Groups, Patterns, PatternsAround, Bordered, History;
    FinalRuns(qrsize, line, currentRunColor, currentRunLength, runHistory[..]);
    FinalPatterns(qrsize, line, currentRunColor, currentRunLength, runHistory[..]);
    ScanningHistory(qrsize, line, currentRunColor, currentRunLength, runHistory[..]);
    ghost var final := Final(qrsize, line, currentRunColor, currentRunLength);
    Terminate(currentRunColor, currentRunLength, runHistory, qrsize, Done(qrsize, line));
    HistoryBounded(runHistory[..], line);
    count := FinderPenaltyCountPatterns(runHistory, qrsize, final);
  }

  lemma ScanningHistory(n: nat, line: Line, runColor: bool, runX: nat, h: seq<nat>)
    requires n > 0 && Scanning(n, line, runColor, runX, h)
    ensures History(h, Done(n, line))
    ensures line != [] ==> runX > 0
    ensures runX == 0 ==> Done(n, line) == []
  {
    hide History;
    if line == [] {
      assert Left(n, line) == Zeros(n);
      SolidGroups(n);
    }
  }

  lemma HistoryBounded(h: seq<nat>, line: Line)
    requires History(h, Groups(Bordered(line)))
    ensures h[1] <= |line| * 3
  {
    hide Groups, Bordered;
    var d := Groups(Bordered(line));
    if |d| >= 2 { FinalBounded(line, |d| - 2); }
  }

  // ----- One line

  /** The score of the line scanned so far. */
  ghost predicate Scored(n: nat, line: Line, runColor: bool, runX: nat, h: seq<nat>, score: nat)
    requires n > 0
  {
    && Scanning(n, line, runColor, runX, h)
    && score == LongRuns(Groups(line)) + PENALTY_N3 * Patterns(Done(n, line))
  }

  /** Scan one more module. */
  method ScanModule(dark: bool, runColor: bool, runX: nat, runHistory: array<nat>, qrsize: nat, score: nat,
                    ghost line: Line)
    returns (nextColor: bool, nextX: nat, nextScore: nat)
    requires runHistory.Length == 7 && |line| < qrsize
    requires Scored(qrsize, line, runColor, runX, runHistory[..], score)
    modifies runHistory
    ensures Scored(qrsize, line + [dark], nextColor, nextX, runHistory[..], nextScore)
  {
    hide Scanning, Done, Groups, Patterns, PatternsAround, History, LongRuns;
    nextColor, nextX, nextScore := runColor, runX, score;
    ghost var h, done := runHistory[..], Done(qrsize, line);
    if dark == runColor {
      ScanningSame(qrsize, line, dark, runX, h);
      nextX := nextX + 1;
      if nextX == 5 {
        nextScore := nextScore + PENALTY_N1;
      } else if nextX > 5 {
        nextScore := nextScore + 1;
      }
    } else {
      ScanningHistory(qrsize, line, runColor, runX, h);
      FinderPenaltyAddHistory(runX, runHistory, qrsize, done);
      ScanningChange(qrsize, line, runColor, runX, h, runHistory[..]);
      PatternsNext(done, runX + if done == [] then qrsize else 0);
      if !runColor {
        ScannedBounded(qrsize, line + [dark], runHistory[..]);
        var count := FinderPenaltyCountPatterns(runHistory, qrsize, Done(qrsize, line + [dark]));
        nextScore := nextScore + count * PENALTY_N3;
      }
      nextColor := dark;
      nextX := 1;
    }
  }

  lemma ScannedBounded(n: nat, line: Line, h: seq<nat>)
    requires n > 0 && |line| <= n && History(h, Done(n, line))
    ensures h[1] <= n * 3
  {
    hide Done;
    var d := Done(n, line);
    if |d| >= 2 { RunsBounded(n, line, |d| - 2); }
  }

  /** Row or column i of a grid. */
  function LineOf(g: Grid, i: nat, column: bool): (line: Line)
    requires Square(g, |g|) && i < |g|
    ensures |line| == |g|
    ensures forall k | 0 <= k < |g| :: line[k] == if column then At(g, i, k) else At(g, k, i)
  {
    seq(|g|, k requires 0 <= k < |g| => if column then At(g, i, k) else At(g, k, i))
  }

  method ScanLine(qrcode: array<byte>, i: nat, column: bool) returns (score: nat)
    requires Valid(qrcode[..]) && i < qrcode[0]
    ensures score == LinePenalty(LineOf(View(qrcode[..]), i, column))
  {
    hide View, Dark, Scanning, Done, Groups, Patterns, LongRuns, Scored, Bordered;
    var qrsize: nat := qrcode[0];
    ghost var line := LineOf(View(qrcode[..]), i, column);
    var runColor, runX := false, 0;
    var runHistory := new nat[7](_ => 0);
    score := 0;
    ScoredStart(qrsize, runHistory[..]);
    assert line[..0] == [];
    for k := 0 to qrsize
      invariant Scored(qrsize, line[..k], runColor, runX, runHistory[..], score)
    {
      var x, y := if column then i else k, if column then k else i;
      var dark := GetModule(qrcode, x, y);
      DarkInLine(qrcode[..], i, k, column);
      assert line[..k] + [dark] == line[..k + 1];
      runColor, runX, score := ScanModule(dark, runColor, runX, runHistory, qrsize, score, line[..k]);
    }
    assert line[..qrsize] == line;
    ScoredEnd(qrsize, line, runColor, runX, runHistory[..], score);
    var count := FinderPenaltyTerminateAndCount(runColor, runX, runHistory, qrsize, line);
    score := score + count * PENALTY_N3;
    LinePenaltyIs(line);
  }

  lemma LinePenaltyIs(line: Line)
    ensures LinePenalty(line) == LongRuns(Groups(line)) + PENALTY_N3 * Patterns(Groups(Bordered(line)))
  {
  }

  lemma ScoredStart(n: nat, h: seq<nat>)
    requires n > 0 && h == [0, 0, 0, 0, 0, 0, 0]
    ensures Scored(n, [], false, 0, h, 0)
  {
    hide Scanning;
    ScanningStart(n, h);
  }

  lemma ScoredEnd(n: nat, line: Line, runColor: bool, runX: nat, h: seq<nat>, score: nat)
    requires n > 0 && Scored(n, line, runColor, runX, h, score)
    ensures Scanning(n, line, runColor, runX, h)
    ensures score == LongRuns(Groups(line)) + PENALTY_N3 * Patterns(Done(n, line))
  {
  }

  lemma DarkInLine(buf: seq<byte>, i: nat, k: nat, column: bool)
    requires Valid(buf) && i < buf[0] && k < buf[0]
    ensures LineOf(View(buf), i, column)[k] == if column then Dark(buf, i, k) else Dark(buf, k, i)
  {
    hide Module;
  }
}
