/** The penalty score of a whole symbol: its lines, its blocks of one colour and the balance of colours. */
module Scoring {
  import opened Arithmetic
  import opened Bitwise
  import opened Symbol
  import opened Runs
  import opened Capacity
  import opened Penalty

  // ----- Counting cells row by row

  /** The cells of a set that come before (x, y) row by row. */
  ghost function Visited(s: set<Cell>, x: int, y: int): set<Cell> {
    set c | c in s && (c.y < y || (c.y == y && c.x < x))
  }

  lemma VisitedNext(s: set<Cell>, x: int, y: int)
    ensures |Visited(s, x + 1, y)| == |Visited(s, x, y)| + if Cell(x, y) in s then 1 else 0
  {
    if Cell(x, y) in s {
      assert Visited(s, x + 1, y) == Visited(s, x, y) + {Cell(x, y)};
    } else {
      assert Visited(s, x + 1, y) == Visited(s, x, y);
    }
  }

  ghost predicate Within(s: set<Cell>, n: int) {
    forall c :: c in s ==> Inside(n, c.x, c.y)
  }

  lemma VisitedEnds(s: set<Cell>, n: int, y: int)
    requires Within(s, n)
    ensures Visited(s, n, y) == Visited(s, 0, y + 1)
    ensures Visited(s, 0, 0) == {} && Visited(s, 0, n) == s
  {
  }

  lemma WithinBounded(s: set<Cell>, n: nat)
    requires Within(s, n)
    ensures |s| <= n * n
  {
    SquareSize(n);
    var all := Product(Interval(0, n), Interval(0, n));
    hide Interval;
    forall c: Cell | c in s
      ensures c in all
    {
      assert c == Cell(c.x, c.y);
    }
    SubsetSize(s, all);
  }

  lemma SubsetSize(s: set<Cell>, t: set<Cell>)
    requires forall c :: c in s ==> c in t
    ensures |s| <= |t|
  {
    assert t == s + (t - s);
  }

  // ----- What is counted

  /** The top left corners of the two by two squares of one colour. */
  ghost function Blocks(g: Grid): (s: set<Cell>)
    requires Square(g, |g|)
    ensures Within(s, |g| - 1)
  {
    set x, y | 0 <= x < |g| - 1 && 0 <= y < |g| - 1
               && At(g, x, y) == At(g, x + 1, y) == At(g, x, y + 1) == At(g, x + 1, y + 1) :: Cell(x, y)
  }

  ghost function DarkCells(g: Grid): (s: set<Cell>)
    requires Square(g, |g|)
    ensures Within(s, |g|)
  {
    set x, y | 0 <= x < |g| && 0 <= y < |g| && At(g, x, y) :: Cell(x, y)
  }

  /** The penalty of the first i rows, or columns. */
  function LinesPenalty(g: Grid, i: nat, column: bool): nat
    requires Square(g, |g|) && i <= |g|
  {
    if i == 0 then 0 else LinesPenalty(g, i - 1, column) + LinePenalty(LineOf(g, i - 1, column))
  }

  // ----- The balance of dark and light

  /** The share of dark modules lies between (45 - 5k)% and (55 + 5k)%. */
  predicate Balanced(black: nat, total: nat, k: int) {
    (45 - 5 * k) * total <= 100 * black <= (55 + 5 * k) * total
  }

  function Balance(black: nat, total: nat): int
    requires total > 0
  {
    var d := black * 20 - total * 10;
    ((if d < 0 then -d else d) + total - 1) / total - 1
  }

  lemma RoundedUp(d: nat, total: nat, k: int)
    requires total > 0
    ensures k >= (d + total - 1) / total <==> d <= k * total
  {
    var q := (d + total - 1) / total;
    assert q * total <= d + total - 1 < q * total + total;
    if k >= q { MulMonotone(q, k, total); } else { MulMonotone(k + 1, q, total); }
  }

  lemma BalancedIs(black: nat, total: nat, k: int)
    requires total > 0
    ensures Balanced(black, total, k) <==> k >= Balance(black, total)
  {
    var d := black * 20 - total * 10;
    RoundedUp(if d < 0 then -d else d, total, k + 1);
    assert (45 - 5 * k) * total == 50 * total - 5 * ((k + 1) * total);
    assert (55 + 5 * k) * total == 50 * total + 5 * ((k + 1) * total);
  }

  /** The balance term is the least k from 0 for which the colours are balanced, and at most 9. */
  lemma BalanceIsLeast(black: nat, total: nat)
    requires total % 2 == 1 && black <= total
    ensures 0 <= Balance(black, total) <= 9
    ensures Balanced(black, total, Balance(black, total))
    ensures forall k | 0 <= k < Balance(black, total) :: !Balanced(black, total, k)
  {
    hide Balance;
    BalancedIs(black, total, Balance(black, total));
    BalancedIs(black, total, 9);
    BalancedIs(black, total, -1);
    forall k | 0 <= k < Balance(black, total)
      ensures !Balanced(black, total, k)
    {
      BalancedIs(black, total, k);
    }
  }

  // ----- The score

  ghost function Score(g: Grid): int
    requires Square(g, |g|) && g != []
  {
    LinesPenalty(g, |g|, false) + LinesPenalty(g, |g|, true) + PENALTY_N2 * |Blocks(g)|
    + PENALTY_N4 * Balance(|DarkCells(g)|, |g| * |g|)
  }

  lemma LineBounded(g: Grid, i: nat, column: bool)
    requires Square(g, |g|) && i < |g|
    ensures LinePenalty(LineOf(g, i, column)) <= 241 * |g|
  {
    hide LinePenalty;
    LinePenaltyBounded(LineOf(g, i, column));
  }

  lemma {:induction false} LinesBounded(g: Grid, i: nat, column: bool, w: nat)
    requires Square(g, |g|) && i <= |g| && w == 241 * |g|
    ensures LinesPenalty(g, i, column) <= i * w
  {
    hide LinePenalty, LineOf, Square;
    if i > 0 {
      LinesBounded(g, i - 1, column, w);
      LineBounded(g, i - 1, column);
      var before := (i - 1) * w;
      assert LinesPenalty(g, i, column) <= before + w;
      assert i * w == before + w by { NextMultiple(i - 1, w); }
    }
  }

  lemma OddSquare(n: nat)
    requires n % 2 == 1
    ensures n * n % 2 == 1
  {
    var h := n / 2;
    assert n == 2 * h + 1;
    assert n * n == 2 * (2 * h * h + 2 * h) + 1;
  }

  /** What LONG_MAX is at least, whatever the platform. */
  const LONG_MAX := 0x7FFF_FFFF

  /** The score of a symbol is never negative and always far below the start value of the search for a mask. */
  lemma ScoreBounded(g: Grid, n: nat)
    requires Square(g, n) && n % 2 == 1 && n <= 177
    ensures 0 <= Score(g) < LONG_MAX / 100
  {
    hide LinesPenalty, Balance, Blocks, DarkCells, Within, Balanced;
    LinesBounded(g, n, false, 241 * n);
    LinesBounded(g, n, true, 241 * n);
    WithinBounded(Blocks(g), n - 1);
    WithinBounded(DarkCells(g), n);
    OddSquare(n);
    BalanceIsLeast(|DarkCells(g)|, n * n);
    SquareMonotone(n - 1, n);
    SquareMonotone(n, 177);
    SidesScaled(n);
  }

  lemma SidesScaled(n: nat)
    ensures n * (241 * n) == 241 * (n * n)
  {
  }

  // ----- Computing it

  method ScoreLines(qrcode: array<byte>, column: bool) returns (score: nat)
    requires Valid(qrcode[..])
    ensures score == LinesPenalty(View(qrcode[..]), qrcode[0], column)
  {
    hide View, Dark, LinePenalty;
    score := 0;
    for i := 0 to qrcode[0]
      invariant score == LinesPenalty(View(qrcode[..]), i, column)
    {
      var line := ScanLine(qrcode, i, column);
      score := score + line;
    }
  }

  lemma DarkCell(buf: seq<byte>, x: int, y: int)
    requires Valid(buf)
    ensures Dark(buf, x, y) <==> Cell(x, y) in DarkCells(View(buf))
  {
    hide Module;
    assert Inside(buf[0], x, y) ==> At(View(buf), x, y) == Module(buf, x, y);
  }

  lemma BlockCell(buf: seq<byte>, x: int, y: int)
    requires Valid(buf) && 0 <= x < buf[0] - 1 && 0 <= y < buf[0] - 1
    ensures Cell(x, y) in Blocks(View(buf)) <==>
            Dark(buf, x, y) == Dark(buf, x + 1, y) == Dark(buf, x, y + 1) == Dark(buf, x + 1, y + 1)
  {
    hide Module;
    assert At(View(buf), x, y) == Module(buf, x, y);
    assert At(View(buf), x + 1, y) == Module(buf, x + 1, y);
    assert At(View(buf), x, y + 1) == Module(buf, x, y + 1);
    assert At(View(buf), x + 1, y + 1) == Module(buf, x + 1, y + 1);
  }

  method IsBlock(qrcode: array<byte>, x: nat, y: nat) returns (r: bool)
    requires Valid(qrcode[..]) && x < qrcode[0] - 1 && y < qrcode[0] - 1
    ensures r <==> Cell(x, y) in Blocks(View(qrcode[..]))
  {
    hide View, Dark, Blocks;
    BlockCell(qrcode[..], x, y);
    var color := GetModule(qrcode, x, y);
    var right := GetModule(qrcode, x + 1, y);
    var below := GetModule(qrcode, x, y + 1);
    var diagonal := GetModule(qrcode, x + 1, y + 1);
    r := color == right && color == below && color == diagonal;
  }

  method CountBlocks(qrcode: array<byte>) returns (score: nat)
    requires Valid(qrcode[..])
    ensures score == PENALTY_N2 * |Blocks(View(qrcode[..]))|
  {
    hide View, Dark, Blocks, Visited, Within, Valid;
    var qrsize := SizeOf(qrcode);
    ghost var s := Blocks(View(qrcode[..]));
    score := 0;
    VisitedEnds(s, qrsize - 1, 0);
    for y := 0 to qrsize - 1
      invariant score == PENALTY_N2 * |Visited(s, 0, y)|
    {
      for x := 0 to qrsize - 1
        invariant score == PENALTY_N2 * |Visited(s, x, y)|
      {
        VisitedNext(s, x, y);
        var block := IsBlock(qrcode, x, y);
        if block { score := score + PENALTY_N2; }
      }
      VisitedEnds(s, qrsize - 1, y);
    }
  }

  method CountDark(qrcode: array<byte>) returns (black: nat)
    requires Valid(qrcode[..])
    ensures black == |DarkCells(View(qrcode[..]))|
  {
    hide View, Dark, DarkCells, Visited, Within, Valid;
    var qrsize := SizeOf(qrcode);
    ghost var s := DarkCells(View(qrcode[..]));
    black := 0;
    VisitedEnds(s, qrsize, 0);
    for y := 0 to qrsize
      invariant black == |Visited(s, 0, y)|
    {
      for x := 0 to qrsize
        invariant black == |Visited(s, x, y)|
      {
        VisitedNext(s, x, y);
        DarkCell(qrcode[..], x, y);
        var dark := GetModule(qrcode, x, y);
        if dark { black := black + 1; }
      }
      VisitedEnds(s, qrsize, y);
    }
  }

  method SizeOf(qrcode: array<byte>) returns (n: nat)
    requires Valid(qrcode[..])
    ensures n == |View(qrcode[..])| && qrcode.Length > 0 && n == qrcode[0] && 21 <= n <= 177
  {
    n := qrcode[0];
  }

  method GetPenaltyScore(qrcode: array<byte>) returns (result: int)
    requires Valid(qrcode[..])
    ensures result == Score(View(qrcode[..]))
  {
    hide View, LinesPenalty, Blocks, DarkCells, Balance, BufferLength;
    var qrsize := SizeOf(qrcode);
    var rows := ScoreLines(qrcode, false);
    var columns := ScoreLines(qrcode, true);
    var blocks := CountBlocks(qrcode);
    var black := CountDark(qrcode);
    PositiveSquare(qrsize);
    var k := BalanceTerm(black, qrsize * qrsize);
    result := rows + columns + blocks + k * PENALTY_N4;
  }

  lemma PositiveSquare(n: nat)
    requires n > 0
    ensures n * n > 0
  {
  }

  /** The balance, which for an odd number of modules is the least k from 0 that balances the colours. */
  method BalanceTerm(black: nat, total: nat) returns (k: int)
    requires total > 0
    ensures k == Balance(black, total)
    ensures total % 2 == 1 && black <= total ==>
              0 <= k <= 9 && Balanced(black, total, k) && forall j | 0 <= j < k :: !Balanced(black, total, j)
  {
    hide Balanced;
    var difference: int := black * 20 - total * 10;
    k := ((if difference < 0 then -difference else difference) + total - 1) / total - 1;
    if total % 2 == 1 && black <= total { BalanceIsLeast(black, total); }
  }
}
