/** Laws of the penalty score: rows and columns count alike, and the score of a plain symbol. */
module ScoreLaws {
  import opened Arithmetic
  import opened BitStream
  import opened Symbol
  import opened Runs
  import opened Capacity
  import opened Penalty
  import opened Scoring

  /** The grid with rows and columns exchanged. */
  function Transpose(g: Grid): (h: Grid)
    requires Square(g, |g|)
    ensures Square(h, |g|)
    ensures forall x, y | Inside(|g|, x, y) :: At(h, x, y) == At(g, y, x)
  {
    seq(|g|, y requires 0 <= y < |g| => seq(|g|, x requires 0 <= x < |g| => At(g, y, x)))
  }

  lemma LinesExchange(g: Grid, i: nat, column: bool)
    requires Square(g, |g|) && i < |g|
    ensures LineOf(Transpose(g), i, column) == LineOf(g, i, !column)
  {
  }

  lemma {:induction false} PenaltiesExchange(g: Grid, i: nat, column: bool)
    requires Square(g, |g|) && i <= |g|
    ensures LinesPenalty(Transpose(g), i, column) == LinesPenalty(g, i, !column)
  {
    hide LinePenalty, LineOf, Transpose;
    if i > 0 {
      PenaltiesExchange(g, i - 1, column);
      LinesExchange(g, i - 1, column);
    }
  }

  ghost function Swapped(s: set<Cell>): set<Cell> {
    set c | c in s :: Cell(c.y, c.x)
  }

  lemma {:induction false} SwapSize(s: set<Cell>)
    ensures |Swapped(s)| == |s|
  {
    if c: Cell :| c in s {
      SwapSize(s - {c});
      assert Swapped(s) == Swapped(s - {c}) + {Cell(c.y, c.x)};
    } else {
      assert forall c | c in s :: false;
      assert s == {};
      assert Swapped(s) == {};
    }
  }

  lemma SwapIs(s: set<Cell>, t: set<Cell>)
    requires forall x, y :: Cell(x, y) in t <==> Cell(y, x) in s
    ensures |t| == |s|
  {
    forall c: Cell
      ensures c in t <==> c in Swapped(s)
    {
      assert c == Cell(c.x, c.y);
      if Cell(c.y, c.x) in s { assert Cell(c.x, c.y) in Swapped(s); }
    }
    assert t == Swapped(s);
    SwapSize(s);
  }

  lemma BlocksExchange(g: Grid)
    requires Square(g, |g|)
    ensures |Blocks(Transpose(g))| == |Blocks(g)|
  {
    hide Transpose;
    forall x, y
      ensures Cell(x, y) in Blocks(Transpose(g)) <==> Cell(y, x) in Blocks(g)
    {
      if 0 <= x < |g| - 1 && 0 <= y < |g| - 1 {
        assert At(Transpose(g), x, y) == At(g, y, x) && At(Transpose(g), x + 1, y) == At(g, y, x + 1);
        assert At(Transpose(g), x, y + 1) == At(g, y + 1, x) && At(Transpose(g), x + 1, y + 1) == At(g, y + 1, x + 1);
      }
    }
    SwapIs(Blocks(g), Blocks(Transpose(g)));
  }

  lemma DarkExchange(g: Grid)
    requires Square(g, |g|)
    ensures |DarkCells(Transpose(g))| == |DarkCells(g)|
  {
    hide Transpose;
    forall x, y
      ensures Cell(x, y) in DarkCells(Transpose(g)) <==> Cell(y, x) in DarkCells(g)
    {
      if Inside(|g|, x, y) { assert At(Transpose(g), x, y) == At(g, y, x); }
    }
    SwapIs(DarkCells(g), DarkCells(Transpose(g)));
  }

  /** Exchanging rows and columns does not change the score. */
  lemma ScoreSymmetric(g: Grid)
    requires Square(g, |g|) && g != []
    ensures Score(Transpose(g)) == Score(g)
  {
    hide Transpose, LinesPenalty, Blocks, DarkCells, Balance;
    PenaltiesExchange(g, |g|, false);
    PenaltiesExchange(g, |g|, true);
    BlocksExchange(g);
    DarkExchange(g);
  }

  // ----- A plain symbol

  /** A grid of light modules. */
  function Plain(n: nat): (g: Grid)
    ensures Square(g, n) && forall x, y | Inside(n, x, y) :: !At(g, x, y)
  {
    seq(n, _ => seq(n, _ => false))
  }

  lemma PlainLine(n: nat)
    requires n >= 5
    ensures LinePenalty(Zeros(n)) == n - 2
  {
    hide Groups;
    SolidGroups(n);
    SolidGroups(3 * n);
    assert Bordered(Zeros(n)) == Zeros(3 * n);
    OneLongRun(n);
  }

  lemma OneLongRun(n: nat)
    requires n >= 5
    ensures LongRuns([n]) == n - 2
  {
    assert [n][..0] == [];
  }

  lemma {:induction false} PlainLines(n: nat, i: nat, column: bool)
    requires n >= 5 && i <= n
    ensures LinesPenalty(Plain(n), i, column) == i * (n - 2)
  {
    hide LinePenalty, Plain;
    if i > 0 {
      PlainLines(n, i - 1, column);
      assert LineOf(Plain(n), i - 1, column) == Zeros(n);
      PlainLine(n);
      NextMultiple(i - 1, n - 2);
    }
  }

  lemma PlainBlocks(n: nat)
    requires n >= 1
    ensures |Blocks(Plain(n))| == (n - 1) * (n - 1)
  {
    hide Plain, Interval;
    var all := Product(Interval(0, n - 1), Interval(0, n - 1));
    forall c: Cell
      ensures c in Blocks(Plain(n)) <==> c in all
    {
      assert c == Cell(c.x, c.y);
      if 0 <= c.x < n - 1 && 0 <= c.y < n - 1 {
        var g := Plain(n);
        assert !At(g, c.x, c.y) && !At(g, c.x + 1, c.y) && !At(g, c.x, c.y + 1) && !At(g, c.x + 1, c.y + 1);
      }
    }
    assert Blocks(Plain(n)) == all;
    SquareSize(n - 1);
  }

  lemma PlainBalance(total: nat)
    requires total > 0
    ensures Balance(0, total) == 9
  {
    assert (10 * total + total - 1) / total == 10 by { ElevenLess(total); }
  }

  lemma ElevenLess(t: nat)
    requires t > 0
    ensures (10 * t + t - 1) / t == 10
  {
    var q, a := (10 * t + t - 1) / t, 10 * t + t - 1;
    assert a == q * t + a % t;
    if q < 10 { MulMonotone(q + 1, 10, t); NextMultiple(q, t); }
    if q > 10 { MulMonotone(11, q, t); }
  }

  /**
   The score of a plain symbol: a run in every row and column, a block at every module but those of the
   last row and column, and the worst balance.
   */
  lemma PlainScore(n: nat)
    requires n >= 5
    ensures Score(Plain(n)) == 2 * (n * (n - 2)) + 3 * ((n - 1) * (n - 1)) + 90
  {
    hide Plain, LinesPenalty, Blocks, Balance;
    PlainLines(n, n, false);
    PlainLines(n, n, true);
    PlainBlocks(n);
    NoneDark(n);
    PositiveSquare(n);
    PlainBalance(n * n);
  }

  lemma NoneDark(n: nat)
    ensures |DarkCells(Plain(n))| == 0
  {
    hide Plain;
    forall c
      ensures c !in DarkCells(Plain(n))
    {
      if Inside(n, c.x, c.y) { assert !At(Plain(n), c.x, c.y); }
    }
    assert DarkCells(Plain(n)) == {};
  }
}
