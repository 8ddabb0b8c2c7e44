/** The evaluator (`evaluate`): the number of 1 pieces that reached the last row minus
    the number of -1 pieces that reached row 0. */
module Evaluation {
  import opened Board
  import opened MoveGen

  /** The count of 1 in the last row, minus the count of -1 in row 0. */
  function Score(b: Grid): (s: int)
    requires WellFormed(b)
    ensures -Cols(b) <= s <= Cols(b)
  {
    var last := |b| - 1;
    CountBounds(b[last], 1, last);
    CountBounds(b[0], -1, 0);
    RowSum(b[last], CountOf(1), last) - RowSum(b[0], CountOf(-1), 0)
  }

  /** The score, stated with multiset multiplicities instead of sums. */
  lemma ScoreIsCountDifference(b: Grid)
    requires WellFormed(b)
    ensures Score(b) == multiset(b[|b| - 1])[1] as int - multiset(b[0])[-1] as int
  {
    CountIsMultiplicity(b[|b| - 1], 1, |b| - 1);
    CountIsMultiplicity(b[0], -1, 0);
  }

  /** Only the first and the last row count: boards that agree on them score the same. */
  lemma ScoreReadsEdgeRowsOnly(b1: Grid, b2: Grid)
    requires WellFormed(b1) && WellFormed(b2) && |b1| == |b2|
    requires b1[0] == b2[0] && b1[|b1| - 1] == b2[|b2| - 1]
    ensures Score(b1) == Score(b2)
  {
  }

  /** Overwriting one cell changes the score only through the first and the last row. */
  lemma ScoreSet(b: Grid, c: Coord, x: int)
    requires WellFormed(b) && InBounds(b, c)
    ensures WellFormed(Set(b, c, x))
    ensures Score(Set(b, c, x)) == Score(b)
      + (if c.row == |b| - 1 then CellWeight(CountOf(1), c.row, x) - CellWeight(CountOf(1), c.row, At(b, c)) else 0)
      - (if c.row == 0 then CellWeight(CountOf(-1), 0, x) - CellWeight(CountOf(-1), 0, At(b, c)) else 0)
  {
    var b1, last := Set(b, c, x), |b| - 1;
    if c.row == last {
      RowSumUpdate(b[last], CountOf(1), last, c.col, x);
      assert b1[last] == b[last][c.col := x];
    } else {
      assert b1[last] == b[last];
    }
    if c.row == 0 {
      RowSumUpdate(b[0], CountOf(-1), 0, c.col, x);
      assert b1[0] == b[0][c.col := x];
    } else {
      assert b1[0] == b[0];
    }
  }

  /** A generated move changes the score by one exactly when it brings a piece home:
      a 1 onto the last row raises it, a -1 onto row 0 lowers it. A capture never
      changes it, since no piece is captured on its own home row. */
  lemma ScoreAfterMove(b: Grid, p: int, m: Move)
    requires WellFormed(b) && IsPlayer(p) && Legal(b, p, m)
    ensures Score(Applied(b, m)) == Score(b)
      + (if p == 1 && m.dst.row == |b| - 1 then 1 else if p == -1 && m.dst.row == 0 then -1 else 0)
  {
    var b1 := Set(b, m.dst, p);
    assert At(b1, m.src) == p;
    ScoreSet(b, m.dst, p);
    ScoreSet(b1, m.src, 0);
  }

  /** `evaluate`: count the 1 pieces of the last row, then subtract the -1 pieces of row 0. */
  method Evaluate(a: array2<int>) returns (score: int)
    requires a.Length0 >= 1
    ensures score == Score(View(a))
  {
    ghost var b := View(a);
    var last := a.Length0 - 1;
    score := 0;
    for k := 0 to a.Length1
      invariant score == RowSum(b[last][..k], CountOf(1), last)
    {
      assert b[last][..k + 1][..k] == b[last][..k];
      if a[last, k] == 1 {
        score := score + 1;
      }
    }
    assert b[last][..a.Length1] == b[last];
    ghost var top := score;
    for k := 0 to a.Length1
      invariant score == top - RowSum(b[0][..k], CountOf(-1), 0)
    {
      assert b[0][..k + 1][..k] == b[0][..k];
      if a[0, k] == -1 {
        score := score + -1;
      }
    }
    assert b[0][..a.Length1] == b[0];
  }
}
