/** The game board: a rectangular grid of cells, each 0 (empty), 1 (a piece of the
    player who advances towards higher row numbers) or -1 (a piece of the player who
    advances towards row 0). Spec functions work on the value `seq<seq<int>>`; the
    search itself keeps each board in a two-dimensional array that it updates in place. */
module Board {

  datatype Option<T> = None | Some(value: T)

  type Grid = seq<seq<int>>

  datatype Coord = Coord(row: nat, col: nat)

  /** A move relocates the piece on `src` to `dst`. */
  datatype Move = Move(src: Coord, dst: Coord)

  predicate IsPlayer(p: int) {
    p == 1 || p == -1
  }

  /** Rectangular, with at least one row (the search reads the first and the last row). */
  predicate WellFormed(b: Grid) {
    |b| >= 1 && forall i :: 0 <= i < |b| ==> |b[i]| == |b[0]|
  }

  function Cols(b: Grid): int
    requires |b| >= 1
  {
    |b[0]|
  }

  predicate InBounds(b: Grid, c: Coord) {
    c.row < |b| && c.col < |b[c.row]|
  }

  function At(b: Grid, c: Coord): int
    requires InBounds(b, c)
  {
    b[c.row][c.col]
  }

  /** The board with cell `c` overwritten by `x`. */
  function Set(b: Grid, c: Coord, x: int): (r: Grid)
    requires InBounds(b, c)
    ensures |r| == |b| && forall i :: 0 <= i < |b| ==> |r[i]| == |b[i]|
    ensures At(r, c) == x
    ensures forall d :: InBounds(b, d) && d != c ==> At(r, d) == At(b, d)
  {
    b[c.row := b[c.row][c.col := x]]
  }

  /** The board after `apply_move`: the destination takes the source's value, then the
      source is cleared. Whatever stood on the destination is gone. */
  function Applied(b: Grid, m: Move): (r: Grid)
    requires InBounds(b, m.src) && InBounds(b, m.dst)
    ensures |r| == |b| && forall i :: 0 <= i < |b| ==> |r[i]| == |b[i]|
    ensures WellFormed(b) ==> WellFormed(r) && Cols(r) == Cols(b)
  {
    Set(Set(b, m.dst, At(b, m.src)), m.src, 0)
  }

  /** The frame of `apply_move`: the source is empty, the destination holds the source's
      old value (unless both are the same cell), and every other cell is unchanged. */
  lemma AppliedFrame(b: Grid, m: Move, c: Coord)
    requires InBounds(b, m.src) && InBounds(b, m.dst) && InBounds(b, c)
    ensures At(Applied(b, m), c) ==
      if c == m.src then 0 else if c == m.dst then At(b, m.src) else At(b, c)
  {
  }

  /** Two boards of the same shape that agree on every cell are equal. */
  lemma {:induction false} GridExt(b1: Grid, b2: Grid)
    requires |b1| == |b2|
    requires forall i :: 0 <= i < |b1| ==> |b1[i]| == |b2[i]|
    requires forall c :: InBounds(b1, c) ==> At(b1, c) == At(b2, c)
    ensures b1 == b2
  {
    forall i | 0 <= i < |b1|
      ensures b1[i] == b2[i]
    {
      forall j | 0 <= j < |b1[i]|
        ensures b1[i][j] == b2[i][j]
      {
        assert At(b1, Coord(i, j)) == At(b2, Coord(i, j));
      }
    }
  }

  // ---------------------------------------------------------------------------
  // Weighted sums over the cells of a board

  /** Per-cell weights: `CountOf(v)` counts the cells holding `v`; `Advance(rows)` is the
      distance a piece still has to go on a board of `rows` rows (`rows-1-i` for a 1 on
      row `i`, `i` for a -1 on row `i`). */
  datatype Weight = CountOf(v: int) | Advance(rows: nat)

  function CellWeight(w: Weight, i: nat, x: int): int {
    match w
    case CountOf(v) => if x == v then 1 else 0
    case Advance(rows) => if x == 1 then rows - 1 - i else if x == -1 then i else 0
  }

  /** Sum of the weights of the cells of `r`, taken to be row `i`. */
  function RowSum(r: seq<int>, w: Weight, i: nat): int {
    if r == [] then 0 else RowSum(r[..|r| - 1], w, i) + CellWeight(w, i, r[|r| - 1])
  }

  /** Sum of the weights of the cells of rows `0..n-1`. */
  function RowsSum(b: Grid, w: Weight, n: nat): int
    requires n <= |b|
  {
    if n == 0 then 0 else RowsSum(b, w, n - 1) + RowSum(b[n - 1], w, n - 1)
  }

  function GridSum(b: Grid, w: Weight): int {
    RowsSum(b, w, |b|)
  }

  /** The number of cells holding `v`: the piece count of player `v`. */
  function PieceCount(b: Grid, v: int): int {
    GridSum(b, CountOf(v))
  }

  lemma {:induction false} RowSumUpdate(r: seq<int>, w: Weight, i: nat, j: nat, x: int)
    requires j < |r|
    ensures RowSum(r[j := x], w, i) == RowSum(r, w, i) - CellWeight(w, i, r[j]) + CellWeight(w, i, x)
  {
    var n := |r| - 1;
    if j == n {
      assert r[j := x][..n] == r[..n];
    } else {
      RowSumUpdate(r[..n], w, i, j, x);
      assert r[j := x][..n] == r[..n][j := x];
    }
  }

  lemma {:induction false} RowsSumUpdate(b: Grid, w: Weight, n: nat, c: Coord, x: int)
    requires n <= |b| && InBounds(b, c)
    ensures RowsSum(Set(b, c, x), w, n) == RowsSum(b, w, n)
      - (if c.row < n then CellWeight(w, c.row, At(b, c)) - CellWeight(w, c.row, x) else 0)
  {
    if n > 0 {
      RowsSumUpdate(b, w, n - 1, c, x);
      if c.row == n - 1 {
        RowSumUpdate(b[c.row], w, c.row, c.col, x);
      }
    }
  }

  /** Overwriting one cell changes a weighted sum by the difference of the two weights. */
  lemma GridSumUpdate(b: Grid, w: Weight, c: Coord, x: int)
    requires InBounds(b, c)
    ensures GridSum(Set(b, c, x), w) ==
      GridSum(b, w) - CellWeight(w, c.row, At(b, c)) + CellWeight(w, c.row, x)
  {
    RowsSumUpdate(b, w, |b|, c, x);
  }

  /** A row holds between none and all of its cells' worth of `v`. */
  lemma {:induction false} CountBounds(r: seq<int>, v: int, i: nat)
    ensures 0 <= RowSum(r, CountOf(v), i) <= |r|
  {
    if r != [] {
      CountBounds(r[..|r| - 1], v, i);
    }
  }

  /** The `CountOf(v)` sum of a row is the number of occurrences of `v` in it. */
  lemma {:induction false} CountIsMultiplicity(r: seq<int>, v: int, i: nat)
    ensures RowSum(r, CountOf(v), i) == multiset(r)[v]
  {
    if r != [] {
      var n := |r| - 1;
      CountIsMultiplicity(r[..n], v, i);
      assert r == r[..n] + [r[n]];
    }
  }

  lemma {:induction false} AdvanceRowNonNegative(r: seq<int>, rows: nat, i: nat)
    requires i < rows
    ensures RowSum(r, Advance(rows), i) >= 0
  {
    if r != [] {
      AdvanceRowNonNegative(r[..|r| - 1], rows, i);
    }
  }

  lemma {:induction false} AdvanceRowsNonNegative(b: Grid, n: nat)
    requires n <= |b|
    ensures RowsSum(b, Advance(|b|), n) >= 0
  {
    if n > 0 {
      AdvanceRowsNonNegative(b, n - 1);
      AdvanceRowNonNegative(b[n - 1], |b|, n - 1);
    }
  }

  /** The remaining advancement of all pieces: over the 1 pieces the number of rows left
      below them, plus over the -1 pieces the number of rows left above them. */
  function Measure(b: Grid): (r: nat) {
    AdvanceRowsNonNegative(b, |b|);
    GridSum(b, Advance(|b|))
  }

  // ---------------------------------------------------------------------------
  // The board as a two-dimensional array

  /** The value held by array `a`. */
  function View(a: array2<int>): (b: Grid)
    reads a
    ensures |b| == a.Length0 && forall i :: 0 <= i < |b| ==> |b[i]| == a.Length1
    ensures forall i, j :: 0 <= i < a.Length0 && 0 <= j < a.Length1 ==> b[i][j] == a[i, j]
    ensures a.Length0 >= 1 ==> WellFormed(b) && Cols(b) == a.Length1
  {
    seq(a.Length0, i requires 0 <= i < a.Length0 reads a =>
      seq(a.Length1, j requires 0 <= j < a.Length1 reads a => a[i, j]))
  }

  /** `apply_move`: overwrite the destination with the source's value, then clear the source. */
  method ApplyMove(a: array2<int>, m: Move)
    requires m.src.row < a.Length0 && m.src.col < a.Length1
    requires m.dst.row < a.Length0 && m.dst.col < a.Length1
    modifies a
    ensures a[m.src.row, m.src.col] == 0
    ensures m.src != m.dst ==> a[m.dst.row, m.dst.col] == old(a[m.src.row, m.src.col])
    ensures forall i, j ::
      0 <= i < a.Length0 && 0 <= j < a.Length1 && Coord(i, j) != m.src && Coord(i, j) != m.dst
      ==> a[i, j] == old(a[i, j])
    ensures View(a) == Applied(old(View(a)), m)
  {
    ghost var b := View(a);
    a[m.dst.row, m.dst.col] := a[m.src.row, m.src.col];
    a[m.src.row, m.src.col] := 0;
    forall c | InBounds(View(a), c)
      ensures At(View(a), c) == At(Applied(b, m), c)
    {
      AppliedFrame(b, m, c);
    }
    GridExt(View(a), Applied(b, m));
  }

  /** The row-by-row copy the search takes before trying a move. */
  method CopyBoard(a: array2<int>) returns (c: array2<int>)
    ensures fresh(c) && c.Length0 == a.Length0 && c.Length1 == a.Length1
    ensures View(c) == View(a)
  {
    c := new int[a.Length0, a.Length1];
    for i := 0 to a.Length0
      invariant forall r, k :: 0 <= r < i && 0 <= k < a.Length1 ==> c[r, k] == a[r, k]
    {
      for j := 0 to a.Length1
        invariant forall r, k :: 0 <= r < i && 0 <= k < a.Length1 ==> c[r, k] == a[r, k]
        invariant forall k :: 0 <= k < j ==> c[i, k] == a[i, k]
      {
        c[i, j] := a[i, j];
      }
    }
    GridExt(View(c), View(a));
  }
}
