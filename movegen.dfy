/** Move generation (`possible_moves`, `game_over`) and what a move does to the pieces. */
module MoveGen {
  import opened Board

  predicate IsStraight(m: Move) {
    m.dst.col == m.src.col
  }

  predicate IsDiagonal(m: Move) {
    m.dst.col == m.src.col + 1 || m.dst.col + 1 == m.src.col
  }

  /** The movement rule, stated on its own: a piece of `p` moves one row forward, to row
      `row + p`, which must lie on the board; straight ahead only onto an empty cell;
      one column to either side only onto a piece of `-p`, and only when that column is
      strictly between the first and the last column. */
  predicate Legal(b: Grid, p: int, m: Move)
    requires WellFormed(b)
  {
    InBounds(b, m.src) && InBounds(b, m.dst)
    && At(b, m.src) == p
    && m.dst.row == m.src.row + p
    && ((IsStraight(m) && At(b, m.dst) == 0)
        || (IsDiagonal(m) && 0 < m.dst.col < Cols(b) - 1 && At(b, m.dst) == -p))
  }

  /** 0 for the straight move, 1 for the right diagonal, 2 for the left diagonal. */
  function Kind(m: Move): nat {
    if m.dst.col == m.src.col then 0 else if m.dst.col == m.src.col + 1 then 1 else 2
  }

  /** Generation order: row-major by source cell, then straight, right, left. */
  predicate Before(m1: Move, m2: Move) {
    m1.src.row < m2.src.row
    || (m1.src.row == m2.src.row && m1.src.col < m2.src.col)
    || (m1.src == m2.src && Kind(m1) < Kind(m2))
  }

  predicate Ordered(ms: seq<Move>) {
    forall x, y :: 0 <= x < y < |ms| ==> Before(ms[x], ms[y])
  }

  lemma OrderedConcat(xs: seq<Move>, ys: seq<Move>)
    requires Ordered(xs) && Ordered(ys)
    requires forall m, n :: m in xs && n in ys ==> Before(m, n)
    ensures Ordered(xs + ys)
  {
    forall x, y | 0 <= x < y < |xs + ys|
      ensures Before((xs + ys)[x], (xs + ys)[y])
    {
      if y < |xs| {
      } else if x >= |xs| {
        assert (xs + ys)[x] == ys[x - |xs|] && (xs + ys)[y] == ys[y - |xs|];
      } else {
        assert (xs + ys)[x] in xs && (xs + ys)[y] in ys;
      }
    }
  }

  lemma ConcatAssoc3(ws: seq<Move>, xs: seq<Move>, ys: seq<Move>, zs: seq<Move>)
    ensures ws + xs + ys + zs == ws + (xs + ys + zs)
  {
  }


  // ---------------------------------------------------------------------------
  // Concatenating the moves of consecutive cells

  /** The move lists of `ss`, concatenated in order. */
  function Flatten(ss: seq<seq<Move>>): seq<Move> {
    if ss == [] then [] else Flatten(ss[..|ss| - 1]) + ss[|ss| - 1]
  }

  lemma FlattenSnoc(ss: seq<seq<Move>>, k: nat)
    requires k < |ss|
    ensures Flatten(ss[..k + 1]) == Flatten(ss[..k]) + ss[k]
  {
    assert ss[..k + 1][..k] == ss[..k];
  }

  /** Every move of every block is in the concatenation. */
  lemma {:induction false} FlattenMember(ss: seq<seq<Move>>, k: nat, m: Move)
    requires k < |ss| && m in ss[k]
    ensures m in Flatten(ss)
  {
    var n := |ss| - 1;
    if k < n {
      FlattenMember(ss[..n], k, m);
    }
  }

  /** Every move of the concatenation comes from some block. */
  lemma {:induction false} FlattenSource(ss: seq<seq<Move>>, m: Move)
    requires m in Flatten(ss)
    ensures exists k :: 0 <= k < |ss| && m in ss[k]
  {
    var n := |ss| - 1;
    if m !in ss[n] {
      FlattenSource(ss[..n], m);
      var k :| 0 <= k < n && m in ss[..n][k];
      assert ss[..n][k] == ss[k];
    }
  }

  /** Each block is in generation order, and every move of a block comes before every
      move of a later block. */
  predicate BlocksOrdered(ss: seq<seq<Move>>) {
    (forall k :: 0 <= k < |ss| ==> Ordered(ss[k]))
    && (forall k, l, x, y :: 0 <= k < l < |ss| && x in ss[k] && y in ss[l] ==> Before(x, y))
  }

  lemma {:induction false} FlattenOrdered(ss: seq<seq<Move>>)
    requires BlocksOrdered(ss)
    ensures Ordered(Flatten(ss))
  {
    if ss != [] {
      var n := |ss| - 1;
      var init := ss[..n];
      assert BlocksOrdered(init) by {
        forall k | 0 <= k < n
          ensures init[k] == ss[k]
        {
        }
      }
      FlattenOrdered(init);
      forall x, y | x in Flatten(init) && y in ss[n]
        ensures Before(x, y)
      {
        FlattenSource(init, x);
        var k :| 0 <= k < n && x in init[k];
        assert init[k] == ss[k];
      }
      OrderedConcat(Flatten(init), ss[n]);
    }
  }

  // ---------------------------------------------------------------------------
  // The generator

  /** The straight move of the piece on `(i, j)`, if the cell ahead is empty. */
  function StraightMove(b: Grid, p: int, i: nat, j: nat): (ms: seq<Move>)
    requires WellFormed(b) && i < |b| && j < Cols(b) && 0 <= i + p < |b|
    ensures |ms| <= 1 && (ms != [] <==> b[i + p][j] == 0)
    ensures forall m :: m in ms ==> m.src == Coord(i, j) && m.dst.row == i + p && IsStraight(m)
  {
    if b[i + p][j] == 0 then [Move(Coord(i, j), Coord(i + p, j))] else []
  }

  /** The diagonal move of the piece on `(i, j)` to column `col`, if that column is
      strictly inside the board and holds an enemy piece on the row ahead. */
  function DiagonalMove(b: Grid, p: int, i: nat, j: nat, col: int): (ms: seq<Move>)
    requires WellFormed(b) && i < |b| && j < Cols(b) && 0 <= i + p < |b|
    ensures |ms| <= 1 && (ms != [] <==> 0 < col < Cols(b) - 1 && b[i + p][col] == -p)
    ensures forall m :: m in ms ==> m.src == Coord(i, j) && m.dst == Coord(i + p, col)
  {
    if col < Cols(b) - 1 && col > 0 && b[i + p][col] == -p
    then [Move(Coord(i, j), Coord(i + p, col))] else []
  }

  /** The moves of the piece on `(i, j)`, if it belongs to `p`: straight, then right
      diagonal, then left diagonal. */
  function PieceMoves(b: Grid, p: int, i: nat, j: nat): (ms: seq<Move>)
    requires WellFormed(b) && i < |b| && j < Cols(b)
    ensures |ms| <= 3 && Ordered(ms)
    ensures forall m :: m in ms ==> m.src == Coord(i, j) && Legal(b, p, m)
  {
    if b[i][j] != p || i + p > |b| - 1 || i + p < 0 then []
    else StraightMove(b, p, i, j) + DiagonalMove(b, p, i, j, j + 1) + DiagonalMove(b, p, i, j, j - 1)
  }

  /** The move lists of the cells of row `i`, one per column. */
  function RowCells(b: Grid, p: int, i: nat): (ss: seq<seq<Move>>)
    requires WellFormed(b) && i < |b|
    ensures |ss| == Cols(b)
  {
    seq(Cols(b), j requires 0 <= j < Cols(b) => PieceMoves(b, p, i, j))
  }

  /** The move lists of the rows, one per row. */
  function RowBlocks(b: Grid, p: int): (ss: seq<seq<Move>>)
    requires WellFormed(b)
    ensures |ss| == |b|
  {
    seq(|b|, i requires 0 <= i < |b| => Flatten(RowCells(b, p, i)))
  }

  /** `possible_moves(state, player)` as a value: the moves of the pieces of `p`, scanned
      row by row and, within a row, column by column. */
  function Moves(b: Grid, p: int): seq<Move>
    requires WellFormed(b)
  {
    Flatten(RowBlocks(b, p))
  }

  lemma PieceMovesComplete(b: Grid, p: int, m: Move)
    requires WellFormed(b) && Legal(b, p, m)
    ensures m in PieceMoves(b, p, m.src.row, m.src.col)
  {
    var i, j, next := m.src.row, m.src.col, m.src.row + p;
    var src := Coord(i, j);
    assert m == Move(src, Coord(next, m.dst.col));
    if IsStraight(m) && At(b, m.dst) == 0 {
    } else if m.dst.col == j + 1 {
    } else {
      assert m.dst.col == j - 1;
    }
  }

  /** The generator emits exactly the legal moves. */
  lemma MovesExactlyLegal(b: Grid, p: int, m: Move)
    requires WellFormed(b)
    ensures m in Moves(b, p) <==> Legal(b, p, m)
  {
    var blocks := RowBlocks(b, p);
    if Legal(b, p, m) {
      var i, j := m.src.row, m.src.col;
      assert m in RowCells(b, p, i)[j] by {
        PieceMovesComplete(b, p, m);
      }
      FlattenMember(RowCells(b, p, i), j, m);
      FlattenMember(blocks, i, m);
    }
    if m in Moves(b, p) {
      FlattenSource(blocks, m);
      var i :| 0 <= i < |b| && m in blocks[i];
      FlattenSource(RowCells(b, p, i), m);
      var j :| 0 <= j < Cols(b) && m in RowCells(b, p, i)[j];
      assert m in PieceMoves(b, p, i, j);
    }
  }

  /** Every generated move is legal. */
  lemma MovesLegal(b: Grid, p: int)
    requires WellFormed(b)
    ensures forall m :: m in Moves(b, p) ==> Legal(b, p, m)
  {
    forall m | m in Moves(b, p)
      ensures Legal(b, p, m)
    {
      MovesExactlyLegal(b, p, m);
    }
  }

  /** Moves come out in row-major order of their source cell and, for one piece, straight
      before right diagonal before left diagonal. */
  lemma MovesOrdered(b: Grid, p: int)
    requires WellFormed(b)
    ensures Ordered(Moves(b, p))
  {
    var blocks := RowBlocks(b, p);
    forall i | 0 <= i < |b|
      ensures Ordered(blocks[i])
      ensures forall m: Move :: m in blocks[i] ==> m.src.row == i
    {
      var cells := RowCells(b, p, i);
      forall j, l, x, y | 0 <= j < l < |cells| && x in cells[j] && y in cells[l]
        ensures Before(x, y)
      {
        assert x in PieceMoves(b, p, i, j) && y in PieceMoves(b, p, i, l);
      }
      FlattenOrdered(cells);
      forall m: Move | m in blocks[i]
        ensures m.src.row == i
      {
        FlattenSource(cells, m);
        var j :| 0 <= j < |cells| && m in cells[j];
        assert m in PieceMoves(b, p, i, j);
      }
    }
    FlattenOrdered(blocks);
  }

  /** `game_over(state, player)`: the generator has nothing for `p`. */
  predicate GameOver(b: Grid, p: int)
    requires WellFormed(b)
  {
    |Moves(b, p)| == 0
  }

  /** The game is over for `p` exactly when no piece of `p` has a legal move. */
  lemma GameOverIff(b: Grid, p: int)
    requires WellFormed(b)
    ensures GameOver(b, p) <==> forall m :: !Legal(b, p, m)
  {
    if !GameOver(b, p) {
      MovesExactlyLegal(b, p, Moves(b, p)[0]);
    } else {
      forall m
        ensures !Legal(b, p, m)
      {
        MovesExactlyLegal(b, p, m);
      }
    }
  }

  /** A piece whose forward row is off the board, such as a piece on its last row, has
      no move. */
  lemma NoMoveOffTheBoard(b: Grid, p: int, c: Coord)
    requires WellFormed(b)
    requires c.row + p < 0 || c.row + p > |b| - 1
    ensures forall m :: m in Moves(b, p) ==> m.src != c
  {
    forall m | m in Moves(b, p)
      ensures m.src != c
    {
      MovesExactlyLegal(b, p, m);
    }
  }

  /** `possible_moves`: scan the grid row by row, column by column, and collect the
      straight, right-diagonal and left-diagonal moves of each piece of `player`. */
  method PossibleMoves(a: array2<int>, player: int) returns (moves: seq<Move>)
    requires a.Length0 >= 1
    ensures moves == Moves(View(a), player)
  {
    ghost var b := View(a);
    ghost var blocks := RowBlocks(b, player);
    moves := [];
    var rows, columns := a.Length0, a.Length1;
    for i := 0 to rows
      invariant moves == Flatten(blocks[..i])
    {
      ghost var done := moves;
      ghost var cells := RowCells(b, player, i);
      for j := 0 to columns
        invariant moves == done + Flatten(cells[..j])
      {
        ScanStep(done, cells, j);
        assert cells[j] == PieceMoves(b, player, i, j);
        var cell := a[i, j];
        if cell != player {
          continue;
        }
        var nextRow := i + 1 * player;
        if nextRow > rows - 1 || nextRow < 0 {
          continue;
        }
        moves := AppendPieceMoves(a, player, i, j, moves);
      }
      assert cells[..columns] == cells;
      FlattenSnoc(blocks, i);
    }
    assert blocks[..rows] == blocks;
  }

  /** One cell of the scan: the moves so far, followed by the cell's moves. */
  lemma ScanStep(done: seq<Move>, cells: seq<seq<Move>>, j: nat)
    requires j < |cells|
    ensures done + Flatten(cells[..j + 1]) == done + Flatten(cells[..j]) + cells[j]
  {
    FlattenSnoc(cells, j);
    var xs, ys := Flatten(cells[..j]), cells[j];
    assert done + (xs + ys) == done + xs + ys;
  }

  /** The inner part of `possible_moves` for a piece of `player` on `(i, j)` whose
      forward row is on the board: append its straight move if the cell ahead is
      empty, then each diagonal move whose column is strictly inside the board and
      whose target holds an enemy piece. */
  method AppendPieceMoves(a: array2<int>, player: int, i: nat, j: nat, moves: seq<Move>)
    returns (r: seq<Move>)
    requires i < a.Length0 && j < a.Length1 && a[i, j] == player
    requires 0 <= i + player < a.Length0
    ensures r == moves + PieceMoves(View(a), player, i, j)
  {
    ghost var b := View(a);
    var columns := a.Length1;
    var enemy := -1 * player;
    var nextRow := i + 1 * player;
    var attackColRight := j + 1;
    var attackColLeft := j - 1;
    var src := Coord(i, j);
    ghost var straight := StraightMove(b, player, i, j);
    ghost var right := DiagonalMove(b, player, i, j, j + 1);
    ghost var left := DiagonalMove(b, player, i, j, j - 1);
    r := moves;
    if a[nextRow, j] == 0 {
      r := r + [Move(src, Coord(nextRow, j))];
    }
    assert r == moves + straight;
    if attackColRight < columns - 1 && attackColRight > 0 {
      if a[nextRow, attackColRight] == enemy {
        r := r + [Move(src, Coord(nextRow, attackColRight))];
      }
    }
    assert r == moves + straight + right;
    if attackColLeft < columns - 1 && attackColLeft > 0 {
      if a[nextRow, attackColLeft] == enemy {
        r := r + [Move(src, Coord(nextRow, attackColLeft))];
      }
    }
    ConcatAssoc3(moves, straight, right, left);
  }

  // ---------------------------------------------------------------------------
  // What a generated move does to the pieces

  /** A generated move keeps the mover's piece count, and takes one enemy piece off the
      board exactly when it is diagonal: the total number of pieces is not preserved. */
  lemma MovePieceCounts(b: Grid, p: int, m: Move)
    requires WellFormed(b) && IsPlayer(p) && Legal(b, p, m)
    ensures PieceCount(Applied(b, m), p) == PieceCount(b, p)
    ensures PieceCount(Applied(b, m), -p) == PieceCount(b, -p) - (if IsDiagonal(m) then 1 else 0)
  {
    var b1 := Set(b, m.dst, p);
    assert At(b1, m.src) == p;
    GridSumUpdate(b, CountOf(p), m.dst, p);
    GridSumUpdate(b1, CountOf(p), m.src, 0);
    GridSumUpdate(b, CountOf(-p), m.dst, p);
    GridSumUpdate(b1, CountOf(-p), m.src, 0);
  }

  /** Every generated move strictly lowers the remaining advancement, so a search that
      follows generated moves ends even without a depth limit. */
  lemma MeasureDecreases(b: Grid, p: int, m: Move)
    requires WellFormed(b) && IsPlayer(p) && Legal(b, p, m)
    ensures Measure(Applied(b, m)) < Measure(b)
  {
    var w := Advance(|b|);
    var b1 := Set(b, m.dst, p);
    assert At(b1, m.src) == p;
    GridSumUpdate(b, w, m.dst, p);
    GridSumUpdate(b1, w, m.src, 0);
  }

  /** A capture takes a piece off the board: the total number of pieces is not preserved.
      On `[[1, 0, 0], [0, -1, 0]]` the piece of 1 captures diagonally into the middle
      column, and two pieces become one. */
  lemma CaptureLosesAPiece()
    ensures var b, m := [[1, 0, 0], [0, -1, 0]], Move(Coord(0, 0), Coord(1, 1));
      WellFormed(b) && Legal(b, 1, m)
      && PieceCount(b, 1) + PieceCount(b, -1) == 2
      && PieceCount(Applied(b, m), 1) + PieceCount(Applied(b, m), -1) == 1
  {
    var b, m := [[1, 0, 0], [0, -1, 0]], Move(Coord(0, 0), Coord(1, 1));
    assert [1, 0, 0][..2] == [1, 0] && [1, 0][..1] == [1] && [1][..0] == [];
    assert [0, -1, 0][..2] == [0, -1] && [0, -1][..1] == [0] && [0][..0] == [];
    MovePieceCounts(b, 1, m);
  }
}
