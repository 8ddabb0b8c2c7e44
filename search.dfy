/** The minimax search (`minimax`) and one turn of play. Player 1 maximises the score,
    player -1 minimises it; a move replaces the running best only when it is strictly
    better, so among equally good moves the first generated one is kept. */
module Search {
  import opened Board
  import opened MoveGen
  import opened Evaluation

  /** The search depth: a number of plies, or no limit at all (the top-level call). */
  datatype Depth = Unlimited | Limited(n: nat)

  /** One ply deeper; an unlimited depth stays unlimited. */
  function Next(d: Depth): (r: Depth)
    requires d != Limited(0)
    ensures d.Unlimited? <==> r.Unlimited?
    ensures d.Limited? ==> r.n + 1 == d.n
  {
    match d
    case Unlimited => Unlimited
    case Limited(n) => Limited(n - 1)
  }

  /** A search result: the move chosen, if any, and the score it leads to. */
  datatype Result = Result(best: Option<Move>, score: int)

  /** The score the running best starts from: below every score for player 1, above
      every score for player -1 (scores lie in `[-Cols(b), Cols(b)]`). */
  function Initial(b: Grid, p: int): (s: int)
    requires WellFormed(b) && IsPlayer(p)
    ensures p == 1 ==> s < -Cols(b)
    ensures p == -1 ==> s > Cols(b)
  {
    if p == 1 then -(Cols(b) + 1) else Cols(b) + 1
  }

  /** Score `x` is strictly better than score `y` for player `p`. */
  predicate Improves(p: int, x: int, y: int) {
    if p == 1 then x > y else x < y
  }

  predicate Terminal(b: Grid, depth: Depth, p: int)
    requires WellFormed(b)
  {
    depth == Limited(0) || GameOver(b, p)
  }

  /** The loop of `minimax` over moves `ms` with searched scores `ss`, from the running
      best `acc`: a move replaces the running best only when its score is strictly better. */
  function Choose(p: int, ms: seq<Move>, ss: seq<int>, acc: Result): (r: Result)
    requires |ms| == |ss|
    ensures r == acc || (Improves(p, r.score, acc.score) && r.best.Some? && r.best.value in ms && r.score in ss)
    ensures ms != [] && Improves(p, ss[0], acc.score) ==> Improves(p, r.score, acc.score)
  {
    if ms == [] then acc
    else
      var n := |ms| - 1;
      var r := Choose(p, ms[..n], ss[..n], acc);
      if Improves(p, ss[n], r.score) then Result(Some(ms[n]), ss[n]) else r
  }

  /** One more iteration of the loop: the running best after `k + 1` moves. */
  lemma ChooseStep(p: int, ms: seq<Move>, ss: seq<int>, k: nat, acc: Result)
    requires |ms| == |ss| && k < |ms|
    ensures var r := Choose(p, ms[..k], ss[..k], acc);
      Choose(p, ms[..k + 1], ss[..k + 1], acc)
        == if Improves(p, ss[k], r.score) then Result(Some(ms[k]), ss[k]) else r
  {
    assert ms[..k + 1][..k] == ms[..k] && ss[..k + 1][..k] == ss[..k];
  }

  /** `minimax(state, depth, player)` as a value. The recursion ends because every
      generated move lowers `Measure`, whatever the depth. */
  function Minimax(b: Grid, depth: Depth, p: int): (r: Result)
    requires WellFormed(b) && IsPlayer(p)
    ensures -Cols(b) <= r.score <= Cols(b)
    ensures r.best.None? <==> Terminal(b, depth, p)
    ensures r.best.None? ==> r.score == Score(b)
    ensures r.best.Some? ==> r.best.value in Moves(b, p) && Legal(b, p, r.best.value)
    decreases Measure(b), 2
  {
    if Terminal(b, depth, p) then Result(None, Score(b))
    else
      MovesLegal(b, p);
      var ms := Moves(b, p);
      Choose(p, ms, ChildScores(b, depth, p, ms), Result(None, Initial(b, p)))
  }

  /** The searched score of each move of `ms`, in order. */
  function ChildScores(b: Grid, depth: Depth, p: int, ms: seq<Move>): (ss: seq<int>)
    requires WellFormed(b) && IsPlayer(p) && depth != Limited(0)
    requires forall m :: m in ms ==> Legal(b, p, m)
    ensures |ss| == |ms|
    ensures forall k :: 0 <= k < |ss| ==> -Cols(b) <= ss[k] <= Cols(b)
    decreases Measure(b), 1
  {
    seq(|ms|, k requires 0 <= k < |ms| => ChildScore(b, depth, p, ms[k]))
  }

  /** The score of the position after move `m`, searched one ply deeper for the opponent. */
  function ChildScore(b: Grid, depth: Depth, p: int, m: Move): (s: int)
    requires WellFormed(b) && IsPlayer(p) && depth != Limited(0) && Legal(b, p, m)
    ensures -Cols(b) <= s <= Cols(b)
    decreases Measure(b), 0
  {
    MeasureDecreases(b, p, m);
    Minimax(Applied(b, m), Next(depth), -p).score
  }

  /** `r` is move `ms[k]` with its score `ss[k]`, no score of `ss` is strictly better for
      `p`, and every earlier score is strictly worse: `ms[k]` is the first best move. */
  predicate FirstBest(p: int, ms: seq<Move>, ss: seq<int>, k: int, r: Result)
    requires |ms| == |ss|
  {
    0 <= k < |ms|
    && r == Result(Some(ms[k]), ss[k])
    && (forall l :: 0 <= l < |ss| ==> !Improves(p, ss[l], r.score))
    && (forall l :: 0 <= l < k ==> Improves(p, r.score, ss[l]))
  }

  /** The loop either keeps its starting best, when no score beats it, or ends on the
      first of the best moves. */
  lemma {:induction false} ChooseFirstBest(p: int, ms: seq<Move>, ss: seq<int>, acc: Result)
    requires |ms| == |ss|
    ensures var r := Choose(p, ms, ss, acc);
      (r == acc && forall l :: 0 <= l < |ss| ==> !Improves(p, ss[l], acc.score))
      || (Improves(p, r.score, acc.score) && exists k :: FirstBest(p, ms, ss, k, r))
  {
    if ms != [] {
      var n := |ms| - 1;
      var ms0, ss0 := ms[..n], ss[..n];
      assert forall l :: 0 <= l < n ==> ss0[l] == ss[l];
      ChooseFirstBest(p, ms0, ss0, acc);
      var r0 := Choose(p, ms0, ss0, acc);
      if r0 == acc && forall l :: 0 <= l < n ==> !Improves(p, ss0[l], acc.score) {
        if Improves(p, ss[n], acc.score) {
          assert FirstBest(p, ms, ss, n, Choose(p, ms, ss, acc));
        }
      } else {
        var k :| FirstBest(p, ms0, ss0, k, r0);
        if Improves(p, ss[n], r0.score) {
          assert FirstBest(p, ms, ss, n, Choose(p, ms, ss, acc));
        } else {
          assert FirstBest(p, ms, ss, k, Choose(p, ms, ss, acc));
        }
      }
    }
  }

  /** Away from a terminal position, `minimax` returns the first of the best moves and its
      score: no generated move's searched score is strictly better for `p`, every move
      generated before it scores strictly worse, and the score is that move's searched
      score. */
  lemma MinimaxChoosesFirstBest(b: Grid, depth: Depth, p: int)
    requires WellFormed(b) && IsPlayer(p) && !Terminal(b, depth, p)
    ensures (forall m :: m in Moves(b, p) ==> Legal(b, p, m))
      && exists k :: FirstBest(p, Moves(b, p), ChildScores(b, depth, p, Moves(b, p)), k, Minimax(b, depth, p))
  {
    MovesLegal(b, p);
    var ms := Moves(b, p);
    var acc := Result(None, Initial(b, p));
    assert Minimax(b, depth, p) == Choose(p, ms, ChildScores(b, depth, p, ms), acc);
    ChooseFirstBest(p, ms, ChildScores(b, depth, p, ms), acc);
  }

  /** `game_over`, which runs the generator. */
  method IsGameOver(a: array2<int>, player: int) returns (over: bool)
    requires a.Length0 >= 1
    ensures over == GameOver(View(a), player)
  {
    var moves := PossibleMoves(a, player);
    over := |moves| == 0;
  }

  /** `minimax`: at depth 0 or when `player` cannot move, the evaluation with no move;
      otherwise the best of the generated moves. The caller's board is never modified. */
  method MinimaxSearch(a: array2<int>, depth: Depth, player: int) returns (r: Result)
    requires a.Length0 >= 1 && IsPlayer(player)
    ensures r == Minimax(View(a), depth, player)
    decreases Measure(View(a)), 2
  {
    if depth == Limited(0) {
      var score := Evaluate(a);
      return Result(None, score);
    }
    var over := IsGameOver(a, player);
    if over {
      var score := Evaluate(a);
      return Result(None, score);
    }
    var moves := PossibleMoves(a, player);
    MovesLegal(View(a), player);
    r := SearchMoves(a, depth, player, moves);
  }

  /** The loop of `minimax`: try each move on a copy of the board, search the copy for
      the opponent one ply deeper, and keep the first strictly better result, starting
      from a running best that every score beats. */
  method SearchMoves(a: array2<int>, depth: Depth, player: int, moves: seq<Move>) returns (best: Result)
    requires a.Length0 >= 1 && IsPlayer(player) && depth != Limited(0)
    requires forall m :: m in moves ==> Legal(View(a), player, m)
    ensures best == Choose(player, moves, ChildScores(View(a), depth, player, moves),
                           Result(None, Initial(View(a), player)))
    decreases Measure(View(a)), 1
  {
    ghost var b := View(a);
    ghost var scores := ChildScores(b, depth, player, moves);
    best := Result(None, if player == 1 then -(a.Length1 + 1) else a.Length1 + 1);
    for k := 0 to |moves|
      invariant best == Choose(player, moves[..k], scores[..k], Result(None, Initial(b, player)))
    {
      var move := moves[k];
      ChooseStep(player, moves, scores, k, Result(None, Initial(b, player)));
      var score := SearchChild(a, depth, player, move);
      assert score == Result(Some(move), scores[k]);
      if player == 1 {
        if score.score > best.score {
          best := score;
        }
      } else {
        if score.score < best.score {
          best := score;
        }
      }
    }
    assert moves[..|moves|] == moves && scores[..|moves|] == scores;
  }

  /** The body of the loop of `minimax` for move `m`: play it on a row-by-row copy of the
      board, search the copy for the opponent one ply deeper, and label the result with
      `m`. */
  method SearchChild(a: array2<int>, depth: Depth, player: int, m: Move) returns (r: Result)
    requires a.Length0 >= 1 && IsPlayer(player) && depth != Limited(0)
    requires Legal(View(a), player, m)
    ensures r == Result(Some(m), ChildScore(View(a), depth, player, m))
    decreases Measure(View(a)), 0
  {
    ghost var b := View(a);
    var newState := CopyBoard(a);
    ApplyMove(newState, m);
    MeasureDecreases(b, player, m);
    r := MinimaxSearch(newState, Next(depth), -player);
    r := r.(best := Some(m));
  }

  /** One turn of the game as the program plays it: search the board for player 1 with no
      depth limit, then play the chosen move on the board. The position must not be
      terminal for player 1, since there would be no move to play. */
  method PlayTurn(a: array2<int>) returns (r: Result)
    requires a.Length0 >= 1 && !GameOver(View(a), 1)
    modifies a
    ensures r == Minimax(old(View(a)), Unlimited, 1) && r.best.Some?
    ensures View(a) == Applied(old(View(a)), r.best.value)
  {
    r := MinimaxSearch(a, Unlimited, 1);
    MovesLegal(View(a), 1);
    ApplyMove(a, r.best.value);
  }

  // ---------------------------------------------------------------------------
  // Two small positions

  /** On `[[0, -1, 0], [0, 0, 0], [0, 1, 0]]` the only piece of 1 already stands on the
      last row, so player 1 has no move: the search stops at once, with no move and the
      score 1 - 1 = 0. */
  lemma HomePieceCannotMove(b: Grid)
    requires b == [[0, -1, 0], [0, 0, 0], [0, 1, 0]]
    ensures WellFormed(b) && Minimax(b, Limited(1), 1) == Result(None, 0)
  {
    forall m
      ensures !Legal(b, 1, m)
    {
      if InBounds(b, m.src) && At(b, m.src) == 1 {
        assert m.src == Coord(2, 1);
      }
    }
    GameOverIff(b, 1);
    ScoreIsCountDifference(b);
    assert multiset(b[2])[1] == 1 && multiset(b[0])[-1] == 1;
  }

  /** On `[[0, 0, 0], [0, 1, 0], [0, 0, 0]]` player 1 has one legal move. */
  lemma OnlyMoveOnSecondRow(b: Grid, m: Move)
    requires b == [[0, 0, 0], [0, 1, 0], [0, 0, 0]] && Legal(b, 1, m)
    ensures m == Move(Coord(1, 1), Coord(2, 1))
  {
  }

  /** On `[[0, 0, 0], [0, 1, 0], [0, 0, 0]]` stepping the piece of 1 onto the last row
      leaves player -1 without pieces, so the opponent's search stops at once, at any
      depth, and the position is worth 1. */
  lemma AdvanceHomeChildScore(b: Grid, m: Move, depth: Depth)
    requires b == [[0, 0, 0], [0, 1, 0], [0, 0, 0]] && m == Move(Coord(1, 1), Coord(2, 1))
    requires depth != Limited(0)
    ensures WellFormed(b) && Legal(b, 1, m) && ChildScore(b, depth, 1, m) == 1
  {
    var after := [[0, 0, 0], [0, 0, 0], [0, 1, 0]];
    GridExt(Applied(b, m), after);
    forall m'
      ensures !Legal(after, -1, m')
    {
    }
    GameOverIff(after, -1);
    ScoreIsCountDifference(after);
    assert multiset(after[2])[1] == 1 && multiset(after[0])[-1] == 0;
  }

  /** On `[[0, 0, 0], [0, 1, 0], [0, 0, 0]]` the piece of 1 can step onto the last row;
      a search of any depth but 0 picks that move and scores the position 1. */
  lemma AdvanceHomeScores(b: Grid, depth: Depth)
    requires b == [[0, 0, 0], [0, 1, 0], [0, 0, 0]] && depth != Limited(0)
    ensures WellFormed(b) && Minimax(b, depth, 1) == Result(Some(Move(Coord(1, 1), Coord(2, 1))), 1)
  {
    AdvanceHomeChildScore(b, Move(Coord(1, 1), Coord(2, 1)), depth);
    GameOverIff(b, 1);
    MinimaxChoosesFirstBest(b, depth, 1);
    OnlyMoveOnSecondRow(b, Minimax(b, depth, 1).best.value);
  }

  /** The same position searched as the program's turn does, with no depth limit. */
  lemma AdvanceHomeUnlimited(b: Grid)
    requires b == [[0, 0, 0], [0, 1, 0], [0, 0, 0]]
    ensures WellFormed(b) && Minimax(b, Unlimited, 1) == Result(Some(Move(Coord(1, 1), Coord(2, 1))), 1)
  {
    AdvanceHomeScores(b, Unlimited);
  }
}
