/** What `get_move`'s iterative deepening returns: the best of the completed
    depths under strict improvement, the same move for both strategies, and a
    clock that alpha-beta never lets reach fewer depths than minimax. */
module AgentProofs {
  import opened Scores
  import opened GameTree
  import Search
  import SearchProofs
  import opened Agent

  /** The kept result scores at least as much as every completed depth, and it is
      either the initial (-inf, (-1, -1)) or the result of the first depth that
      reached that score, a score above -inf. */
  lemma {:induction false} BestOverIsFirstMaximum(s: Strategy, g: Game, eval: Evaluator, k: nat)
    ensures forall d :: 1 <= d <= k ==> Le(Searched(s, g, d, eval).score, BestOver(s, g, eval, k).score)
    ensures BestOver(s, g, eval, k) == SearchResult(NegInf, NoMove) || FirstToReach(s, g, eval, k, BestOver(s, g, eval, k))
  {
    BestOverAtLeast(s, g, eval, k);
    if k > 0 {
      BestOverIsFirstMaximum(s, g, eval, k - 1);
      var best := BestOver(s, g, eval, k - 1);
      if Lt(best.score, Searched(s, g, k, eval).score) {
        ReplacedIsFirst(s, g, eval, k, best);
      } else if best != SearchResult(NegInf, NoMove) {
        FirstToReachExtends(s, g, eval, k - 1, best);
      }
    }
  }

  /** The kept score is at least the score of every completed depth. */
  lemma {:induction false} BestOverAtLeast(s: Strategy, g: Game, eval: Evaluator, k: nat)
    ensures forall d :: 1 <= d <= k ==> Le(Searched(s, g, d, eval).score, BestOver(s, g, eval, k).score)
  {
    if k > 0 {
      BestOverAtLeast(s, g, eval, k - 1);
      var best := BestOver(s, g, eval, k - 1);
      var r := Searched(s, g, k, eval);
      forall d | 1 <= d <= k
        ensures Le(Searched(s, g, d, eval).score, BestOver(s, g, eval, k).score)
      {
        LtTotal(Searched(s, g, d, eval).score, best.score, r.score);
      }
    }
  }

  /** The kept result is what depth j returned, that score is above -inf, and
      every depth before j scored strictly less. */
  ghost predicate FirstToReach(s: Strategy, g: Game, eval: Evaluator, k: nat, best: SearchResult) {
    exists j :: 1 <= j <= k && best == Searched(s, g, j, eval) && Lt(NegInf, best.score) &&
                forall d :: 1 <= d < j ==> Lt(Searched(s, g, d, eval).score, best.score)
  }

  lemma FirstToReachExtends(s: Strategy, g: Game, eval: Evaluator, k: nat, best: SearchResult)
    requires FirstToReach(s, g, eval, k, best)
    ensures FirstToReach(s, g, eval, k + 1, best)
  {
    var j :| 1 <= j <= k && best == Searched(s, g, j, eval) && Lt(NegInf, best.score) &&
             forall d :: 1 <= d < j ==> Lt(Searched(s, g, d, eval).score, best.score);
  }

  /** Depth k replaces the kept result only by scoring strictly more than every
      earlier depth, hence more than -inf. */
  lemma ReplacedIsFirst(s: Strategy, g: Game, eval: Evaluator, k: nat, best: SearchResult)
    requires k > 0 && best == BestOver(s, g, eval, k - 1)
    requires forall d :: 1 <= d <= k - 1 ==> Le(Searched(s, g, d, eval).score, best.score)
    requires best == SearchResult(NegInf, NoMove) || FirstToReach(s, g, eval, k - 1, best)
    requires Lt(best.score, Searched(s, g, k, eval).score)
    ensures FirstToReach(s, g, eval, k, Searched(s, g, k, eval))
  {
    var r := Searched(s, g, k, eval);
    if best != SearchResult(NegInf, NoMove) {
      var j :| 1 <= j <= k - 1 && best == Searched(s, g, j, eval) && Lt(NegInf, best.score) &&
               forall d :: 1 <= d < j ==> Lt(Searched(s, g, d, eval).score, best.score);
      LtTotal(NegInf, best.score, r.score);
    } else {
      assert Lt(NegInf, r.score);
    }
    forall d | 1 <= d < k
      ensures Lt(Searched(s, g, d, eval).score, r.score)
    {
      LtTotal(Searched(s, g, d, eval).score, best.score, r.score);
    }
  }

  /** When every completed depth scored -inf, the kept move is (-1, -1). */
  lemma AllLostKeepsNoMove(s: Strategy, g: Game, eval: Evaluator, k: nat)
    requires forall d :: 1 <= d <= k ==> Searched(s, g, d, eval).score == NegInf
    ensures BestOver(s, g, eval, k) == SearchResult(NegInf, NoMove)
  {
    BestOverIsFirstMaximum(s, g, eval, k);
  }


  /** Depth monotonicity: once depth 1 has completed, the move kept scores at
      least what the depth-1 search scored. */
  lemma DeepeningNeverWorseThanDepthOne(s: Strategy, g: Game, eval: Evaluator, k: nat)
    requires k >= 1
    ensures Le(Searched(s, g, 1, eval).score, BestOver(s, g, eval, k).score)
  {
    BestOverIsFirstMaximum(s, g, eval, k);
  }

  /** Both strategies search to the same score and move at every depth. */
  lemma SearchedAgree(g: Game, depth: int, eval: Evaluator)
    ensures Searched(UseAlphaBeta, g, depth, eval) == Searched(UseMinimax, g, depth, eval)
  {
    SearchProofs.AlphaBetaMatchesMinimax(g, depth, true, eval);
  }

  /** So the deepening loop keeps the same result under both strategies. */
  lemma {:induction false} BestOverAgree(g: Game, eval: Evaluator, k: nat)
    ensures BestOver(UseAlphaBeta, g, eval, k) == BestOver(UseMinimax, g, eval, k)
  {
    if k > 0 {
      BestOverAgree(g, eval, k - 1);
      SearchedAgree(g, k, eval);
    }
  }

  /** A later clock completes at least as many depths. */
  lemma {:induction false} CompletedMonotone(s: Strategy, g: Game, eval: Evaluator, d: nat, budget: int, budget': int)
    requires budget <= budget'
    ensures Completed(s, g, eval, d, budget) <= Completed(s, g, eval, d, budget')
    decreases budget' + 1
  {
    var cost := SearchCost(s, g, d, eval);
    if budget >= cost - 1 {
      CompletedMonotone(s, g, eval, d + 1, budget - cost, budget' - cost);
    }
  }

  /** With the same clock, alpha-beta completes at least as many depths as minimax. */
  lemma {:induction false} AlphaBetaCompletesAtLeastAsDeep(g: Game, eval: Evaluator, d: nat, budget: int)
    ensures Completed(UseMinimax, g, eval, d, budget) <= Completed(UseAlphaBeta, g, eval, d, budget)
    decreases budget + 1
  {
    var mc := SearchCost(UseMinimax, g, d, eval);
    var ac := SearchCost(UseAlphaBeta, g, d, eval);
    SearchProofs.AlphaBetaCostBound(g, d, NegInf, PosInf, true, eval);
    if budget >= mc - 1 {
      AlphaBetaCompletesAtLeastAsDeep(g, eval, d + 1, budget - mc);
      CompletedMonotone(UseAlphaBeta, g, eval, d + 1, budget - mc, budget - ac);
    }
  }

  // ------------------------------------------------------------------------
  // A round that completes with a lower score does not replace the kept move.

  const MoveA: Move := Move(0, 0)
  const MoveB: Move := Move(0, 1)

  /** Root with two moves: after a, the opponent's only reply leads to board 0;
      after b, to board 3. */
  function TwoRoundTree(): Game {
    Game(0, [Ply(MoveA, Game(5, [Ply(Move(1, 0), Game(0, []))])),
             Ply(MoveB, Game(1, [Ply(Move(1, 1), Game(3, []))]))])
  }

  function BoardScore(): Evaluator {
    (g: Game, p: Player) => Fin(g.board)
  }

  /** Seven milliseconds above the threshold complete depths 1 and 2; depth 2
      prefers b, but its score 3 does not beat depth 1's 5, so a is returned:
      the move is not always the last completed depth's. */
  lemma KeepsEarlierDepthMove()
    ensures Completed(UseMinimax, TwoRoundTree(), BoardScore(), 1, 7) == 2
    ensures Searched(UseMinimax, TwoRoundTree(), 1, BoardScore()) == SearchResult(Fin(5), MoveA)
    ensures Searched(UseMinimax, TwoRoundTree(), 2, BoardScore()) == SearchResult(Fin(3), MoveB)
    ensures BestOver(UseMinimax, TwoRoundTree(), BoardScore(), 2) == SearchResult(Fin(5), MoveA)
  {
    var g := TwoRoundTree();
    var e := BoardScore();
    assert Search.MinimaxCost(g, 1) == 3;
    assert Search.MinimaxCost(g.moves[0].next, 1) == 2;
    assert Search.MinimaxCost(g.moves[1].next, 1) == 2;
    assert Search.MinimaxCost(g, 2) == 5;
    assert Search.MinimaxCost(g.moves[0].next, 2) == 2;
    assert Search.MinimaxCost(g.moves[1].next, 2) == 2;
    assert Search.MinimaxCost(g, 3) == 5;
    assert Search.Minimax(g.moves[0].next, 1, false, e) == SearchResult(Fin(0), Move(1, 0));
    assert Search.Minimax(g.moves[1].next, 1, false, e) == SearchResult(Fin(3), Move(1, 1));
  }
}
