/** What the two searches promise: minimax picks the first best child, alpha-beta
    stays within its window of the minimax score and, from the full window,
    returns exactly what minimax returns while making no more search calls. */
module SearchProofs {
  import opened Scores
  import opened GameTree
  import opened Search

  // ------------------------------------------------------------ minimax fold

  /** The minimax fold never moves away from its running best. */
  lemma {:induction false} MinimaxFromMonotone(g: Game, d: int, maximizing: bool, eval: Evaluator, i: nat, best: SearchResult)
    requires i <= |g.moves|
    ensures var r := MinimaxFrom(g, d, maximizing, eval, i, best).score;
      if maximizing then Le(best.score, r) else Le(r, best.score)
    decreases |g.moves| - i
  {
    if i < |g.moves| {
      var v := Minimax(g.moves[i].next, d, !maximizing, eval).score;
      var best' := Update(maximizing, best, v, g.moves[i].move);
      MinimaxFromMonotone(g, d, maximizing, eval, i + 1, best');
      LtTotal(best.score, best'.score, MinimaxFrom(g, d, maximizing, eval, i + 1, best').score);
    }
  }

  /** Once the running best is the best score there is (+inf when maximizing,
      -inf when minimizing), no later child replaces it. */
  lemma {:induction false} MinimaxFromSettled(g: Game, d: int, maximizing: bool, eval: Evaluator, i: nat, best: SearchResult)
    requires i <= |g.moves|
    requires best.score == Initial(!maximizing)
    ensures MinimaxFrom(g, d, maximizing, eval, i, best) == best
    decreases |g.moves| - i
  {
    if i < |g.moves| {
      MinimaxFromSettled(g, d, maximizing, eval, i + 1, best);
    }
  }

  /** best is what the minimax loop can hold after the first n children: no
      child seen so far beats it, and it is either the initial result or the
      first of those children to reach its score. */
  ghost predicate SelectedAmong(g: Game, d: int, maximizing: bool, eval: Evaluator, n: nat, best: SearchResult)
    requires n <= |g.moves|
  {
    && (forall j :: 0 <= j < n ==> !Improves(maximizing, ChildScore(g, j, d, maximizing, eval), best.score))
    && (best == Unscored(maximizing) ||
        exists k :: 0 <= k < n && best == SearchResult(ChildScore(g, k, d, maximizing, eval), g.moves[k].move)
                    && Improves(maximizing, best.score, Initial(maximizing))
                    && forall j :: 0 <= j < k ==> Improves(maximizing, best.score, ChildScore(g, j, d, maximizing, eval)))
  }

  lemma {:induction false} MinimaxFromSelects(g: Game, d: int, maximizing: bool, eval: Evaluator, i: nat, best: SearchResult)
    requires i <= |g.moves|
    requires SelectedAmong(g, d, maximizing, eval, i, best)
    ensures SelectedAmong(g, d, maximizing, eval, |g.moves|, MinimaxFrom(g, d, maximizing, eval, i, best))
    decreases |g.moves| - i
  {
    if i < |g.moves| {
      var v := ChildScore(g, i, d, maximizing, eval);
      if Improves(maximizing, v, best.score) {
        SelectsImproving(g, d, maximizing, eval, i, best);
      } else {
        SelectsKept(g, d, maximizing, eval, i, best);
      }
      MinimaxFromSelects(g, d, maximizing, eval, i + 1, Update(maximizing, best, v, g.moves[i].move));
    }
  }

  /** A child that improves on the running best becomes the first to reach its score. */
  lemma SelectsImproving(g: Game, d: int, maximizing: bool, eval: Evaluator, i: nat, best: SearchResult)
    requires i < |g.moves|
    requires SelectedAmong(g, d, maximizing, eval, i, best)
    requires Improves(maximizing, ChildScore(g, i, d, maximizing, eval), best.score)
    ensures SelectedAmong(g, d, maximizing, eval, i + 1,
      Update(maximizing, best, ChildScore(g, i, d, maximizing, eval), g.moves[i].move))
  {
    var v := ChildScore(g, i, d, maximizing, eval);
    var best' := Update(maximizing, best, v, g.moves[i].move);
    forall j | 0 <= j < i
      ensures Improves(maximizing, v, ChildScore(g, j, d, maximizing, eval))
    {
      LtTotal(ChildScore(g, j, d, maximizing, eval), best.score, v);
      LtTotal(v, best.score, ChildScore(g, j, d, maximizing, eval));
    }
    forall j | 0 <= j <= i
      ensures !Improves(maximizing, ChildScore(g, j, d, maximizing, eval), v)
    {
      LtTotal(ChildScore(g, j, d, maximizing, eval), v, best.score);
      LtTotal(v, ChildScore(g, j, d, maximizing, eval), best.score);
    }
    LtTotal(best.score, v, Initial(maximizing));
    LtTotal(v, best.score, Initial(maximizing));
    LtTotal(Initial(maximizing), best.score, v);
    assert best' == SearchResult(ChildScore(g, i, d, maximizing, eval), g.moves[i].move);
  }

  /** A child that does not improve on the running best leaves it in place. */
  lemma SelectsKept(g: Game, d: int, maximizing: bool, eval: Evaluator, i: nat, best: SearchResult)
    requires i < |g.moves|
    requires SelectedAmong(g, d, maximizing, eval, i, best)
    requires !Improves(maximizing, ChildScore(g, i, d, maximizing, eval), best.score)
    ensures SelectedAmong(g, d, maximizing, eval, i + 1,
      Update(maximizing, best, ChildScore(g, i, d, maximizing, eval), g.moves[i].move))
  {
    if best != Unscored(maximizing) {
      var k :| 0 <= k < i && best == SearchResult(ChildScore(g, k, d, maximizing, eval), g.moves[k].move)
               && Improves(maximizing, best.score, Initial(maximizing))
               && forall j :: 0 <= j < k ==> Improves(maximizing, best.score, ChildScore(g, j, d, maximizing, eval));
      assert 0 <= k < i + 1;
    }
  }

  /** At depth d + 1 > 0, minimax returns the best child score (the maximum when
      maximizing, the minimum otherwise) with the first legal move reaching it;
      it returns the initial score and (-1, -1) exactly when no child improves
      on that initial score, in particular when there are no legal moves. */
  lemma MinimaxSelectsFirstBest(g: Game, d: nat, maximizing: bool, eval: Evaluator)
    ensures var r := Minimax(g, d + 1, maximizing, eval);
      && (forall i :: 0 <= i < |g.moves| ==> !Improves(maximizing, ChildScore(g, i, d, maximizing, eval), r.score))
      && (r == Unscored(maximizing) <==>
            forall i :: 0 <= i < |g.moves| ==> ChildScore(g, i, d, maximizing, eval) == Initial(maximizing))
      && (r != Unscored(maximizing) ==>
            exists k :: 0 <= k < |g.moves| && r == SearchResult(ChildScore(g, k, d, maximizing, eval), g.moves[k].move)
              && forall j :: 0 <= j < k ==> Improves(maximizing, r.score, ChildScore(g, j, d, maximizing, eval)))
  {
    var r := Minimax(g, d + 1, maximizing, eval);
    MinimaxFromSelects(g, d, maximizing, eval, 0, Unscored(maximizing));
    assert SelectedAmong(g, d, maximizing, eval, |g.moves|, r);
    if r == Unscored(maximizing) {
      forall i | 0 <= i < |g.moves|
        ensures ChildScore(g, i, d, maximizing, eval) == Initial(maximizing)
      {
        LtTotal(ChildScore(g, i, d, maximizing, eval), Initial(maximizing), Initial(maximizing));
      }
    } else {
      var k :| 0 <= k < |g.moves| && r == SearchResult(ChildScore(g, k, d, maximizing, eval), g.moves[k].move)
               && Improves(maximizing, r.score, Initial(maximizing))
               && forall j :: 0 <= j < k ==> Improves(maximizing, r.score, ChildScore(g, j, d, maximizing, eval));
      assert ChildScore(g, k, d, maximizing, eval) != Initial(maximizing);
    }
  }

  // ------------------------------------------------------ alpha-beta window

  /** The classical relation between an alpha-beta score v and the minimax
      score m for the window (alpha, beta): a minimax score at or below alpha
      is reported at or below alpha, one strictly inside the window exactly, and
      one at or above beta at or above beta. */
  ghost predicate Bounded(v: Ext, m: Ext, alpha: Ext, beta: Ext) {
    && (Le(m, alpha) ==> Le(v, alpha))
    && (Lt(alpha, m) && Lt(m, beta) ==> v == m)
    && (Le(beta, m) ==> Le(beta, v))
  }

  /** Alpha-beta correctness (Knuth and Moore, 1975) for this implementation:
      for every non-empty window, at every depth, the alpha-beta score is
      Bounded by the minimax score. */
  lemma {:induction false} AlphaBetaBounded(g: Game, depth: int, alpha: Ext, beta: Ext, maximizing: bool, eval: Evaluator)
    requires Lt(alpha, beta)
    ensures Bounded(AlphaBeta(g, depth, alpha, beta, maximizing, eval).score,
                    Minimax(g, depth, maximizing, eval).score, alpha, beta)
    decreases g, 1
  {
    if depth > 0 {
      var init := Unscored(maximizing);
      if maximizing {
        AlphaBetaFromBoundedMax(g, depth - 1, eval, 0, alpha, alpha, beta, init, init);
      } else {
        AlphaBetaFromBoundedMin(g, depth - 1, eval, 0, alpha, beta, beta, init, init);
      }
    }
  }

  /** The loop of a maximizing node: alpha is the node's alpha raised to the
      running best, and that raised alpha is the same for the minimax best. */
  lemma {:induction false} AlphaBetaFromBoundedMax(g: Game, d: int, eval: Evaluator, i: nat,
                                                   alpha0: Ext, alpha: Ext, beta: Ext, best: SearchResult, mbest: SearchResult)
    requires i <= |g.moves|
    requires Lt(alpha0, beta)
    requires alpha == Max(alpha0, best.score) == Max(alpha0, mbest.score)
    requires Lt(best.score, beta) && Lt(mbest.score, beta)
    ensures Bounded(AlphaBetaFrom(g, d, true, eval, i, alpha, beta, best).score,
                    MinimaxFrom(g, d, true, eval, i, mbest).score, alpha0, beta)
    decreases g, 0, |g.moves| - i
  {
    if i == |g.moves| {
      LtTotal(alpha0, best.score, mbest.score);
      LtTotal(alpha0, mbest.score, best.score);
      LtTotal(best.score, alpha0, beta);
    } else {
      var c := g.moves[i].next;
      var m := g.moves[i].move;
      assert Lt(alpha, beta) by { LtTotal(alpha0, best.score, beta); }
      AlphaBetaBounded(c, d, alpha, beta, false, eval);
      var v := AlphaBeta(c, d, alpha, beta, false, eval).score;
      var mc := Minimax(c, d, false, eval).score;
      var best' := Update(true, best, v, m);
      var mbest' := Update(true, mbest, mc, m);
      LtTotal(alpha, beta, v);
      LtTotal(alpha, mc, beta);
      LtTotal(alpha0, alpha, v);
      LtTotal(best.score, alpha, v);
      LtTotal(mbest.score, alpha, mc);
      LtTotal(alpha0, mbest.score, mc);
      LtTotal(alpha0, best.score, v);
      if CutOff(true, best'.score, alpha, beta) {
        assert best'.score == v;
        assert Le(beta, mc);
        MinimaxFromMonotone(g, d, true, eval, i + 1, mbest');
        var r := MinimaxFrom(g, d, true, eval, i + 1, mbest').score;
        LtTotal(beta, mc, r);
        LtTotal(mc, mbest'.score, r);
        LtTotal(alpha0, beta, r);
        LtTotal(beta, mbest'.score, r);
      } else {
        assert Lt(mc, beta);
        AlphaBetaFromBoundedMax(g, d, eval, i + 1, alpha0, Max(alpha, best'.score), beta, best', mbest');
      }
    }
  }

  /** The loop of a minimizing node, symmetric to AlphaBetaFromBoundedMax. */
  lemma {:induction false} AlphaBetaFromBoundedMin(g: Game, d: int, eval: Evaluator, i: nat,
                                                   alpha: Ext, beta0: Ext, beta: Ext, best: SearchResult, mbest: SearchResult)
    requires i <= |g.moves|
    requires Lt(alpha, beta0)
    requires beta == Min(beta0, best.score) == Min(beta0, mbest.score)
    requires Lt(alpha, best.score) && Lt(alpha, mbest.score)
    ensures Bounded(AlphaBetaFrom(g, d, false, eval, i, alpha, beta, best).score,
                    MinimaxFrom(g, d, false, eval, i, mbest).score, alpha, beta0)
    decreases g, 0, |g.moves| - i
  {
    if i == |g.moves| {
      LtTotal(beta0, best.score, mbest.score);
      LtTotal(beta0, mbest.score, best.score);
      LtTotal(alpha, best.score, beta0);
    } else {
      var c := g.moves[i].next;
      var m := g.moves[i].move;
      assert Lt(alpha, beta) by { LtTotal(alpha, best.score, beta0); }
      AlphaBetaBounded(c, d, alpha, beta, true, eval);
      var v := AlphaBeta(c, d, alpha, beta, true, eval).score;
      var mc := Minimax(c, d, true, eval).score;
      var best' := Update(false, best, v, m);
      var mbest' := Update(false, mbest, mc, m);
      LtTotal(v, alpha, beta);
      LtTotal(alpha, mc, beta);
      LtTotal(v, beta, beta0);
      LtTotal(v, beta, best.score);
      LtTotal(mc, beta, mbest.score);
      LtTotal(mc, mbest.score, beta0);
      LtTotal(v, best.score, beta0);
      if CutOff(false, best'.score, alpha, beta) {
        assert best'.score == v;
        assert Le(mc, alpha);
        MinimaxFromMonotone(g, d, false, eval, i + 1, mbest');
        var r := MinimaxFrom(g, d, false, eval, i + 1, mbest').score;
        LtTotal(r, mc, alpha);
        LtTotal(r, mbest'.score, mc);
        LtTotal(r, alpha, beta0);
        LtTotal(r, mbest'.score, alpha);
      } else {
        assert Lt(alpha, mc);
        AlphaBetaFromBoundedMin(g, d, eval, i + 1, alpha, beta0, Min(beta, best'.score), best', mbest');
      }
    }
  }

  // ------------------------------------------------------ the full window

  /** The root loop of a maximizing search opened with alpha = -inf and
      beta = +inf: alpha is the running best, and both searches keep the same
      best pair, move included. */
  lemma {:induction false} RootMax(g: Game, d: int, eval: Evaluator, i: nat, best: SearchResult)
    requires i <= |g.moves|
    requires best.score != PosInf
    ensures AlphaBetaFrom(g, d, true, eval, i, best.score, PosInf, best) == MinimaxFrom(g, d, true, eval, i, best)
    decreases |g.moves| - i
  {
    if i < |g.moves| {
      var c := g.moves[i].next;
      var m := g.moves[i].move;
      AlphaBetaBounded(c, d, best.score, PosInf, false, eval);
      var v := AlphaBeta(c, d, best.score, PosInf, false, eval).score;
      var mc := Minimax(c, d, false, eval).score;
      LtTotal(best.score, v, mc);
      LtTotal(best.score, mc, v);
      var best' := Update(true, best, v, m);
      assert best' == Update(true, best, mc, m);
      if CutOff(true, best'.score, best.score, PosInf) {
        MinimaxFromSettled(g, d, true, eval, i + 1, best');
      } else {
        assert Max(best.score, best'.score) == best'.score;
        RootMax(g, d, eval, i + 1, best');
      }
    }
  }

  /** The root loop of a minimizing search opened with the full window. */
  lemma {:induction false} RootMin(g: Game, d: int, eval: Evaluator, i: nat, best: SearchResult)
    requires i <= |g.moves|
    requires best.score != NegInf
    ensures AlphaBetaFrom(g, d, false, eval, i, NegInf, best.score, best) == MinimaxFrom(g, d, false, eval, i, best)
    decreases |g.moves| - i
  {
    if i < |g.moves| {
      var c := g.moves[i].next;
      var m := g.moves[i].move;
      AlphaBetaBounded(c, d, NegInf, best.score, true, eval);
      var v := AlphaBeta(c, d, NegInf, best.score, true, eval).score;
      var mc := Minimax(c, d, true, eval).score;
      LtTotal(v, best.score, mc);
      LtTotal(mc, best.score, v);
      var best' := Update(false, best, v, m);
      assert best' == Update(false, best, mc, m);
      if CutOff(false, best'.score, NegInf, best.score) {
        MinimaxFromSettled(g, d, false, eval, i + 1, best');
      } else {
        assert Min(best.score, best'.score) == best'.score;
        RootMin(g, d, eval, i + 1, best');
      }
    }
  }

  /** alphabeta(game, depth) with the default window (-inf, +inf) returns exactly
      the (score, move) pair minimax(game, depth) returns, at every depth and for
      either role. */
  lemma AlphaBetaMatchesMinimax(g: Game, depth: int, maximizing: bool, eval: Evaluator)
    ensures AlphaBeta(g, depth, NegInf, PosInf, maximizing, eval) == Minimax(g, depth, maximizing, eval)
  {
    if depth > 0 {
      if maximizing {
        RootMax(g, depth - 1, eval, 0, Unscored(true));
      } else {
        RootMin(g, depth - 1, eval, 0, Unscored(false));
      }
    }
  }

  // ------------------------------------------------------------ search effort

  /** Alpha-beta never makes more search calls than minimax, whatever the window. */
  lemma {:induction false} AlphaBetaCostBound(g: Game, depth: int, alpha: Ext, beta: Ext, maximizing: bool, eval: Evaluator)
    ensures AlphaBetaCost(g, depth, alpha, beta, maximizing, eval) <= MinimaxCost(g, depth)
    decreases g, 1
  {
    if depth > 0 {
      AlphaBetaCostFromBound(g, depth - 1, maximizing, eval, 0, alpha, beta, Unscored(maximizing));
    }
  }

  lemma {:induction false} AlphaBetaCostFromBound(g: Game, d: int, maximizing: bool, eval: Evaluator, i: nat,
                                                  alpha: Ext, beta: Ext, best: SearchResult)
    requires i <= |g.moves|
    ensures AlphaBetaCostFrom(g, d, maximizing, eval, i, alpha, beta, best) <= MinimaxCostFrom(g, d, i)
    decreases g, 0, |g.moves| - i
  {
    if i < |g.moves| {
      var c := g.moves[i].next;
      AlphaBetaCostBound(c, d, alpha, beta, !maximizing, eval);
      var v := AlphaBeta(c, d, alpha, beta, !maximizing, eval).score;
      var best' := Update(maximizing, best, v, g.moves[i].move);
      if maximizing {
        AlphaBetaCostFromBound(g, d, maximizing, eval, i + 1, Max(alpha, best'.score), beta, best');
      } else {
        AlphaBetaCostFromBound(g, d, maximizing, eval, i + 1, alpha, Min(beta, best'.score), best');
      }
    }
  }
}
