/** The value a depth-limited search computes, as pure functions over the game
    tree: `minimax` and `alphabeta` of the agent (without the symmetry skip),
    each written as the fold its loop over the legal moves performs, and the
    number of search calls each of them makes. */
module Search {
  import opened Scores
  import opened GameTree

  /** The score a node starts from: -inf when maximizing, +inf when minimizing. */
  function Initial(maximizing: bool): Ext {
    if maximizing then NegInf else PosInf
  }

  /** The strict update test of both searches: `v > best` or `v < best`. */
  predicate Improves(maximizing: bool, v: Ext, best: Ext) {
    if maximizing then Lt(best, v) else Lt(v, best)
  }

  /** The best result once a child with score v, reached by move m, has been searched. */
  function Update(maximizing: bool, best: SearchResult, v: Ext, m: Move): SearchResult {
    if Improves(maximizing, v, best.score) then SearchResult(v, m) else best
  }

  /** The result of a node that scores nothing: its initial score and (-1, -1). */
  function Unscored(maximizing: bool): SearchResult {
    SearchResult(Initial(maximizing), NoMove)
  }

  /** The leaf score: the active player when maximizing, the inactive one otherwise. */
  function Leaf(g: Game, maximizing: bool, eval: Evaluator): SearchResult {
    SearchResult(eval(g, if maximizing then Active else Inactive), NoMove)
  }

  /** m is one of the legal moves of g from the i-th on. */
  ghost predicate LegalFrom(g: Game, i: nat, m: Move) {
    exists k :: i <= k < |g.moves| && g.moves[k].move == m
  }

  /** m is one of the legal moves of g. */
  ghost predicate Legal(g: Game, m: Move) {
    LegalFrom(g, 0, m)
  }

  // ---------------------------------------------------------------- minimax

  /** `minimax(game, depth, maximizing)`. A negative depth takes neither branch
      of the source and returns the initial score. */
  function Minimax(g: Game, depth: int, maximizing: bool, eval: Evaluator): (r: SearchResult)
    ensures r.move == NoMove || Legal(g, r.move)
    decreases g, 1
  {
    if depth > 0 then MinimaxFrom(g, depth - 1, maximizing, eval, 0, Unscored(maximizing))
    else if depth == 0 then Leaf(g, maximizing, eval)
    else Unscored(maximizing)
  }

  /** The loop of `minimax` from the i-th legal move on, children searched at depth d. */
  function MinimaxFrom(g: Game, d: int, maximizing: bool, eval: Evaluator, i: nat, best: SearchResult): (r: SearchResult)
    requires i <= |g.moves|
    ensures r == best || LegalFrom(g, i, r.move)
    decreases g, 0, |g.moves| - i
  {
    if i == |g.moves| then best
    else
      var v := Minimax(g.moves[i].next, d, !maximizing, eval).score;
      MinimaxFrom(g, d, maximizing, eval, i + 1, Update(maximizing, best, v, g.moves[i].move))
  }

  /** The minimax score of the i-th successor, as the node at depth d + 1 sees it. */
  function ChildScore(g: Game, i: nat, d: int, maximizing: bool, eval: Evaluator): Ext
    requires i < |g.moves|
  {
    Minimax(g.moves[i].next, d, !maximizing, eval).score
  }

  /** Number of `minimax` calls (clock checks) a complete search of g makes. */
  function MinimaxCost(g: Game, depth: int): nat
    decreases g, 1
  {
    1 + if depth > 0 then MinimaxCostFrom(g, depth - 1, 0) else 0
  }

  function MinimaxCostFrom(g: Game, d: int, i: nat): nat
    requires i <= |g.moves|
    decreases g, 0, |g.moves| - i
  {
    if i == |g.moves| then 0 else MinimaxCost(g.moves[i].next, d) + MinimaxCostFrom(g, d, i + 1)
  }

  // -------------------------------------------------------------- alpha-beta

  /** `alphabeta(game, depth, alpha, beta, maximizing)` with `is_student` false. */
  function AlphaBeta(g: Game, depth: int, alpha: Ext, beta: Ext, maximizing: bool, eval: Evaluator): (r: SearchResult)
    ensures r.move == NoMove || Legal(g, r.move)
    decreases g, 1
  {
    if depth > 0 then AlphaBetaFrom(g, depth - 1, maximizing, eval, 0, alpha, beta, Unscored(maximizing))
    else if depth == 0 then Leaf(g, maximizing, eval)
    else Unscored(maximizing)
  }

  /** Whether the window closes after best: `best >= beta` or `best <= alpha`. */
  predicate CutOff(maximizing: bool, best: Ext, alpha: Ext, beta: Ext) {
    if maximizing then Le(beta, best) else Le(best, alpha)
  }

  /** The loop of `alphabeta` from the i-th legal move on, with the current window. */
  function AlphaBetaFrom(g: Game, d: int, maximizing: bool, eval: Evaluator, i: nat,
                         alpha: Ext, beta: Ext, best: SearchResult): (r: SearchResult)
    requires i <= |g.moves|
    ensures r == best || LegalFrom(g, i, r.move)
    decreases g, 0, |g.moves| - i
  {
    if i == |g.moves| then best
    else
      var v := AlphaBeta(g.moves[i].next, d, alpha, beta, !maximizing, eval).score;
      var best' := Update(maximizing, best, v, g.moves[i].move);
      if CutOff(maximizing, best'.score, alpha, beta) then best'
      else if maximizing then
        AlphaBetaFrom(g, d, maximizing, eval, i + 1, Max(alpha, best'.score), beta, best')
      else
        AlphaBetaFrom(g, d, maximizing, eval, i + 1, alpha, Min(beta, best'.score), best')
  }

  /** Number of `alphabeta` calls a complete search of g makes: children after a
      cutoff are not searched. */
  function AlphaBetaCost(g: Game, depth: int, alpha: Ext, beta: Ext, maximizing: bool, eval: Evaluator): nat
    decreases g, 1
  {
    1 + if depth > 0 then AlphaBetaCostFrom(g, depth - 1, maximizing, eval, 0, alpha, beta, Unscored(maximizing)) else 0
  }

  function AlphaBetaCostFrom(g: Game, d: int, maximizing: bool, eval: Evaluator, i: nat,
                             alpha: Ext, beta: Ext, best: SearchResult): nat
    requires i <= |g.moves|
    decreases g, 0, |g.moves| - i
  {
    if i == |g.moves| then 0
    else
      var v := AlphaBeta(g.moves[i].next, d, alpha, beta, !maximizing, eval).score;
      var best' := Update(maximizing, best, v, g.moves[i].move);
      AlphaBetaCost(g.moves[i].next, d, alpha, beta, !maximizing, eval) +
      if CutOff(maximizing, best'.score, alpha, beta) then 0
      else if maximizing then
        AlphaBetaCostFrom(g, d, maximizing, eval, i + 1, Max(alpha, best'.score), beta, best')
      else
        AlphaBetaCostFrom(g, d, maximizing, eval, i + 1, alpha, Min(beta, best'.score), best')
  }
}
