/** The game-playing agent `CustomPlayer`: its configuration, the clock it is
    handed by `get_move`, the clocked `minimax` and `alphabeta` searches, and
    the iterative-deepening driver. Raising `Timeout` is modelled as returning
    TimedOut, which every caller except `get_move`'s handler passes on. */
module Agent {
  import opened Scores
  import opened GameTree
  import Search

  /** An outcome that may have been cut short by the `Timeout` signal. */
  datatype Timed<T> = Done(value: T) | TimedOut

  /** The `method` setting: "minimax" or "alphabeta". */
  datatype Strategy = UseMinimax | UseAlphaBeta

  /** The center square the student agent always takes when it is legal. */
  const Center: Move := Move(3, 3)

  /** What one search of the configured strategy returns from the root at a depth. */
  function Searched(s: Strategy, g: Game, depth: int, eval: Evaluator): (r: SearchResult)
    ensures r.move == NoMove || Search.Legal(g, r.move)
  {
    match s
    case UseMinimax => Search.Minimax(g, depth, true, eval)
    case UseAlphaBeta => Search.AlphaBeta(g, depth, NegInf, PosInf, true, eval)
  }

  /** How many clock checks that search makes. */
  function SearchCost(s: Strategy, g: Game, depth: int, eval: Evaluator): nat {
    match s
    case UseMinimax => Search.MinimaxCost(g, depth)
    case UseAlphaBeta => Search.AlphaBetaCost(g, depth, NegInf, PosInf, true, eval)
  }

  /** The deepening loop's (best_score, best_move) after depths 1..k completed:
      a depth's result replaces the stored one only when its score is strictly greater. */
  function BestOver(s: Strategy, g: Game, eval: Evaluator, k: nat): (r: SearchResult)
    ensures r == SearchResult(NegInf, NoMove) || Lt(NegInf, r.score)
    ensures r.move == NoMove || Search.Legal(g, r.move)
  {
    if k == 0 then SearchResult(NegInf, NoMove)
    else
      var best := BestOver(s, g, eval, k - 1);
      var r := Searched(s, g, k, eval);
      if Lt(best.score, r.score) then r else best
  }

  /** How many consecutive depths d, d + 1, ... complete when the clock starts
      `budget` milliseconds above the threshold. */
  function Completed(s: Strategy, g: Game, eval: Evaluator, d: nat, budget: int): (n: nat)
    ensures n == 0 || n <= budget + 1
    decreases budget + 1
  {
    var cost := SearchCost(s, g, d, eval);
    if budget < cost - 1 then 0 else 1 + Completed(s, g, eval, d + 1, budget - cost)
  }

  class CustomPlayer {
    const searchDepth: int
    const iterative: bool
    const score: Evaluator
    const strategy: Strategy
    /** TIMER_THRESHOLD: the search gives up once fewer milliseconds remain. */
    const threshold: int
    const isStudent: bool
    /** The milliseconds `time_left()` reports; each search call that passes
        its clock check spends one. */
    var timeLeft: int

    constructor (searchDepth: int, score: Evaluator, iterative: bool, strategy: Strategy, timeout: int, isStudent: bool)
      ensures this.searchDepth == searchDepth && this.score == score && this.iterative == iterative
      ensures this.strategy == strategy && this.threshold == timeout && this.isStudent == isStudent
    {
      this.searchDepth := searchDepth;
      this.score := score;
      this.iterative := iterative;
      this.strategy := strategy;
      this.threshold := timeout;
      this.isStudent := isStudent;
      this.timeLeft := 0;
    }

    /** `self.time_left() < self.TIMER_THRESHOLD`. */
    method ClockExpired() returns (expired: bool)
      ensures expired == (timeLeft < threshold)
    {
      expired := timeLeft < threshold;
    }

    /** `minimax(game, depth, maximizing_player)`. It completes exactly when the
        clock stays at or above the threshold for all of its calls; it then
        returns the minimax result. A timeout leaves the clock where the failing
        check read it. */
    method Minimax(g: Game, depth: int, maximizing: bool) returns (r: Timed<SearchResult>)
      modifies this
      decreases g
      ensures r.Done? <==> old(timeLeft) - Search.MinimaxCost(g, depth) >= threshold - 1
      ensures r.Done? ==> r.value == Search.Minimax(g, depth, maximizing, score)
      ensures r.Done? ==> timeLeft == old(timeLeft) - Search.MinimaxCost(g, depth)
      ensures r.TimedOut? ==> timeLeft == if old(timeLeft) < threshold then old(timeLeft) else threshold - 1
    {
      var expired := ClockExpired();
      if expired {
        return TimedOut;
      }
      timeLeft := timeLeft - 1;
      var best := Search.Unscored(maximizing);
      if depth > 0 {
        var i := 0;
        while i < |g.moves|
          invariant 0 <= i <= |g.moves|
          invariant Search.MinimaxFrom(g, depth - 1, maximizing, score, i, best) == Search.Minimax(g, depth, maximizing, score)
          invariant timeLeft == old(timeLeft) - 1 - Search.MinimaxCostFrom(g, depth - 1, 0) + Search.MinimaxCostFrom(g, depth - 1, i)
          invariant timeLeft >= threshold - 1
        {
          var ply := g.moves[i];
          var sub := Minimax(ply.next, depth - 1, !maximizing);
          if sub.TimedOut? {
            return TimedOut;
          }
          best := Search.Update(maximizing, best, sub.value.score, ply.move);
          i := i + 1;
        }
      } else if depth == 0 {
        best := Search.Leaf(g, maximizing, score);
      }
      return Done(best);
    }

    /** `alphabeta(game, depth, alpha, beta, maximizing_player)` with `is_student`
        false: the same clock discipline as Minimax over the calls alpha-beta makes. */
    method AlphaBeta(g: Game, depth: int, alpha: Ext, beta: Ext, maximizing: bool) returns (r: Timed<SearchResult>)
      modifies this
      decreases g
      ensures r.Done? <==> old(timeLeft) - Search.AlphaBetaCost(g, depth, alpha, beta, maximizing, score) >= threshold - 1
      ensures r.Done? ==> r.value == Search.AlphaBeta(g, depth, alpha, beta, maximizing, score)
      ensures r.Done? ==> timeLeft == old(timeLeft) - Search.AlphaBetaCost(g, depth, alpha, beta, maximizing, score)
      ensures r.TimedOut? ==> timeLeft == if old(timeLeft) < threshold then old(timeLeft) else threshold - 1
    {
      var expired := ClockExpired();
      if expired {
        return TimedOut;
      }
      timeLeft := timeLeft - 1;
      var best := Search.Unscored(maximizing);
      if depth > 0 {
        var a, b := alpha, beta;
        var i := 0;
        while i < |g.moves|
          invariant 0 <= i <= |g.moves|
          invariant Search.AlphaBetaFrom(g, depth - 1, maximizing, score, i, a, b, best)
                    == Search.AlphaBeta(g, depth, alpha, beta, maximizing, score)
          invariant timeLeft == old(timeLeft) - Search.AlphaBetaCost(g, depth, alpha, beta, maximizing, score)
                                + Search.AlphaBetaCostFrom(g, depth - 1, maximizing, score, i, a, b, best)
          invariant timeLeft >= threshold - 1
        {
          var ply := g.moves[i];
          var sub := AlphaBeta(ply.next, depth - 1, a, b, !maximizing);
          if sub.TimedOut? {
            return TimedOut;
          }
          best := Search.Update(maximizing, best, sub.value.score, ply.move);
          if maximizing {
            if Le(b, best.score) {
              return Done(best);
            }
            if Lt(a, best.score) {
              a := best.score;
            }
          } else {
            if Le(best.score, a) {
              return Done(best);
            }
            if Lt(best.score, b) {
              b := best.score;
            }
          }
          i := i + 1;
        }
      } else if depth == 0 {
        best := Search.Leaf(g, maximizing, score);
      }
      return Done(best);
    }

    /** One search of the configured strategy from the root, maximizing. */
    method SearchAt(g: Game, depth: int) returns (r: Timed<SearchResult>)
      modifies this
      ensures r.Done? <==> old(timeLeft) - SearchCost(strategy, g, depth, score) >= threshold - 1
      ensures r.Done? ==> r.value == Searched(strategy, g, depth, score)
      ensures r.Done? ==> timeLeft == old(timeLeft) - SearchCost(strategy, g, depth, score)
      ensures r.TimedOut? ==> timeLeft == if old(timeLeft) < threshold then old(timeLeft) else threshold - 1
    {
      match strategy
      case UseMinimax =>
        r := Minimax(g, depth, true);
      case UseAlphaBeta =>
        r := AlphaBeta(g, depth, NegInf, PosInf, true);
    }

    /** `get_move(game, legal_moves, time_left)`, handed a clock reading `clock`
        milliseconds. */
    method GetMove(g: Game, legalMoves: seq<Move>, clock: int) returns (r: Timed<Move>)
      modifies this
      ensures clock < threshold ==> r == TimedOut
      ensures r.Done? ==> r.value == NoMove || r.value in legalMoves || Search.Legal(g, r.value)
      ensures r.Done? && (forall m :: m in legalMoves <==> Search.Legal(g, m)) ==> r.value == NoMove || r.value in legalMoves
      ensures clock >= threshold ==> timeLeft >= threshold - 1
      ensures clock >= threshold && legalMoves != [] && !(isStudent && Center in legalMoves) && iterative ==>
        timeLeft == threshold - 1
      ensures clock >= threshold && legalMoves == [] ==> r == Done(NoMove)
      ensures clock >= threshold && legalMoves != [] && isStudent && Center in legalMoves ==> r == Done(Center)
      ensures clock >= threshold && legalMoves != [] && !(isStudent && Center in legalMoves) ==>
        r == Done(if iterative then BestOver(strategy, g, score, Completed(strategy, g, score, 1, clock - threshold)).move
                  else if clock - SearchCost(strategy, g, searchDepth, score) >= threshold - 1 then Searched(strategy, g, searchDepth, score).move
                  else NoMove)
    {
      timeLeft := clock;
      var expired := ClockExpired();
      if expired {
        return TimedOut;
      }
      var bestScore, bestMove := NegInf, NoMove;
      if |legalMoves| == 0 {
        return Done(bestMove);
      }
      if isStudent && Center in legalMoves {
        return Done(Center);
      }
      if iterative {
        var d := 1;
        while true
          invariant d >= 1
          invariant SearchResult(bestScore, bestMove) == BestOver(strategy, g, score, d - 1)
          invariant timeLeft >= threshold - 1
          invariant Completed(strategy, g, score, 1, clock - threshold)
                    == d - 1 + Completed(strategy, g, score, d, timeLeft - threshold)
          decreases timeLeft - threshold + 1
        {
          var res := SearchAt(g, d);
          if res.TimedOut? {
            return Done(bestMove);
          }
          if Lt(bestScore, res.value.score) {
            bestScore, bestMove := res.value.score, res.value.move;
          }
          d := d + 1;
        }
      } else {
        var res := SearchAt(g, searchDepth);
        if res.Done? {
          bestScore, bestMove := res.value.score, res.value.move;
        }
        return Done(bestMove);
      }
    }
  }
}
