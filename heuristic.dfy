/** The integer heuristic `score_heuristic_3` and its helper `count_helper`.
    The board is reduced to what they read: the blank squares and the two
    players' legal moves, as lists of (row, column) pairs. */
module Heuristic {
  import opened GameTree

  /** An element of the `moves` iterable `count_helper` walks: a coordinate pair
      (the lists of legal moves) or a bare integer (iterating over the single
      pair the recursive calls pass). */
  datatype Item = Pair(move: Move) | Int(value: int)

  /** A list of legal moves as the iterable of pairs it is. */
  function Pairs(ms: seq<Move>): (r: seq<Item>)
    ensures |r| == |ms|
    ensures forall i :: 0 <= i < |ms| ==> r[i] == Pair(ms[i])
  {
    if ms == [] then [] else Pairs(ms[..|ms| - 1]) + [Pair(ms[|ms| - 1])]
  }

  /** A single pair passed where an iterable is expected: iterating it yields its two components. */
  function Components(row: int, col: int): seq<Item> {
    [Int(row), Int(col)]
  }

  /** How many items are pairs that occur in blank (a bare integer never does). */
  function Occurrences(blank: seq<Move>, items: seq<Item>): (n: nat)
    ensures n <= |items|
  {
    if items == [] then 0
    else
      var last := items[|items| - 1];
      Occurrences(blank, items[..|items| - 1]) + if last.Pair? && last.move in blank then 1 else 0
  }

  /** `[x for x in blank_p if x != move]`. */
  function Without(blank: seq<Move>, m: Move): (r: seq<Move>)
    ensures forall x :: x in r <==> x in blank && x != m
    ensures |r| <= |blank|
  {
    if blank == [] then []
    else if blank[0] == m then Without(blank[1..], m)
    else [blank[0]] + Without(blank[1..], m)
  }

  /** `count_helper(blank_p, moves, depth)`. The eight guarded recursive calls
      receive one coordinate pair instead of a list of moves, so they iterate
      over two integers, none of which is a blank square, and each adds 0: the
      result is the number of items that are blank squares. */
  method CountHelper(blank: seq<Move>, moves: seq<Item>, depth: int) returns (count: int)
    ensures count == if depth > 0 then Occurrences(blank, moves) else 0
    decreases depth
  {
    count := 0;
    if depth > 0 {
      var i := 0;
      while i < |moves|
        invariant 0 <= i <= |moves|
        invariant count == Occurrences(blank, moves[..i])
      {
        assert moves[..i + 1][..i] == moves[..i];
        var item := moves[i];
        if item.Pair? && item.move in blank {
          count := count + 1;
          var newBlank := Without(blank, item.move);
          var m := item.move;
          var c := 0;
          ComponentsCountNothing(newBlank);
          if m.row - 2 >= 0 && m.col + 1 <= 6 {
            c := CountHelper(newBlank, Components(m.row - 2, m.col + 1), depth - 1);
            count := count + c;
          }
          if m.row - 2 >= 0 && m.col - 1 >= 0 {
            c := CountHelper(newBlank, Components(m.row - 2, m.col - 1), depth - 1);
            count := count + c;
          }
          if m.row + 2 <= 6 && m.col + 1 <= 6 {
            c := CountHelper(newBlank, Components(m.row + 2, m.col + 1), depth - 1);
            count := count + c;
          }
          if m.row + 2 <= 6 && m.col - 1 >= 0 {
            c := CountHelper(newBlank, Components(m.row + 2, m.col - 1), depth - 1);
            count := count + c;
          }
          if m.row - 1 >= 0 && m.col + 2 <= 6 {
            c := CountHelper(newBlank, Components(m.row - 1, m.col + 2), depth - 1);
            count := count + c;
          }
          if m.row - 1 >= 0 && m.col - 2 >= 0 {
            c := CountHelper(newBlank, Components(m.row - 1, m.col - 2), depth - 1);
            count := count + c;
          }
          if m.row + 1 <= 6 && m.col + 2 <= 6 {
            c := CountHelper(newBlank, Components(m.row + 1, m.col + 2), depth - 1);
            count := count + c;
          }
          if m.row + 1 <= 6 && m.col - 2 >= 0 {
            c := CountHelper(newBlank, Components(m.row + 1, m.col - 2), depth - 1);
            count := count + c;
          }
        }
        i := i + 1;
      }
      assert moves[..|moves|] == moves;
    }
  }

  /** `score_heuristic_3(game, player)`: the helper at depth 3 over the player's
      legal moves minus the same over the opponent's. */
  method ScoreHeuristic3(blank: seq<Move>, own: seq<Move>, opp: seq<Move>) returns (score: int)
    ensures score == Occurrences(blank, Pairs(own)) - Occurrences(blank, Pairs(opp))
  {
    var ownCount := CountHelper(blank, Pairs(own), 3);
    var oppCount := CountHelper(blank, Pairs(opp), 3);
    score := ownCount - oppCount;
  }

  /** The moves of ms that are blank squares, in order (an independent reference). */
  function BlankMoves(blank: seq<Move>, ms: seq<Move>): (r: seq<Move>)
    ensures forall x :: x in r <==> x in ms && x in blank
  {
    if ms == [] then []
    else BlankMoves(blank, ms[..|ms| - 1]) + if ms[|ms| - 1] in blank then [ms[|ms| - 1]] else []
  }

  /** Over a list of moves the count is the number of those moves that are blank
      (with repetitions counted), so it never exceeds the number of moves. */
  lemma {:induction false} OccurrencesCountsBlankMoves(blank: seq<Move>, ms: seq<Move>)
    ensures Occurrences(blank, Pairs(ms)) == |BlankMoves(blank, ms)| <= |ms|
  {
    if ms != [] {
      var init := ms[..|ms| - 1];
      OccurrencesCountsBlankMoves(blank, init);
      assert Pairs(ms)[..|ms| - 1] == Pairs(init);
    }
  }

  /** Legal moves always lead to blank squares; then the heuristic is the
      difference in mobility. */
  lemma AllBlankCountsEveryMove(blank: seq<Move>, ms: seq<Move>)
    requires forall m :: m in ms ==> m in blank
    ensures Occurrences(blank, Pairs(ms)) == |ms|
  {
    OccurrencesCountsBlankMoves(blank, ms);
    BlankMovesKeepsAll(blank, ms);
  }

  lemma {:induction false} BlankMovesKeepsAll(blank: seq<Move>, ms: seq<Move>)
    requires forall m :: m in ms ==> m in blank
    ensures BlankMoves(blank, ms) == ms
  {
    if ms != [] {
      BlankMovesKeepsAll(blank, ms[..|ms| - 1]);
      assert ms[..|ms| - 1] + [ms[|ms| - 1]] == ms;
    }
  }

  /** A pair passed as an iterable counts nothing, whatever the squares. */
  lemma ComponentsCountNothing(blank: seq<Move>)
    ensures forall row, col :: Occurrences(blank, Components(row, col)) == 0
  {
    forall row, col
      ensures Occurrences(blank, Components(row, col)) == 0
    {
      var items := Components(row, col);
      assert Occurrences(blank, items) == Occurrences(blank, items[..1]);
      assert Occurrences(blank, items[..1]) == Occurrences(blank, items[..1][..0]);
    }
  }
}
