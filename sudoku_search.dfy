/** `reduce_puzzle`, which repeats `eliminate` and `only_choice` until a round
    fixes no new box, the depth-first `search` and `solve`. Reduction never
    loses a solution, and search finds a solution exactly when the board has
    one. */
module SudokuSearch {
  import opened SudokuTables
  import opened SudokuValues
  import opened SudokuReduce

  /** No solution of the diagonal sudoku picks from the candidates of v. */
  ghost predicate Unsolvable(v: Values) {
    forall sol :: IsSolution(sol) ==> !Consistent(sol, v)
  }

  /** Every box that is, in v, the only place of a digit in one of its units
      holds a single candidate: `only_choice` has nothing left to do. */
  ghost predicate ChoicesMade(v: Values) {
    forall u, d, p :: u in UnitList() && d in Digits && OnlyPlace(v, u, d, p) ==> p in v && |v[p]| == 1
  }

  lemma NarrowsTransitive(u: Values, v: Values, w: Values)
    requires Narrows(u, v) && Narrows(v, w)
    ensures Narrows(u, w)
  {
  }

  lemma PicksNarrows(v: Values, w: Values)
    requires Picks(v, w)
    ensures Narrows(v, w)
  {
    forall b | b in Boxes
      ensures |w[b]| <= |v[b]| && forall c :: c in w[b] ==> c in v[b]
    {
      if w[b] != v[b] {
        assert w[b] == [w[b][0]];
      }
    }
  }

  /** A board with an empty box allows no solution. */
  lemma EmptyBoxUnsolvable(v: Values, w: Values, b: string)
    requires KeepsSolutions(v, w) && b in Boxes && b in w && |w[b]| == 0
    ensures Unsolvable(v)
  {
    forall sol | IsSolution(sol)
      ensures !Consistent(sol, w)
    {
      if b in sol {
        assert sol[b] !in w[b];
      }
    }
  }

  // ------------------------------------------------------------ reduce_puzzle

  /** One round: eliminate took v to e, only_choice took e to o. */
  ghost predicate Round(v: Values, e: Values, o: Values) {
    && IsGrid(v) && IsGrid(e) && IsGrid(o)
    && Narrows(v, e) && SinglesKept(v, e)
    && (forall s, p :: s in Boxes && |v[s]| == 1 && e[s] == v[s] && p in Peers(s) ==> v[s][0] !in e[p])
    && Picks(e, o)
    && (forall u, d, p :: u in UnitList() && d in Digits && OnlyPlace(e, u, d, p) ==> p in o && |o[p]| == 1)
  }

  /** A box single-valued before the round and not emptied is still single-valued. */
  lemma RoundKeepsSingles(v: Values, e: Values, o: Values, s: string)
    requires Round(v, e, o) && s in Boxes && |v[s]| == 1 && |o[s]| != 0
    ensures e[s] == v[s] && o[s] == v[s]
  {
  }

  /** When no box is emptied, a round never lowers the number of single-valued boxes. */
  lemma RoundGrows(v: Values, e: Values, o: Values)
    requires Round(v, e, o) && NoneEmpty(o)
    ensures SolvedCount(v, Boxes) <= SolvedCount(o, Boxes)
  {
    forall s | s in Boxes && |v[s]| == 1
      ensures |o[s]| == 1
    {
      RoundKeepsSingles(v, e, o, s);
    }
    SolvedCountGrows(v, o, Boxes);
  }

  /** A round that fixes no new box and empties none leaves a board whose
      single digits are absent from their peers and on which `only_choice`
      changes nothing. */
  lemma StalledRound(v: Values, e: Values, o: Values)
    requires Round(v, e, o) && NoneEmpty(o)
    requires SolvedCount(v, Boxes) == SolvedCount(o, Boxes)
    ensures PeersConsistent(o) && ChoicesMade(o)
  {
    forall s | s in Boxes && |v[s]| == 1
      ensures |o[s]| == 1
    {
      RoundKeepsSingles(v, e, o, s);
    }
    SolvedCountGrows(v, o, Boxes);
    assert forall b :: b in Boxes && |o[b]| == 1 ==> |v[b]| == 1;
    forall b | b in Boxes
      ensures o[b] == e[b]
    {
      if o[b] != e[b] {
        RoundKeepsSingles(v, e, o, b);
      }
    }
    assert o == e;
    forall s, p | s in Boxes && s in o && |o[s]| == 1 && p in Peers(s) && p in o
      ensures o[s][0] !in o[p]
    {
      RoundKeepsSingles(v, e, o, s);
    }
  }

  /** `reduce_puzzle(values)`: rounds of eliminate and only_choice until the
      number of single-valued boxes stops changing. None is its `False`,
      returned when a round leaves a box without candidates, and then the board
      has no solution. Otherwise the board it returns has lost no solution, has
      no empty box, and is a fixpoint of both strategies. */
  method ReducePuzzle(values: Values) returns (r: Option<Values>)
    requires IsGrid(values)
    ensures r.None? ==> Unsolvable(values)
    ensures r.Some? ==> IsGrid(r.value) && Narrows(values, r.value) && KeepsSolutions(values, r.value)
    ensures r.Some? ==> NoneEmpty(r.value) && PeersConsistent(r.value) && ChoicesMade(r.value)
  {
    var v := values;
    var stalled := false;
    while !stalled
      invariant IsGrid(v) && Narrows(values, v) && KeepsSolutions(values, v)
      invariant stalled ==> NoneEmpty(v) && PeersConsistent(v) && ChoicesMade(v)
      decreases (if stalled then 0 else 1) + 82 - SolvedCount(v, Boxes)
    {
      var solvedBefore := |SolvedBoxes(v, Boxes)|;
      var e := Eliminate(v);
      var o := OnlyChoice(e);
      var solvedAfter := |SolvedBoxes(o, Boxes)|;
      SolvedBoxesCount(v, Boxes);
      SolvedBoxesCount(o, Boxes);
      PicksNarrows(e, o);
      NarrowsTransitive(values, v, e);
      NarrowsTransitive(values, e, o);
      stalled := solvedBefore == solvedAfter;
      var empty := EmptyBoxes(o, Boxes);
      if |empty| != 0 {
        EmptyBoxUnsolvable(values, o, empty[0]);
        return None;
      }
      assert Round(v, e, o);
      RoundGrows(v, e, o);
      if stalled {
        StalledRound(v, e, o);
      }
      v := o;
    }
    return Some(v);
  }

  // ------------------------------------------------------------ search

  /** Python's `<` on strings: lexicographic by character code. */
  predicate StrLess(a: string, b: string) {
    if b == [] then false
    else if a == [] then true
    else if a[0] != b[0] then a[0] < b[0]
    else StrLess(a[1..], b[1..])
  }

  /** String order is asymmetric, so in particular no string is below itself. */
  lemma {:induction false} StrLessAsymmetric(a: string, b: string)
    ensures StrLess(a, b) ==> !StrLess(b, a)
  {
    if a != [] && b != [] && a[0] == b[0] {
      StrLessAsymmetric(a[1..], b[1..]);
    }
  }

  lemma {:induction false} StrLessTransitive(a: string, b: string, c: string)
    requires StrLess(a, b) && StrLess(b, c)
    ensures StrLess(a, c)
  {
    if a != [] && a[0] == b[0] && b[0] == c[0] {
      StrLessTransitive(a[1..], b[1..], c[1..]);
    }
  }

  lemma {:induction false} StrLessTotal(a: string, b: string)
    requires a != b
    ensures StrLess(a, b) || StrLess(b, a)
  {
    if a != [] && b != [] && a[0] == b[0] {
      assert a == [a[0]] + a[1..] && b == [b[0]] + b[1..];
      StrLessTotal(a[1..], b[1..]);
    }
  }

  /** The tuple comparison `(n, s) < (m, t)`. */
  predicate PairLess(n: int, s: string, m: int, t: string) {
    n < m || (n == m && StrLess(s, t))
  }

  /** `min((len(values[s]), s) for s in keys if len(values[s]) > 1)`: the key
      with the fewest candidates above one, the smallest name among those; None
      when every key has at most one candidate (where `min` would fail). */
  function Fewest(v: Values, keys: seq<string>): (r: Option<string>)
    requires forall k :: k in keys ==> k in v
    ensures r.None? <==> forall k :: k in keys ==> |v[k]| <= 1
    ensures r.Some? ==> r.value in keys && |v[r.value]| > 1
    ensures r.Some? ==> forall k :: k in keys && |v[k]| > 1 && k != r.value ==>
      PairLess(|v[r.value]|, r.value, |v[k]|, k)
  {
    if keys == [] then None
    else
      var rest := Fewest(v, keys[..|keys| - 1]);
      var k := keys[|keys| - 1];
      assert forall x :: x in keys <==> x in keys[..|keys| - 1] || x == k;
      if |v[k]| <= 1 then rest
      else if rest.None? || PairLess(|v[k]|, k, |v[rest.value]|, rest.value) then
        FewestLast(v, keys, rest, k);
        Some(k)
      else
        FewestKept(v, keys, rest, k);
        rest
  }

  lemma FewestLast(v: Values, keys: seq<string>, rest: Option<string>, k: string)
    requires keys != [] && forall x :: x in keys ==> x in v
    requires k == keys[|keys| - 1] && |v[k]| > 1
    requires rest.None? <==> forall x :: x in keys[..|keys| - 1] ==> |v[x]| <= 1
    requires rest.Some? ==> rest.value in keys[..|keys| - 1] && |v[rest.value]| > 1
    requires rest.Some? ==> forall x :: x in keys[..|keys| - 1] && |v[x]| > 1 && x != rest.value ==>
      PairLess(|v[rest.value]|, rest.value, |v[x]|, x)
    requires rest.None? || PairLess(|v[k]|, k, |v[rest.value]|, rest.value)
    ensures forall x :: x in keys && |v[x]| > 1 && x != k ==> PairLess(|v[k]|, k, |v[x]|, x)
  {
    forall x | x in keys && |v[x]| > 1 && x != k
      ensures PairLess(|v[k]|, k, |v[x]|, x)
    {
      assert x in keys[..|keys| - 1];
      if x != rest.value && |v[k]| == |v[x]| {
        StrLessTransitive(k, rest.value, x);
      }
    }
  }

  lemma FewestKept(v: Values, keys: seq<string>, rest: Option<string>, k: string)
    requires keys != [] && forall x :: x in keys ==> x in v
    requires k == keys[|keys| - 1] && |v[k]| > 1
    requires rest.Some? && rest.value in keys[..|keys| - 1] && |v[rest.value]| > 1
    requires forall x :: x in keys[..|keys| - 1] && |v[x]| > 1 && x != rest.value ==>
      PairLess(|v[rest.value]|, rest.value, |v[x]|, x)
    requires !PairLess(|v[k]|, k, |v[rest.value]|, rest.value)
    ensures k != rest.value ==> PairLess(|v[rest.value]|, rest.value, |v[k]|, k)
  {
    if k != rest.value && |v[k]| == |v[rest.value]| {
      StrLessTotal(k, rest.value);
    }
  }

  /** The box Fewest picks is the minimum: no box with more than one candidate
      comes before it in (candidate count, name) order, itself included. */
  lemma FewestIsMinimum(v: Values, keys: seq<string>)
    requires forall k :: k in keys ==> k in v
    requires Fewest(v, keys).Some?
    ensures var p := Fewest(v, keys).value;
      forall k :: k in keys && |v[k]| > 1 ==> !PairLess(|v[k]|, k, |v[p]|, p)
  {
    var p := Fewest(v, keys).value;
    forall k | k in keys && |v[k]| > 1
      ensures !PairLess(|v[k]|, k, |v[p]|, p)
    {
      StrLessAsymmetric(p, k);
    }
  }

  /** What `search` returns: `False` when reduction fails, the solved board, or
      `None` when every candidate of the chosen box fails. */
  datatype SearchOutcome = Failed | Solved(values: Values) | Exhausted

  /** `search(values)`: reduce the board; if every box is single-valued return
      it, otherwise try, in string order, each candidate of the box with the
      fewest candidates on a copy and return the first success. A returned
      board narrows the input, has one candidate per box and no digit twice
      among peers; no board is returned exactly when the input has no
      solution. */
  method Search(values: Values) returns (r: SearchOutcome)
    requires IsGrid(values) && DigitsOnly(values)
    ensures r.Solved? ==> IsGrid(r.values) && AllSingle(r.values) && PeersConsistent(r.values)
    ensures r.Solved? ==> Narrows(values, r.values)
    ensures !r.Solved? <==> Unsolvable(values)
    decreases TotalLength(values, Boxes)
  {
    var reduced := ReducePuzzle(values);
    if reduced.None? {
      return Failed;
    }
    var v := reduced.value;
    if forall s :: s in Boxes ==> |v[s]| == 1 {
      SolvedBoardSolves(values, v);
      return Solved(v);
    }
    var s := Fewest(v, Boxes).value;
    var candidates := v[s];
    var i := 0;
    while i < |candidates|
      invariant 0 <= i <= |candidates|
      invariant forall sol :: IsSolution(sol) && Consistent(sol, v) ==> sol[s] !in candidates[..i]
    {
      var newSudoku := v[s := [candidates[i]]];
      BranchShrinks(values, v, s, candidates[i]);
      NarrowsTransitive(values, v, newSudoku);
      var attempt := Search(newSudoku);
      if attempt.Solved? {
        NarrowsTransitive(values, newSudoku, attempt.values);
        SolvedBoardSolves(values, attempt.values);
        return attempt;
      }
      BranchFails(v, s, candidates, i);
      i := i + 1;
    }
    NoCandidateLeft(values, v, s);
    return Exhausted;
  }

  /** Fixing box s of v to one of its candidates narrows v and lowers the total
      number of candidates below that of the board v was reduced from. */
  lemma BranchShrinks(values: Values, v: Values, s: string, c: char)
    requires IsGrid(values) && IsGrid(v) && Narrows(values, v) && s in Boxes && |v[s]| > 1 && c in v[s]
    ensures IsGrid(v[s := [c]]) && Narrows(v, v[s := [c]])
    ensures TotalLength(v[s := [c]], Boxes) < TotalLength(values, Boxes)
  {
    var w := v[s := [c]];
    TotalLengthShrinks(values, v, Boxes);
    TotalLengthShrinks(v, w, Boxes);
  }

  /** A branch that finds nothing rules out its candidate for every solution. */
  lemma BranchFails(v: Values, s: string, candidates: string, i: nat)
    requires IsGrid(v) && s in Boxes && candidates == v[s] && i < |candidates|
    requires forall sol :: IsSolution(sol) && Consistent(sol, v) ==> sol[s] !in candidates[..i]
    requires Unsolvable(v[s := [candidates[i]]])
    ensures forall sol :: IsSolution(sol) && Consistent(sol, v) ==> sol[s] !in candidates[..i + 1]
  {
    assert candidates[..i + 1] == candidates[..i] + [candidates[i]];
    forall sol | IsSolution(sol) && Consistent(sol, v)
      ensures sol[s] != candidates[i]
    {
      BranchRulesOut(sol, v, s, candidates[i]);
    }
  }

  lemma BranchRulesOut(sol: map<string, char>, v: Values, s: string, c: char)
    requires IsSolution(sol) && Consistent(sol, v) && s in Boxes
    requires !Consistent(sol, v[s := [c]])
    ensures sol[s] != c
  {
    if sol[s] == c {
      ConsistentUpdate(sol, v, s, [c]);
    }
  }

  lemma NoCandidateLeft(values: Values, v: Values, s: string)
    requires IsGrid(v) && KeepsSolutions(values, v) && s in Boxes
    requires forall sol :: IsSolution(sol) && Consistent(sol, v) ==> sol[s] !in v[s][..|v[s]|]
    ensures Unsolvable(values)
  {
    assert v[s][..|v[s]|] == v[s];
  }

  /** The filled grid read off a board with one candidate per box. */
  ghost function Fill(w: Values): (sol: map<string, char>)
    requires AllSingle(w)
    ensures forall b :: b in sol <==> b in Boxes
    ensures forall b :: b in Boxes ==> w[b] == [sol[b]]
  {
    map b | b in Boxes :: w[b][0]
  }

  /** A board with one digit per box and no digit twice among peers is a
      solution, and one the board it narrows allows: that board is solvable. */
  lemma SolvedBoardSolves(values: Values, w: Values)
    requires DigitsOnly(values) && AllSingle(w) && PeersConsistent(w) && Narrows(values, w)
    ensures IsSolution(Fill(w)) && Consistent(Fill(w), values)
    ensures !Unsolvable(values)
  {
    var sol := Fill(w);
    forall b, p | b in sol && p in sol && p in Peers(b)
      ensures sol[p] != sol[b]
    {
      assert w[b][0] !in w[p];
    }
    forall b | b in Boxes
      ensures sol[b] in values[b]
    {
      assert sol[b] in w[b];
    }
  }

  // ------------------------------------------------------------ solve

  /** The board `grid_values` builds holds only digits. */
  lemma GridDigits(grid: string)
    requires |Kept(grid)| == 81
    ensures IsGrid(ZipBoxes(Kept(grid))) && DigitsOnly(ZipBoxes(Kept(grid)))
  {
    var chars := Kept(grid);
    forall i, c | 0 <= i < 81 && c in chars[i]
      ensures c in Digits
    {
      if chars[i] != Digits {
        assert chars[i] == [chars[i][0]];
      }
    }
    ZipDigits(chars);
  }

  lemma ZipDigits(chars: seq<string>)
    requires |chars| == 81
    requires forall i, c :: 0 <= i < 81 && c in chars[i] ==> c in Digits
    ensures DigitsOnly(ZipBoxes(chars))
  {
    var v := ZipBoxes(chars);
    forall b | b in Boxes
      ensures b in v && forall c :: c in v[b] ==> c in Digits
    {
      var i :| 0 <= i < |Boxes| && Boxes[i] == b;
      BoxesCount();
      assert v[b] == chars[i];
    }
  }

  /** `solve(grid)`: parse the grid and search it. None is the failed length
      assertion of `grid_values`. The search succeeds exactly when the parsed
      board has a solution, and what it returns then is such a solution. */
  method Solve(grid: string) returns (r: Option<SearchOutcome>)
    ensures r.None? <==> |Kept(grid)| != 81
    ensures r.Some? ==> (r.value.Solved? <==> !Unsolvable(ZipBoxes(Kept(grid))))
    ensures r.Some? && r.value.Solved? ==>
      AllSingle(r.value.values) && IsSolution(Fill(r.value.values)) && Consistent(Fill(r.value.values), ZipBoxes(Kept(grid)))
  {
    var values := GridValues(grid);
    if values.None? {
      return None;
    }
    var v := values.value;
    GridDigits(grid);
    BoxesCount();
    assert v == ZipBoxes(Kept(grid)) by {
      forall b | b in Boxes
        ensures v[b] == ZipBoxes(Kept(grid))[b]
      {
        var i :| 0 <= i < |Boxes| && Boxes[i] == b;
      }
    }
    var outcome := Search(v);
    if outcome.Solved? {
      SolvedBoardSolves(v, outcome.values);
    }
    return Some(outcome);
  }
}
