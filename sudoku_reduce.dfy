/** The constraint-propagation strategies `eliminate` and `only_choice`.
    Each only removes candidates, and none removes a candidate that some
    solution of the board uses. */
module SudokuReduce {
  import opened SudokuTables
  import opened SudokuValues

  /** `[box for box in values.keys() if len(values[box]) == 1]`, over the keys in
      the order given. */
  function SolvedBoxes(v: Values, keys: seq<string>): (r: seq<string>)
    requires forall k :: k in keys ==> k in v
    ensures forall b :: b in r <==> b in keys && |v[b]| == 1
  {
    if keys == [] then []
    else SolvedBoxes(v, keys[..|keys| - 1]) + if |v[keys[|keys| - 1]]| == 1 then [keys[|keys| - 1]] else []
  }

  /** The list has as many entries as the count says. */
  lemma {:induction false} SolvedBoxesCount(v: Values, keys: seq<string>)
    requires forall k :: k in keys ==> k in v
    ensures |SolvedBoxes(v, keys)| == SolvedCount(v, keys)
  {
    if keys != [] {
      SolvedBoxesCount(v, keys[..|keys| - 1]);
    }
  }

  /** `[box for box in values.keys() if len(values[box]) == 0]`. */
  function EmptyBoxes(v: Values, keys: seq<string>): (r: seq<string>)
    requires forall k :: k in keys ==> k in v
    ensures forall b :: b in r <==> b in keys && |v[b]| == 0
  {
    if keys == [] then []
    else EmptyBoxes(v, keys[..|keys| - 1]) + if |v[keys[|keys| - 1]]| == 0 then [keys[|keys| - 1]] else []
  }

  // ------------------------------------------------------------ eliminate

  /** w is v after `for peer in peers[t]: values[peer] = values[peer].replace(digit, '')`
      with digit the candidates of t. */
  ghost predicate PeersCleared(v: Values, t: string, w: Values) {
    IsGrid(v) && IsGrid(w) && t in v &&
    forall b :: b in Boxes ==> w[b] == if b in Peers(t) then Replace(v[b], v[t]) else v[b]
  }

  /** The inner loop of `eliminate` for one solved box; the peers are visited in
      any order. */
  method ClearPeers(values: Values, box: string) returns (r: Values)
    requires IsGrid(values) && box in Boxes
    ensures PeersCleared(values, box, r)
  {
    var digit := values[box];
    var remaining := Peers(box);
    r := values;
    while remaining != {}
      invariant ClearedExcept(values, box, remaining, r)
      decreases remaining
    {
      var peer :| peer in remaining;
      ClearOne(values, box, remaining, r, peer);
      r := r[peer := Replace(r[peer], digit)];
      remaining := remaining - {peer};
    }
  }

  /** r is values with the digit of t removed from the peers of t outside remaining. */
  ghost predicate ClearedExcept(v: Values, t: string, remaining: set<string>, r: Values) {
    IsGrid(v) && IsGrid(r) && t in v && remaining <= Peers(t) &&
    forall b :: b in Boxes ==> r[b] == if b in Peers(t) && b !in remaining then Replace(v[b], v[t]) else v[b]
  }

  lemma ClearOne(v: Values, t: string, remaining: set<string>, r: Values, peer: string)
    requires ClearedExcept(v, t, remaining, r) && peer in remaining
    ensures peer in r && ClearedExcept(v, t, remaining - {peer}, r[peer := Replace(r[peer], v[t])])
  {
  }

  /** A box no box of done has as a peer is as it was. */
  ghost predicate UntouchedOutside(v: Values, w: Values, done: seq<string>) {
    forall b :: b in Boxes && (forall s :: s in done ==> b !in Peers(s)) ==> b in v && b in w && w[b] == v[b]
  }

  /** A box solved in v is, in w, still that digit or empty. */
  ghost predicate SinglesKept(v: Values, w: Values) {
    forall s :: s in Boxes && s in v && |v[s]| == 1 ==> s in w && (w[s] == v[s] || w[s] == [])
  }

  /** A box of done that kept its digit has that digit in none of its peers. */
  ghost predicate Cleared(v: Values, w: Values, done: seq<string>) {
    forall s, p :: s in done && s in v && s in w && |v[s]| == 1 && w[s] == v[s] && p in Peers(s) && p in w ==>
      v[s][0] !in w[p]
  }

  /** Some peer of b holds exactly the digit c in v. */
  ghost predicate SolvedPeer(v: Values, b: string, c: char) {
    exists s :: s in Peers(b) && s in v && v[s] == [c]
  }

  /** A candidate of v missing from w is the digit of a peer solved in v. */
  ghost predicate Justified(v: Values, w: Values) {
    forall b, c :: b in Boxes && b in v && b in w && c in v[b] && c !in w[b] ==> SolvedPeer(v, b, c)
  }

  /** `eliminate(values)`: the digit of every box solved at the start is removed
      from its peers. */
  method Eliminate(values: Values) returns (r: Values)
    requires IsGrid(values)
    ensures IsGrid(r) && Narrows(values, r)
    ensures forall b :: b in Boxes && (forall s :: s in Boxes && |values[s]| == 1 ==> b !in Peers(s)) ==> r[b] == values[b]
    ensures SinglesKept(values, r)
    ensures forall s, p :: s in Boxes && |values[s]| == 1 && r[s] == values[s] && p in Peers(s) ==> values[s][0] !in r[p]
    ensures Justified(values, r)
    ensures KeepsSolutions(values, r)
  {
    var solved := SolvedBoxes(values, Boxes);
    r := values;
    var k := 0;
    EliminateStart(values);
    while k < |solved|
      invariant 0 <= k <= |solved|
      invariant EliminateInv(values, r, solved[..k])
    {
      var box := solved[k];
      var next := ClearPeers(r, box);
      EliminateStep(values, r, next, solved[..k], box);
      NextPrefix(values, next, solved, k);
      r := next;
      k := k + 1;
    }
    assert solved[..k] == solved;
    EliminateEnd(values, r, solved);
  }

  /** What holds once the boxes of done have been processed. */
  ghost predicate EliminateInv(v: Values, w: Values, done: seq<string>) {
    IsGrid(v) && IsGrid(w) && Narrows(v, w) && UntouchedOutside(v, w, done) && SinglesKept(v, w) &&
    Cleared(v, w, done) && Justified(v, w) && KeepsSolutions(v, w)
  }

  lemma EliminateStart(v: Values)
    requires IsGrid(v)
    ensures EliminateInv(v, v, [])
  {
  }

  lemma EliminateStep(v: Values, w: Values, w': Values, done: seq<string>, t: string)
    requires EliminateInv(v, w, done) && t in Boxes && |v[t]| == 1 && PeersCleared(w, t, w')
    ensures EliminateInv(v, w', done + [t])
  {
    StepNarrows(v, w, w', t);
    StepUntouched(v, w, w', done, t);
    StepSingles(v, w, w', t);
    StepCleared(v, w, w', done, t);
    StepJustified(v, w, w', t);
    StepSound(v, w, w', t);
  }

  lemma NextPrefix(v: Values, w: Values, solved: seq<string>, k: nat)
    requires k < |solved| && EliminateInv(v, w, solved[..k] + [solved[k]])
    ensures EliminateInv(v, w, solved[..k + 1])
  {
    PrefixExtends(solved, k);
  }

  lemma PrefixExtends<T>(s: seq<T>, k: nat)
    requires k < |s|
    ensures s[..k] + [s[k]] == s[..k + 1]
  {
  }

  lemma EliminateEnd(v: Values, w: Values, solved: seq<string>)
    requires EliminateInv(v, w, solved)
    requires forall b :: b in solved <==> b in Boxes && |v[b]| == 1
    ensures IsGrid(w) && Narrows(v, w) && SinglesKept(v, w) && Justified(v, w) && KeepsSolutions(v, w)
    ensures forall b :: b in Boxes && (forall s :: s in Boxes && |v[s]| == 1 ==> b !in Peers(s)) ==> w[b] == v[b]
    ensures forall s, p :: s in Boxes && |v[s]| == 1 && w[s] == v[s] && p in Peers(s) ==> v[s][0] !in w[p]
  {
  }

  lemma StepNarrows(v: Values, w: Values, w': Values, t: string)
    requires Narrows(v, w) && PeersCleared(w, t, w')
    ensures Narrows(v, w')
  {
  }

  lemma StepUntouched(v: Values, w: Values, w': Values, done: seq<string>, t: string)
    requires UntouchedOutside(v, w, done) && PeersCleared(w, t, w')
    ensures UntouchedOutside(v, w', done + [t])
  {
    forall b | b in Boxes && (forall s :: s in done + [t] ==> b !in Peers(s))
      ensures b in v && b in w' && w'[b] == v[b]
    {
      assert t in done + [t];
      assert forall s :: s in done ==> s in done + [t];
    }
  }

  lemma StepSingles(v: Values, w: Values, w': Values, t: string)
    requires IsGrid(v) && t in Boxes && |v[t]| == 1
    requires SinglesKept(v, w) && PeersCleared(w, t, w')
    ensures SinglesKept(v, w')
  {
    forall s | s in Boxes && s in v && |v[s]| == 1
      ensures w'[s] == v[s] || w'[s] == []
    {
      if s in Peers(t) {
        if w[s] == [] {
          assert |w'[s]| <= 0;
        } else {
          assert v[s] == [v[s][0]];
          ReplaceSingle(v[s][0], w[t]);
        }
      }
    }
  }

  lemma StepCleared(v: Values, w: Values, w': Values, done: seq<string>, t: string)
    requires IsGrid(v) && t in Boxes && |v[t]| == 1
    requires SinglesKept(v, w) && Cleared(v, w, done) && PeersCleared(w, t, w')
    ensures Cleared(v, w', done + [t])
  {
    forall s, p | s in done + [t] && s in v && s in w' && |v[s]| == 1 && w'[s] == v[s] && p in Peers(s) && p in w'
      ensures v[s][0] !in w'[p]
    {
      PeerFacts(s, p);
      if s == t {
        assert t !in Peers(t);
        assert w[t] == v[t];
      } else {
        assert s in done;
        assert |w'[s]| <= |w[s]|;
        assert w[s] == v[s];
      }
    }
  }

  lemma StepJustified(v: Values, w: Values, w': Values, t: string)
    requires IsGrid(v) && t in Boxes && |v[t]| == 1
    requires SinglesKept(v, w) && Justified(v, w) && PeersCleared(w, t, w')
    ensures Justified(v, w')
  {
    forall b, c | b in Boxes && b in v && b in w' && c in v[b] && c !in w'[b]
      ensures SolvedPeer(v, b, c)
    {
      if c in w[b] {
        assert b in Peers(t);
        PeerFacts(t, b);
        var digit := w[t];
        assert w'[b] == Replace(w[b], digit);
        assert digit != [];
        assert digit == v[t];
        assert c == digit[0];
        SingleIs(v[t], c);
      }
    }
  }

  lemma StepSound(v: Values, w: Values, w': Values, t: string)
    requires IsGrid(v) && t in Boxes && |v[t]| == 1
    requires SinglesKept(v, w) && KeepsSolutions(v, w) && PeersCleared(w, t, w')
    ensures KeepsSolutions(v, w')
  {
    forall sol | IsSolution(sol) && Consistent(sol, v)
      ensures Consistent(sol, w')
    {
      assert Consistent(sol, w);
      forall b | b in Boxes
        ensures sol[b] in w'[b]
      {
        if b in Peers(t) {
          var digit := w[t];
          assert sol[t] in digit && digit == v[t];
          SingleIs(digit, sol[t]);
          assert sol[b] != sol[t];
          ReplaceKeeps(w[b], digit, sol[b]);
        }
      }
    }
  }

  // ------------------------------------------------------------ only_choice

  /** `[box for box in unit if digit in values[box]]`. */
  function Places(v: Values, unit: seq<string>, d: char): (r: seq<string>)
    requires forall b :: b in unit ==> b in v
    ensures forall b :: b in r <==> b in unit && d in v[b]
  {
    if unit == [] then []
    else Places(v, unit[..|unit| - 1], d) + if d in v[unit[|unit| - 1]] then [unit[|unit| - 1]] else []
  }

  /** Filtering a list without repetitions leaves one without repetitions. */
  lemma {:induction false} PlacesDistinct(v: Values, unit: seq<string>, d: char)
    requires forall b :: b in unit ==> b in v
    requires Distinct(unit)
    ensures Distinct(Places(v, unit, d))
  {
    if unit != [] {
      var init, last := unit[..|unit| - 1], unit[|unit| - 1];
      assert Distinct(init);
      PlacesDistinct(v, init, d);
      assert last !in init;
      if d in v[last] {
        DistinctAppend(Places(v, init, d), last);
      }
    }
  }

  lemma DistinctAppend(s: seq<string>, x: string)
    requires Distinct(s) && x !in s
    ensures Distinct(s + [x])
  {
  }

  /** A list without repetitions whose entries are all p, and which holds p, is [p]. */
  lemma DistinctSingleton(s: seq<string>, p: string)
    requires Distinct(s) && p in s && forall x :: x in s ==> x == p
    ensures s == [p]
  {
    if |s| >= 2 {
      DistinctFirstTwo(s);
      assert false;
    }
  }

  lemma DistinctFirstTwo<T>(s: seq<T>)
    requires Distinct(s) && |s| >= 2
    ensures s[0] != s[1] && s[0] in s && s[1] in s
  {
  }

  /** In v, p is the only box of u that can hold d. */
  ghost predicate OnlyPlace(v: Values, u: seq<string>, d: char, p: string) {
    p in u && p in v && d in v[p] && forall b :: b in u && b in v && b != p ==> d !in v[b]
  }

  /** Each box is as in v, or holds alone one of its candidates in v. */
  ghost predicate Picks(v: Values, w: Values) {
    forall b :: b in Boxes ==> b in v && b in w && (w[b] == v[b] || (|w[b]| == 1 && w[b][0] in v[b]))
  }

  /** A candidate of a picked box was a candidate before. */
  lemma PickedFrom(v: Values, w: Values, b: string, c: char)
    requires Picks(v, w) && b in Boxes && c in w[b]
    ensures c in v[b]
  {
    if w[b] != v[b] {
      assert w[b] == [w[b][0]];
    }
  }

  lemma PicksStep(v: Values, w: Values, q: string, d: char)
    requires Picks(v, w) && q in Boxes && d in w[q]
    ensures Picks(v, w[q := [d]])
  {
    PickedFrom(v, w, q, d);
  }

  lemma PicksTransitive(u: Values, v: Values, w: Values)
    requires Picks(u, v) && Picks(v, w)
    ensures Picks(u, w)
  {
  }

  /** The inner loop of `only_choice` over the nine digits for one unit. */
  method ChooseInUnit(values: Values, unit: seq<string>) returns (r: Values)
    requires IsGrid(values) && unit in UnitList()
    ensures IsGrid(r) && Picks(values, r) && KeepsSolutions(values, r)
    ensures Settled(values, r, unit)
  {
    UnitShape(unit);
    r := values;
    var j := 0;
    while j < |Digits|
      invariant 0 <= j <= |Digits|
      invariant IsGrid(r) && Picks(values, r) && KeepsSolutions(values, r)
      invariant forall n, p :: 0 <= n < j && OnlyPlace(values, unit, Digits[n], p) ==> p in r && |r[p]| == 1
    {
      var digit := Digits[j];
      var dplaces := Places(r, unit, digit);
      ghost var w := r;
      if |dplaces| == 1 {
        UnitMembersAreBoxes(unit, dplaces[0]);
        SoundStep(values, r, unit, digit);
        PicksStep(values, r, dplaces[0], digit);
        r := r[dplaces[0] := [digit]];
      }
      PlacedStep(values, w, r, unit, j);
      j := j + 1;
    }
    forall d, p | d in Digits && OnlyPlace(values, unit, d, p)
      ensures p in r && |r[p]| == 1
    {
      var n :| 0 <= n < |Digits| && Digits[n] == d;
    }
  }

  /** Every box that was in v the only place of a digit in u holds in w a single candidate. */
  ghost predicate Settled(v: Values, w: Values, u: seq<string>) {
    forall d, p :: d in Digits && OnlyPlace(v, u, d, p) ==> p in w && |w[p]| == 1
  }

  /** One digit of ChooseInUnit: a box that was the digit's only place in the
      unit at the start now holds a single candidate, and so do those of the
      earlier digits. */
  lemma PlacedStep(v: Values, w: Values, w': Values, unit: seq<string>, j: nat)
    requires IsGrid(v) && IsGrid(w) && Picks(v, w) && j < |Digits|
    requires Distinct(unit) && forall b :: b in unit ==> b in Boxes
    requires forall n, p :: 0 <= n < j && OnlyPlace(v, unit, Digits[n], p) ==> p in w && |w[p]| == 1
    requires var places := Places(w, unit, Digits[j]);
      w' == if |places| == 1 then w[places[0] := [Digits[j]]] else w
    ensures forall n, p :: 0 <= n < j + 1 && OnlyPlace(v, unit, Digits[n], p) ==> p in w' && |w'[p]| == 1
  {
    var d := Digits[j];
    var places := Places(w, unit, d);
    PlacesDistinct(w, unit, d);
    forall n, p | 0 <= n < j + 1 && OnlyPlace(v, unit, Digits[n], p)
      ensures |w'[p]| == 1
    {
      if n == j {
        forall x | x in places
          ensures x == p
        {
          PickedFrom(v, w, x, d);
        }
        if p in places {
          DistinctSingleton(places, p);
        } else {
          assert w[p] != v[p];
        }
      }
    }
  }

  /** The digit's only candidate box in w is where every solution puts it. */
  lemma SoundStep(v: Values, w: Values, u: seq<string>, d: char)
    requires IsGrid(w) && KeepsSolutions(v, w) && u in UnitList() && d in Digits
    requires forall b :: b in u ==> b in w
    requires |Places(w, u, d)| == 1
    ensures KeepsSolutions(v, w[Places(w, u, d)[0] := [d]])
  {
    var q := Places(w, u, d)[0];
    UnitMembersAreBoxes(u, q);
    UnitShape(u);
    forall sol | IsSolution(sol) && Consistent(sol, v)
      ensures Consistent(sol, w[q := [d]])
    {
      assert Consistent(sol, w);
      SolutionCoversUnit(sol, u, d);
      var b :| b in u && b in sol && sol[b] == d;
      SolutionPlaced(sol, w, u, d, b);
      ConsistentUpdate(sol, w, q, [d]);
    }
  }

  /** A solution allowed by w that puts d on a box of u puts it on the only box
      of u that can hold d. */
  lemma SolutionPlaced(sol: map<string, char>, w: Values, u: seq<string>, d: char, b: string)
    requires Consistent(sol, w) && forall x :: x in u ==> x in Boxes
    requires b in u && sol[b] == d
    requires |Places(w, u, d)| == 1
    ensures Places(w, u, d)[0] == b
  {
    var places := Places(w, u, d);
    assert d in w[b];
    assert b in places;
  }

  lemma ConsistentUpdate(sol: map<string, char>, w: Values, q: string, value: string)
    requires Consistent(sol, w) && q in Boxes && sol[q] in value
    ensures Consistent(sol, w[q := value])
  {
  }

  /** A box that was the only place of a digit in a unit of v is, in a board
      picked from v, a single candidate or still that only place. */
  lemma OnlyPlaceKept(v: Values, w: Values, u: seq<string>, d: char, p: string)
    requires Picks(v, w) && OnlyPlace(v, u, d, p) && forall b :: b in u ==> b in Boxes
    ensures p in w && (|w[p]| == 1 || OnlyPlace(w, u, d, p))
  {
  }

  /** `only_choice(values)`: a digit that fits a single box of a unit is placed
      there. Every box keeps its candidates or is reduced to one of them, no
      solution is lost, and every box that was the only place of a digit in one
      of its units holds a single candidate. */
  method OnlyChoice(values: Values) returns (r: Values)
    requires IsGrid(values)
    ensures IsGrid(r) && Picks(values, r) && KeepsSolutions(values, r)
    ensures forall u, d, p :: u in UnitList() && d in Digits && OnlyPlace(values, u, d, p) ==> p in r && |r[p]| == 1
  {
    var units := UnitList();
    r := values;
    var i := 0;
    while i < |units|
      invariant 0 <= i <= |units|
      invariant IsGrid(r) && Picks(values, r) && KeepsSolutions(values, r)
      invariant forall k :: 0 <= k < i ==> Settled(values, r, units[k])
    {
      var next := ChooseInUnit(r, units[i]);
      UnitInBoxes(units[i]);
      UnitStep(values, r, next, units, i);
      r := next;
      i := i + 1;
    }
    EveryUnitSettled(values, r, units);
  }

  lemma UnitStep(v: Values, w: Values, w': Values, units: seq<seq<string>>, i: nat)
    requires i < |units| && forall b :: b in units[i] ==> b in Boxes
    requires IsGrid(w) && Picks(v, w) && Picks(w, w')
    requires forall k :: 0 <= k < i ==> Settled(v, w, units[k])
    requires Settled(w, w', units[i])
    ensures Picks(v, w')
    ensures forall k :: 0 <= k < i + 1 ==> Settled(v, w', units[k])
  {
    PicksTransitive(v, w, w');
    forall k | 0 <= k < i + 1
      ensures Settled(v, w', units[k])
    {
      if k < i {
        SettledKept(v, w, w', units[k]);
      } else {
        SettledThrough(v, w, w', units[k]);
      }
    }
  }

  /** A single candidate stays single. */
  lemma SettledKept(v: Values, w: Values, w': Values, u: seq<string>)
    requires IsGrid(w) && Settled(v, w, u) && Picks(w, w')
    ensures Settled(v, w', u)
  {
  }

  /** The only place of a digit in v that has not been reduced to one candidate
      in w is still its only place in w. */
  lemma SettledThrough(v: Values, w: Values, w': Values, u: seq<string>)
    requires Picks(v, w) && Picks(w, w') && Settled(w, w', u) && forall b :: b in u ==> b in Boxes
    ensures Settled(v, w', u)
  {
    forall d, p | d in Digits && OnlyPlace(v, u, d, p)
      ensures p in w' && |w'[p]| == 1
    {
      OnlyPlaceKept(v, w, u, d, p);
    }
  }

  lemma EveryUnitSettled(v: Values, w: Values, units: seq<seq<string>>)
    requires forall k :: 0 <= k < |units| ==> Settled(v, w, units[k])
    ensures forall u, d, p :: u in units && d in Digits && OnlyPlace(v, u, d, p) ==> p in w && |w[p]| == 1
  {
    forall u, d, p | u in units && d in Digits && OnlyPlace(v, u, d, p)
      ensures p in w && |w[p]| == 1
    {
      var k :| 0 <= k < |units| && units[k] == u;
      assert Settled(v, w, units[k]);
    }
  }

  /** When the board has a solution, a box that was the only place of a digit
      in one of its units and that a solution-keeping step left with a single
      candidate holds exactly that digit. */
  lemma OnlyPlaceGetsDigit(values: Values, r: Values, unit: seq<string>, d: char, p: string, sol: map<string, char>)
    requires IsSolution(sol) && Consistent(sol, values) && KeepsSolutions(values, r)
    requires unit in UnitList() && d in Digits && OnlyPlace(values, unit, d, p)
    requires p in r && |r[p]| == 1
    ensures r[p] == [d]
  {
    UnitShape(unit);
    SolutionCoversUnit(sol, unit, d);
    var b :| b in unit && b in sol && sol[b] == d;
    assert d in values[b];
    assert b == p;
    assert sol[p] in r[p];
    assert r[p] == [r[p][0]];
  }
}
