/** The naked-twins strategy: when k boxes of a column or row hold the same k
    candidates, those k digits are spent on them, and every other box of the
    unit loses them. The strategy only removes candidates, and none that a
    solution of the board uses. */
module SudokuTwins {
  import opened SudokuTables
  import opened SudokuValues

  /** `[temp_box for temp_box in unit if values[temp_box] == digits]`. */
  function Twins(v: Values, unit: seq<string>, digits: string): (r: seq<string>)
    requires forall b :: b in unit ==> b in v
    ensures forall b :: b in r <==> b in unit && v[b] == digits
  {
    if unit == [] then []
    else Twins(v, unit[..|unit| - 1], digits) + if v[unit[|unit| - 1]] == digits then [unit[|unit| - 1]] else []
  }

  /** Picking out the twins of a unit without repeated boxes repeats none. */
  lemma {:induction false} TwinsDistinct(v: Values, unit: seq<string>, digits: string)
    requires forall b :: b in unit ==> b in v
    requires Distinct(unit)
    ensures Distinct(Twins(v, unit, digits))
  {
    if unit != [] {
      var init, last := unit[..|unit| - 1], unit[|unit| - 1];
      TwinsDistinct(v, init, digits);
      assert last !in init;
    }
  }

  /** A string has at most as many different characters as it is long. */
  lemma {:induction false} CharSetCard(s: string)
    ensures |set c | c in s| <= |s|
  {
    if s != [] {
      var init := s[..|s| - 1];
      CharSetCard(init);
      assert (set c | c in s) == (set c | c in init) + {s[|s| - 1]} by {
        assert forall c :: c in s <==> c in init || c == s[|s| - 1];
      }
    }
  }

  /** When as many boxes of a unit hold exactly `digits` as `digits` is long,
      a solution spends those digits on them: no other box of the unit takes
      one of them. */
  lemma TwinsRuleOut(sol: map<string, char>, v: Values, unit: seq<string>, digits: string, b: string)
    requires IsSolution(sol) && Consistent(sol, v) && IsGrid(v) && unit in UnitList()
    requires forall x :: x in unit ==> x in Boxes
    requires b in unit && v[b] != digits
    requires |Twins(v, unit, digits)| == |digits|
    ensures sol[b] !in digits
  {
    UnitShape(unit);
    var T := Twins(v, unit, digits);
    TwinsDistinct(v, unit, digits);
    DistinctCard(T);
    var S := set x | x in T;
    forall x, y | x in S && y in S && x != y
      ensures sol[x] != sol[y]
    {
      UnitPeers(unit, x, y);
    }
    ImageCard(S, sol);
    var I := set x | x in S :: sol[x];
    var D := set c | c in digits;
    assert I <= D;
    CharSetCard(digits);
    if sol[b] in digits {
      if sol[b] !in I {
        RemoveOneCard(D, sol[b]);
        SubsetCard(I, D - {sol[b]});
        assert false;
      }
      var t :| t in S && sol[t] == sol[b];
      UnitPeers(unit, b, t);
      assert false;
    }
  }

  /** The inner loop of `naked_twins`: every box of the unit whose candidates
      differ from `digits` loses the characters of `digits`. */
  method EraseTwins(v: Values, unit: seq<string>, digits: string) returns (r: Values)
    requires IsGrid(v) && Distinct(unit) && forall b :: b in unit ==> b in Boxes
    ensures IsGrid(r)
    ensures forall b :: b in Boxes && b !in unit ==> r[b] == v[b]
    ensures forall b :: b in unit ==> r[b] == if v[b] == digits then v[b] else EraseAll(v[b], digits)
  {
    r := v;
    var i := 0;
    while i < |unit|
      invariant 0 <= i <= |unit|
      invariant IsGrid(r)
      invariant forall b :: b in Boxes && b !in unit[..i] ==> r[b] == v[b]
      invariant forall k :: 0 <= k < i ==> r[unit[k]] == if v[unit[k]] == digits then v[unit[k]] else EraseAll(v[unit[k]], digits)
    {
      var b := unit[i];
      assert b !in unit[..i];
      if r[b] != digits {
        r := r[b := EraseAll(r[b], digits)];
      }
      assert unit[..i + 1] == unit[..i] + [b];
      i := i + 1;
    }
    assert unit[..|unit|] == unit;
  }

  /** Erasing a naked-twin group's digits from the rest of its unit narrows the
      board and loses no solution. */
  lemma EraseTwinsSound(v: Values, w: Values, unit: seq<string>, digits: string)
    requires IsGrid(v) && IsGrid(w) && unit in UnitList()
    requires forall x :: x in unit ==> x in Boxes
    requires |Twins(v, unit, digits)| == |digits|
    requires forall b :: b in Boxes && b !in unit ==> w[b] == v[b]
    requires forall b :: b in unit ==> w[b] == if v[b] == digits then v[b] else EraseAll(v[b], digits)
    ensures Narrows(v, w) && KeepsSolutions(v, w)
  {
    forall sol | IsSolution(sol) && Consistent(sol, v)
      ensures Consistent(sol, w)
    {
      TwinsKeep(sol, v, w, unit, digits);
    }
  }

  lemma TwinsKeep(sol: map<string, char>, v: Values, w: Values, unit: seq<string>, digits: string)
    requires IsSolution(sol) && Consistent(sol, v)
    requires IsGrid(v) && IsGrid(w) && unit in UnitList()
    requires forall x :: x in unit ==> x in Boxes
    requires |Twins(v, unit, digits)| == |digits|
    requires forall b :: b in Boxes && b !in unit ==> w[b] == v[b]
    requires forall b :: b in unit ==> w[b] == if v[b] == digits then v[b] else EraseAll(v[b], digits)
    ensures Consistent(sol, w)
  {
    forall b | b in unit && v[b] != digits
      ensures sol[b] in w[b]
    {
      TwinsRuleOut(sol, v, unit, digits, b);
    }
  }

  /** One unit of `naked_twins`: for each box of the unit with more than one
      candidate whose candidates form a naked-twin group, erase them from the
      rest of the unit. Boxes outside the unit keep their candidates. */
  method TwinsInUnit(values: Values, unit: seq<string>) returns (r: Values)
    requires IsGrid(values) && unit in UnitList()
    ensures IsGrid(r) && Narrows(values, r) && KeepsSolutions(values, r)
    ensures forall b :: b in Boxes && b !in unit ==> r[b] == values[b]
  {
    UnitShape(unit);
    UnitInBoxes(unit);
    r := values;
    var j := 0;
    while j < |unit|
      invariant IsGrid(r) && Narrows(values, r) && KeepsSolutions(values, r)
      invariant forall b :: b in Boxes && b !in unit ==> r[b] == values[b]
    {
      var digits := r[unit[j]];
      if |digits| > 1 {
        var twins := Twins(r, unit, digits);
        if |twins| == |digits| {
          var w := EraseTwins(r, unit, digits);
          EraseTwinsSound(r, w, unit, digits);
          r := w;
        }
      }
      j := j + 1;
    }
  }

  /** `naked_twins(values)`: the strategy applied to every column, then every
      row. The board it returns narrows the input and keeps its solutions. */
  method NakedTwins(values: Values) returns (r: Values)
    requires IsGrid(values)
    ensures IsGrid(r) && Narrows(values, r) && KeepsSolutions(values, r)
  {
    var units := ColumnUnits() + RowUnits();
    r := values;
    var i := 0;
    while i < |units|
      invariant 0 <= i <= |units|
      invariant IsGrid(r) && Narrows(values, r) && KeepsSolutions(values, r)
    {
      assert units[i] in UnitList();
      r := TwinsInUnit(r, units[i]);
      i := i + 1;
    }
  }
}
