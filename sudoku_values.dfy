/** The `values` dictionary (box name to its string of candidate digits), the
    string edits the reducers make, what counts as a solution, the
    `grid_values` parser and the `assign_value` recorder. */
module SudokuValues {
  import opened SudokuTables

  type Values = map<string, string>

  datatype Option<T> = None | Some(value: T)

  /** A board: exactly the 81 boxes are keys. */
  ghost predicate IsGrid(v: Values) {
    forall b :: b in v <==> b in Boxes
  }

  /** Every box of w has no more candidates than in v, each of them one of v's. */
  ghost predicate Narrows(v: Values, w: Values) {
    forall b :: b in Boxes ==> b in v && b in w && |w[b]| <= |v[b]| && forall c :: c in w[b] ==> c in v[b]
  }

  /** No box is left without candidates. */
  ghost predicate NoneEmpty(v: Values) {
    forall b :: b in Boxes ==> b in v && |v[b]| > 0
  }

  /** Every box holds a single candidate. */
  ghost predicate AllSingle(v: Values) {
    forall b :: b in Boxes ==> b in v && |v[b]| == 1
  }

  /** The digit of a single-valued box occurs in none of its peers. */
  ghost predicate PeersConsistent(v: Values) {
    forall s, p :: s in Boxes && s in v && |v[s]| == 1 && p in Peers(s) && p in v ==> v[s][0] !in v[p]
  }

  /** Every candidate on the board is one of the nine digits. */
  ghost predicate DigitsOnly(v: Values) {
    forall b :: b in Boxes ==> b in v && forall c :: c in v[b] ==> c in Digits
  }

  // ------------------------------------------------------------ solutions

  /** A filled diagonal sudoku: a digit per box, different in any two peers. */
  ghost predicate IsSolution(sol: map<string, char>) {
    (forall b :: b in Boxes ==> b in sol && sol[b] in Digits) &&
    forall b, p :: b in sol && p in sol && p in Peers(b) ==> sol[p] != sol[b]
  }

  /** The solution picks, for every box, one of its candidates. */
  ghost predicate Consistent(sol: map<string, char>, v: Values) {
    forall b :: b in Boxes ==> b in sol && b in v && sol[b] in v[b]
  }

  /** Every solution that the board v allowed, the board w still allows. */
  ghost predicate KeepsSolutions(v: Values, w: Values) {
    forall sol :: IsSolution(sol) && Consistent(sol, v) ==> Consistent(sol, w)
  }

  lemma {:induction false} DistinctCard<T>(s: seq<T>)
    requires Distinct(s)
    ensures |set x | x in s| == |s|
  {
    if s != [] {
      var init, last := s[..|s| - 1], s[|s| - 1];
      DistinctCard(init);
      assert (set x | x in s) == (set x | x in init) + {last} by {
        assert forall x :: x in s <==> x in init || x == last;
      }
      assert last !in init;
    }
  }

  /** A map that is one-to-one on S takes S to a set of the same size. */
  lemma {:induction false} ImageCard(S: set<string>, sol: map<string, char>)
    requires forall x :: x in S ==> x in sol
    requires forall x, y :: x in S && y in S && x != y ==> sol[x] != sol[y]
    ensures |set x | x in S :: sol[x]| == |S|
    decreases S
  {
    if S != {} {
      var x :| x in S;
      var rest := S - {x};
      ImageCard(rest, sol);
      assert (set y | y in S :: sol[y]) == (set y | y in rest :: sol[y]) + {sol[x]};
      assert sol[x] !in (set y | y in rest :: sol[y]);
    }
  }

  lemma {:induction false} SubsetCard(A: set<char>, B: set<char>)
    requires A <= B
    ensures |A| <= |B|
    decreases B
  {
    if A != {} {
      var x :| x in A;
      SubsetCard(A - {x}, B - {x});
    }
  }

  /** Pigeonhole: the nine boxes of a unit take nine different digits, so every
      digit occurs in every unit of a solution. */
  lemma SolutionCoversUnit(sol: map<string, char>, u: seq<string>, d: char)
    requires IsSolution(sol) && u in UnitList() && d in Digits
    ensures exists b :: b in u && b in sol && sol[b] == d
  {
    var T := UnitImage(sol, u);
    NineDigitsAreAll(T, d);
  }

  /** Nine digits are all of them. */
  lemma NineDigitsAreAll(T: set<char>, d: char)
    requires forall c :: c in T ==> c in Digits
    requires |T| == 9 && d in Digits
    ensures d in T
  {
    var D := set c | c in Digits;
    DigitSetSize();
    if d !in T {
      var rest := D - {d};
      RemoveOneCard(D, d);
      assert T <= rest;
      SubsetCard(T, rest);
    }
  }

  lemma RemoveOneCard(D: set<char>, d: char)
    requires d in D
    ensures |D - {d}| == |D| - 1
  {
    var rest := D - {d};
    assert D == rest + {d};
  }

  function UnitImage(sol: map<string, char>, u: seq<string>): (T: set<char>)
    requires IsSolution(sol) && u in UnitList()
    ensures forall c :: c in T <==> exists b :: b in u && b in sol && sol[b] == c
    ensures forall c :: c in T ==> c in Digits
    ensures |T| == 9
  {
    UnitShape(u);
    var S := set b | b in u;
    UnitImageCard(sol, u, S);
    set b | b in S :: sol[b]
  }

  lemma UnitImageCard(sol: map<string, char>, u: seq<string>, S: set<string>)
    requires IsSolution(sol) && u in UnitList()
    requires S == set b | b in u
    ensures forall b :: b in S ==> b in sol
    ensures |set b | b in S :: sol[b]| == 9
  {
    UnitShape(u);
    DistinctCard(u);
    forall x, y | x in S && y in S && x != y
      ensures sol[x] != sol[y]
    {
      UnitPeers(u, x, y);
    }
    ImageCard(S, sol);
  }

  lemma DigitSetSize()
    ensures |set c | c in Digits| == 9
  {
    LabelsDistinct();
    DistinctCard(Digits);
  }

  // ------------------------------------------------------------ counting

  /** The number of keys whose box is single-valued. */
  function SolvedCount(v: Values, keys: seq<string>): (n: nat)
    requires forall k :: k in keys ==> k in v
    ensures n <= |keys|
  {
    if keys == [] then 0
    else SolvedCount(v, keys[..|keys| - 1]) + if |v[keys[|keys| - 1]]| == 1 then 1 else 0
  }

  /** The number of candidates over all keys. */
  function TotalLength(v: Values, keys: seq<string>): nat
    requires forall k :: k in keys ==> k in v
  {
    if keys == [] then 0 else TotalLength(v, keys[..|keys| - 1]) + |v[keys[|keys| - 1]]|
  }

  /** A box that stays single-valued keeps the count from falling; one that
      becomes single-valued raises it. */
  lemma {:induction false} SolvedCountGrows(v: Values, w: Values, keys: seq<string>)
    requires forall k :: k in keys ==> k in v && k in w
    requires forall k :: k in keys && |v[k]| == 1 ==> |w[k]| == 1
    ensures SolvedCount(v, keys) <= SolvedCount(w, keys)
    ensures (exists k :: k in keys && |v[k]| != 1 && |w[k]| == 1) ==> SolvedCount(v, keys) < SolvedCount(w, keys)
  {
    if keys != [] {
      var init := keys[..|keys| - 1];
      assert forall k :: k in keys ==> k in init || k == keys[|keys| - 1];
      SolvedCountGrows(v, w, init);
    }
  }

  /** Fewer candidates in every box give a smaller total, strictly if one box shrinks. */
  lemma {:induction false} TotalLengthShrinks(v: Values, w: Values, keys: seq<string>)
    requires forall k :: k in keys ==> k in v && k in w && |w[k]| <= |v[k]|
    ensures TotalLength(w, keys) <= TotalLength(v, keys)
    ensures (exists k :: k in keys && |w[k]| < |v[k]|) ==> TotalLength(w, keys) < TotalLength(v, keys)
  {
    if keys != [] {
      var init := keys[..|keys| - 1];
      assert forall k :: k in keys ==> k in init || k == keys[|keys| - 1];
      TotalLengthShrinks(v, w, init);
    }
  }

  // ------------------------------------------------------------ string edits

  /** `s.replace(pat, '')`: the non-overlapping occurrences of pat, left to
      right, are cut out; an empty pat changes nothing. */
  function Replace(s: string, pat: string): (r: string)
    ensures |r| <= |s|
    ensures forall x :: x in r ==> x in s
    ensures |pat| == 1 ==> forall x :: x in r <==> x in s && x != pat[0]
    ensures pat == [] ==> r == s
    decreases |s|
  {
    if pat == [] || |s| < |pat| then s
    else if s[..|pat|] == pat then Replace(s[|pat|..], pat)
    else [s[0]] + Replace(s[1..], pat)
  }

  /** Removing a digit of at most one character from a single-candidate box
      either empties it or leaves it as it was. */
  lemma ReplaceSingle(x: char, digit: string)
    requires |digit| <= 1
    ensures Replace([x], digit) == (if digit == [x] then [] else [x])
  {
    var r := Replace([x], digit);
    if digit != [] && digit != [x] {
      assert x in [x] && x != digit[0];
      assert x in r;
    }
  }

  /** A one-character string holding x is [x]. */
  lemma SingleIs(s: string, x: char)
    requires |s| == 1 && x in s
    ensures s == [x]
  {
    assert s[0] == x;
  }

  /** A character other than the one removed survives `replace`. */
  lemma ReplaceKeeps(s: string, digit: string, x: char)
    requires |digit| == 1 && x in s && x != digit[0]
    ensures x in Replace(s, digit)
  {
  }

  /** `re.sub('[' + digits + ']', '', s)`: every character of digits goes. */
  function EraseAll(s: string, digits: string): (r: string)
    ensures forall x :: x in r <==> x in s && x !in digits
    ensures |r| <= |s|
  {
    if s == [] then []
    else (if s[0] in digits then [] else [s[0]]) + EraseAll(s[1..], digits)
  }

  // ------------------------------------------------------------ grid_values

  /** What `grid_values` keeps of one character: a digit as itself, '.' as all
      nine digits, anything else nothing. */
  function Keep(c: char): seq<string> {
    (if c in Digits then [[c]] else []) + (if c == '.' then [Digits] else [])
  }

  /** The `chars` list `grid_values` builds from a grid string. */
  function Kept(grid: string): (r: seq<string>)
    ensures forall i :: 0 <= i < |r| ==> r[i] == Digits || (|r[i]| == 1 && r[i][0] in Digits)
  {
    if grid == [] then [] else Kept(grid[..|grid| - 1]) + Keep(grid[|grid| - 1])
  }

  /** `dict(zip(boxes, chars))`. */
  function ZipBoxes(chars: seq<string>): (r: Values)
    requires |chars| == 81
    ensures IsGrid(r)
    ensures forall i :: 0 <= i < 81 ==> r[Boxes[i]] == chars[i]
  {
    BoxesShape();
    map i | 0 <= i < 81 :: Boxes[i] := chars[i]
  }

  /** `grid_values(grid)`; the failed length assertion is None. */
  method GridValues(grid: string) returns (r: Option<Values>)
    ensures r.Some? <==> |Kept(grid)| == 81
    ensures r.Some? ==> IsGrid(r.value) && forall i :: 0 <= i < 81 ==> r.value[Boxes[i]] == Kept(grid)[i]
  {
    var chars: seq<string> := [];
    var i := 0;
    while i < |grid|
      invariant 0 <= i <= |grid|
      invariant chars == Kept(grid[..i])
    {
      var c := grid[i];
      assert grid[..i + 1][..i] == grid[..i];
      if c in Digits {
        chars := chars + [[c]];
      }
      if c == '.' {
        chars := chars + [Digits];
      }
      i := i + 1;
    }
    assert grid[..|grid|] == grid;
    if |chars| != 81 {
      return None;
    }
    return Some(ZipBoxes(chars));
  }

  /** On a grid written only with digits and dots, the i-th character becomes
      the i-th candidate string: itself, or all digits for a dot. */
  lemma {:induction false} KeptOfPlainGrid(grid: string)
    requires forall i :: 0 <= i < |grid| ==> grid[i] in Digits || grid[i] == '.'
    ensures |Kept(grid)| == |grid|
    ensures forall i :: 0 <= i < |grid| ==> Kept(grid)[i] == if grid[i] == '.' then Digits else [grid[i]]
  {
    if grid != [] {
      var init := grid[..|grid| - 1];
      KeptOfPlainGrid(init);
      var last := grid[|grid| - 1];
      assert '.' !in Digits;
      assert Keep(last) == if last == '.' then [Digits] else [[last]];
    }
  }

  /** Characters other than digits and dots are skipped. */
  lemma KeptSkips(grid: string, c: char)
    requires c !in Digits && c != '.'
    ensures Kept(grid + [c]) == Kept(grid)
  {
    assert (grid + [c])[..|grid|] == grid;
  }

  // ------------------------------------------------------------ assign_value

  /** The global `assignments` list that `assign_value` appends snapshots to. */
  class Recorder {
    var assignments: seq<Values>

    constructor ()
      ensures assignments == []
    {
      assignments := [];
    }

    /** `assign_value(values, box, value)`: the box gets the value, and the board
        is recorded exactly when the value is a single digit. */
    method AssignValue(values: Values, box: string, value: string) returns (r: Values)
      modifies this
      ensures r == values[box := value]
      ensures assignments == old(assignments) + if |value| == 1 then [r] else []
    {
      r := values[box := value];
      if |value| == 1 {
        assignments := assignments + [r];
      }
    }
  }
}
