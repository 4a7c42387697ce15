/** The fixed tables of the diagonal sudoku: box names, the 29 units (rows,
    columns, 3x3 squares and the two diagonals), the units of a box and its
    peers. */
module SudokuTables {

  const Rows: string := "ABCDEFGHI"
  const Cols: string := "123456789"
  /** The candidates of an empty box, and the digits `only_choice` walks. */
  const Digits: string := "123456789"

  /** No element of s occurs twice. */
  ghost predicate Distinct<T>(s: seq<T>) {
    forall i, j :: 0 <= i < j < |s| ==> s[i] != s[j]
  }

  /** The names `a + t` for every t of B, in order. */
  function Line(a: char, B: string): (r: seq<string>)
    ensures |r| == |B|
    ensures forall j :: 0 <= j < |B| ==> r[j] == [a, B[j]]
  {
    seq(|B|, j requires 0 <= j < |B| => [a, B[j]])
  }

  /** `cross(A, B)`: every `s + t` with s from A and t from B, row-major. */
  function Cross(A: string, B: string): (r: seq<string>)
    ensures |r| == Times(|A|, |B|)
  {
    if A == [] then [] else Line(A[0], B) + Cross(A[1..], B)
  }

  /** The names in cross(A, B) are exactly the pairs of an element of A and one of B. */
  lemma {:induction false} CrossMembers(A: string, B: string)
    ensures forall x :: x in Cross(A, B) <==> |x| == 2 && x[0] in A && x[1] in B
  {
    if A != [] {
      CrossMembers(A[1..], B);
      LineMembers(A[0], B);
      assert Cross(A, B) == Line(A[0], B) + Cross(A[1..], B);
      assert forall c :: c in A <==> c == A[0] || c in A[1..];
    }
  }

  /** a * b by repeated addition, so that counting rows stays linear. */
  function Times(a: nat, b: nat): nat {
    if a == 0 then 0 else b + Times(a - 1, b)
  }

  lemma {:induction false} TimesIsProduct(a: nat, b: nat)
    ensures Times(a, b) == a * b
  {
    if a > 0 {
      TimesIsProduct(a - 1, b);
    }
  }

  lemma LineMembers(a: char, B: string)
    ensures forall x :: x in Line(a, B) <==> |x| == 2 && x[0] == a && x[1] in B
  {
    forall x | |x| == 2 && x[0] == a && x[1] in B
      ensures x in Line(a, B)
    {
      var j :| 0 <= j < |B| && B[j] == x[1];
      assert Line(a, B)[j] == x;
    }
  }

  /** `boxes`: the 81 names A1, A2, ..., I9, row by row; BoxesAreCross shows
      this is `cross(rows, cols)`. */
  const Boxes: seq<string> := BoxNames()

  function BoxNames(): (r: seq<string>)
    ensures |r| == 81
  {
    seq(81, k requires 0 <= k < 81 => [Rows[k / 9], Cols[k % 9]])
  }

  const Bands: seq<string> := ["ABC", "DEF", "GHI"]
  const Stacks: seq<string> := ["123", "456", "789"]

  function RowUnits(): (r: seq<seq<string>>)
    ensures |r| == 9
  {
    seq(9, i requires 0 <= i < 9 => Cross([Rows[i]], Cols))
  }

  function ColumnUnits(): (r: seq<seq<string>>)
    ensures |r| == 9
  {
    seq(9, j requires 0 <= j < 9 => Cross(Rows, [Cols[j]]))
  }

  /** The squares, band by band and, within a band, stack by stack. */
  function SquareUnits(): (r: seq<seq<string>>)
    ensures |r| == 9
  {
    seq(9, k requires 0 <= k < 9 => Cross(Bands[k / 3], Stacks[k % 3]))
  }

  /** The main diagonal A1..I9 and the anti-diagonal A9..I1. */
  function DiagonalUnits(): (r: seq<seq<string>>)
    ensures |r| == 2
  {
    [seq(9, i requires 0 <= i < 9 => [Rows[i], Cols[i]]),
     seq(9, i requires 0 <= i < 9 => [Rows[i], Cols[8 - i]])]
  }

  /** `unitlist`. */
  function UnitList(): (r: seq<seq<string>>)
    ensures |r| == 29
  {
    RowUnits() + ColumnUnits() + SquareUnits() + DiagonalUnits()
  }

  /** `units[s]`: the units that contain s, in `unitlist` order. */
  function Units(s: string): (r: seq<seq<string>>)
    ensures forall u :: u in r <==> u in UnitList() && s in u
  {
    Containing(s, UnitList())
  }

  function Containing(s: string, us: seq<seq<string>>): (r: seq<seq<string>>)
    ensures forall u :: u in r <==> u in us && s in u
  {
    if us == [] then []
    else Containing(s, us[..|us| - 1]) + if s in us[|us| - 1] then [us[|us| - 1]] else []
  }

  /** `sum(units[s], [])`. */
  function Flatten(us: seq<seq<string>>): (r: seq<string>)
    ensures forall x :: x in r <==> exists u :: u in us && x in u
  {
    if us == [] then []
    else
      var r := Flatten(us[..|us| - 1]) + us[|us| - 1];
      assert forall u :: u in us <==> u in us[..|us| - 1] || u == us[|us| - 1];
      r
  }

  /** `peers[s]`: the boxes sharing a unit with s, other than s itself. */
  function Peers(s: string): (r: set<string>)
    ensures forall p :: p in r <==> p != s && exists u :: u in UnitList() && s in u && p in u
    ensures forall p :: p in r ==> p in Boxes
  {
    var r := set p | p in Flatten(Units(s)) && p != s;
    assert forall p :: p in r ==> p in Boxes by {
      forall p | p in r
        ensures p in Boxes
      {
        var u :| u in UnitList() && s in u && p in u;
        UnitMembersAreBoxes(u, p);
      }
    }
    r
  }

  // ------------------------------------------------------------------ facts

  /** Row-major order: the entry at i * |B| + j joins A[i] and B[j]. */
  lemma CrossAt(A: string, B: string, i: nat, j: nat)
    requires i < |A| && j < |B|
    ensures |Cross(A, B)| == |A| * |B|
    ensures i * |B| + j < |Cross(A, B)|
    ensures Cross(A, B)[i * |B| + j] == [A[i], B[j]]
  {
    CrossAtRow(A, B, i, j);
    TimesIsProduct(i, |B|);
    TimesIsProduct(|A|, |B|);
  }

  lemma {:induction false} CrossAtRow(A: string, B: string, i: nat, j: nat)
    requires i < |A| && j < |B|
    ensures Times(i, |B|) + j < |Cross(A, B)|
    ensures Cross(A, B)[Times(i, |B|) + j] == [A[i], B[j]]
  {
    var L, R := Line(A[0], B), Cross(A[1..], B);
    assert Cross(A, B) == L + R;
    if i == 0 {
      assert (L + R)[j] == L[j];
    } else {
      CrossAtRow(A[1..], B, i - 1, j);
      var k := Times(i - 1, |B|) + j;
      assert Times(i, |B|) + j == |L| + k;
      assert (L + R)[|L| + k] == R[k];
      assert A[1..][i - 1] == A[i];
    }
  }

  lemma {:induction false} DistinctConcat<T>(a: seq<T>, b: seq<T>)
    requires Distinct(a) && Distinct(b)
    requires forall x :: x in a ==> x !in b
    ensures Distinct(a + b)
  {
    forall i, j | 0 <= i < j < |a + b|
      ensures (a + b)[i] != (a + b)[j]
    {
      if j >= |a| && i < |a| {
        assert (a + b)[i] in a && (a + b)[j] in b;
      }
    }
  }

  /** Distinct rows and columns give distinct names. */
  lemma {:induction false} CrossDistinct(A: string, B: string)
    requires Distinct(A) && Distinct(B)
    ensures Distinct(Cross(A, B))
  {
    if A != [] {
      CrossDistinct(A[1..], B);
      assert A[0] !in A[1..] by {
        forall k | 0 <= k < |A[1..]|
          ensures A[1..][k] != A[0]
        {
          assert A[1..][k] == A[k + 1];
        }
      }
      LineMembers(A[0], B);
      CrossMembers(A[1..], B);
      DistinctConcat(Line(A[0], B), Cross(A[1..], B));
    }
  }

  /** A two-character name of a row and a column is a box. */
  lemma BoxNamed(x: string)
    requires |x| == 2 && x[0] in Rows && x[1] in Cols
    ensures x in Boxes
  {
    var i :| 0 <= i < 9 && Rows[i] == x[0];
    var j :| 0 <= j < 9 && Cols[j] == x[1];
    var k := 9 * i + j;
    assert k / 9 == i && k % 9 == j;
    assert Boxes[k] == x;
  }

  lemma BoxesShape()
    ensures |Boxes| == 81 && Distinct(Boxes)
    ensures forall b :: b in Boxes <==> |b| == 2 && b[0] in Rows && b[1] in Cols
  {
    LabelsDistinct();
    forall i, j | 0 <= i < j < 81
      ensures Boxes[i] != Boxes[j]
    {
      if i / 9 == j / 9 {
        assert i % 9 != j % 9;
      }
    }
    forall b | |b| == 2 && b[0] in Rows && b[1] in Cols
      ensures b in Boxes
    {
      BoxNamed(b);
    }
  }

  lemma BoxesCount()
    ensures |Boxes| == 81
  {
  }

  /** The names are those of `cross(rows, cols)`, in the same order. */
  lemma BoxesAreCross()
    ensures Boxes == Cross(Rows, Cols)
  {
    forall k | 0 <= k < 81
      ensures Cross(Rows, Cols)[k] == Boxes[k]
    {
      CrossAt(Rows, Cols, k / 9, k % 9);
    }
    assert |Cross(Rows, Cols)| == 81 by {
      TimesIsProduct(9, 9);
    }
  }

  lemma LabelsDistinct()
    ensures Distinct(Rows) && Distinct(Cols) && Distinct(Digits)
    ensures forall k :: 0 <= k < 3 ==> |Bands[k]| == 3 && |Stacks[k]| == 3
    ensures forall k :: 0 <= k < 3 ==> Distinct(Bands[k]) && Distinct(Stacks[k])
    ensures forall k, c :: 0 <= k < 3 && c in Bands[k] ==> c in Rows
    ensures forall k, c :: 0 <= k < 3 && c in Stacks[k] ==> c in Cols
  {
  }

  lemma RowUnitsShape()
    ensures forall u :: u in RowUnits() ==> |u| == 9 && Distinct(u) && forall b :: b in u ==> b in Boxes
  {
    forall k | 0 <= k < 9
      ensures |RowUnits()[k]| == 9 && Distinct(RowUnits()[k])
      ensures forall b :: b in RowUnits()[k] ==> b in Boxes
    {
      LabelsDistinct();
      CrossDistinct([Rows[k]], Cols);
      CrossMembers([Rows[k]], Cols);
      forall b | b in RowUnits()[k]
        ensures b in Boxes
      {
        BoxNamed(b);
      }
    }
  }

  lemma ColumnUnitsShape()
    ensures forall u :: u in ColumnUnits() ==> |u| == 9 && Distinct(u) && forall b :: b in u ==> b in Boxes
  {
    forall k | 0 <= k < 9
      ensures |ColumnUnits()[k]| == 9 && Distinct(ColumnUnits()[k])
      ensures forall b :: b in ColumnUnits()[k] ==> b in Boxes
    {
      LabelsDistinct();
      CrossDistinct(Rows, [Cols[k]]);
      CrossMembers(Rows, [Cols[k]]);
      assert Times(9, 1) == 9;
      forall b | b in ColumnUnits()[k]
        ensures b in Boxes
      {
        BoxNamed(b);
      }
    }
  }

  lemma SquareShape(k: nat)
    requires k < 9
    ensures |SquareUnits()[k]| == 9 && Distinct(SquareUnits()[k])
    ensures forall b :: b in SquareUnits()[k] ==> b in Boxes
  {
    SquareLength(k);
    SquareDistinct(k);
    forall b | b in SquareUnits()[k]
      ensures b in Boxes
    {
      SquareMember(k, b);
    }
  }

  lemma SquareLength(k: nat)
    requires k < 9
    ensures |SquareUnits()[k]| == 9
  {
    LabelsDistinct();
    var bi, si := k / 3, k % 3;
    assert 0 <= bi < 3 && 0 <= si < 3;
    assert Times(3, 3) == 9;
  }

  lemma SquareDistinct(k: nat)
    requires k < 9
    ensures Distinct(SquareUnits()[k])
  {
    LabelsDistinct();
    var bi, si := k / 3, k % 3;
    assert 0 <= bi < 3 && 0 <= si < 3;
    CrossDistinct(Bands[bi], Stacks[si]);
  }

  lemma SquareMember(k: nat, b: string)
    requires k < 9 && b in SquareUnits()[k]
    ensures b in Boxes
  {
    LabelsDistinct();
    var bi, si := k / 3, k % 3;
    assert 0 <= bi < 3 && 0 <= si < 3;
    assert b in Cross(Bands[bi], Stacks[si]);
    CrossMembers(Bands[bi], Stacks[si]);
    BoxNamed(b);
  }

  lemma SquareUnitsShape()
    ensures forall u :: u in SquareUnits() ==> |u| == 9 && Distinct(u) && forall b :: b in u ==> b in Boxes
  {
    forall k | 0 <= k < 9
      ensures |SquareUnits()[k]| == 9 && Distinct(SquareUnits()[k])
      ensures forall b :: b in SquareUnits()[k] ==> b in Boxes
    {
      SquareShape(k);
    }
  }

  lemma DiagonalUnitsShape()
    ensures forall u :: u in DiagonalUnits() ==> |u| == 9 && Distinct(u) && forall b :: b in u ==> b in Boxes
  {
    DiagonalDistinct();
    DiagonalMembers();
    assert forall u :: u in DiagonalUnits() ==> u == DiagonalUnits()[0] || u == DiagonalUnits()[1];
  }

  lemma DiagonalDistinct()
    ensures Distinct(DiagonalUnits()[0]) && Distinct(DiagonalUnits()[1])
  {
    LabelsDistinct();
    var main, anti := DiagonalUnits()[0], DiagonalUnits()[1];
    forall i, j | 0 <= i < j < 9
      ensures main[i] != main[j] && anti[i] != anti[j]
    {
      assert main[i][0] == Rows[i] && main[j][0] == Rows[j];
      assert anti[i][0] == Rows[i] && anti[j][0] == Rows[j];
    }
  }

  lemma DiagonalMembers()
    ensures forall b :: b in DiagonalUnits()[0] ==> b in Boxes
    ensures forall b :: b in DiagonalUnits()[1] ==> b in Boxes
  {
    forall i | 0 <= i < 9
      ensures DiagonalUnits()[0][i] in Boxes && DiagonalUnits()[1][i] in Boxes
    {
      DiagonalMember(i);
    }
  }

  lemma DiagonalMember(i: nat)
    requires i < 9
    ensures DiagonalUnits()[0][i] in Boxes && DiagonalUnits()[1][i] in Boxes
  {
    var x, y := DiagonalUnits()[0][i], DiagonalUnits()[1][i];
    assert x == [Rows[i], Cols[i]];
    assert y == [Rows[i], Cols[8 - i]];
    BoxNamed(x);
    BoxNamed(y);
  }

  /** Each of the 29 units has 9 distinct boxes. */
  lemma UnitShape(u: seq<string>)
    requires u in UnitList()
    ensures |u| == 9 && Distinct(u)
    ensures forall b :: b in u ==> b in Boxes
  {
    RowUnitsShape();
    ColumnUnitsShape();
    SquareUnitsShape();
    DiagonalUnitsShape();
    assert u in RowUnits() || u in ColumnUnits() || u in SquareUnits() || u in DiagonalUnits();
  }

  /** Peers are boxes, and the relation is symmetric and irreflexive. */
  lemma PeerFacts(s: string, p: string)
    requires p in Peers(s)
    ensures p in Boxes && p != s && s in Peers(p)
  {
    var u :| u in UnitList() && s in u && p in u;
    UnitMembersAreBoxes(u, p);
    UnitPeers(u, p, s);
  }

  /** The members of a unit are boxes. */
  lemma UnitInBoxes(u: seq<string>)
    requires u in UnitList()
    ensures forall b :: b in u ==> b in Boxes
  {
    UnitShape(u);
  }

  lemma UnitMembersAreBoxes(u: seq<string>, b: string)
    requires u in UnitList() && b in u
    ensures b in Boxes
  {
    UnitShape(u);
  }

  /** Any two boxes of one unit are peers. */
  lemma UnitPeers(u: seq<string>, a: string, b: string)
    requires u in UnitList() && a in u && b in u && a != b
    ensures b in Peers(a)
  {
  }
}
