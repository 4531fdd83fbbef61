/** The static structure of a diagonal 9x9 Sudoku: cells, the 29 units
    (9 rows, 9 columns, 9 boxes and the two main diagonals), the units of
    each cell and the peers of each cell. */
module Topology {

  /** A digit, one character '1'..'9' of a candidate string. */
  type Digit = d: int | 1 <= d <= 9 witness 1

  /** A row label 'A'..'I' or a column label '1'..'9', as 0..8. */
  type Label = i: int | 0 <= i < 9

  /** A cell ("box name" such as 'B7'), as its row-major index 9 * row + column;
      the order 0..80 is the order of the source's `boxes` list. */
  type Cell = c: int | 0 <= c < 81

  /** A unit is an ordered list of cells. */
  type Unit = seq<Cell>

  /** `rows` ('ABCDEFGHI') and `cols` ('123456789'). */
  function Rows(): seq<Label> { seq(9, i requires 0 <= i < 9 => i) }
  function Cols(): seq<Label> { seq(9, i requires 0 <= i < 9 => i) }

  function CellOf(r: Label, c: Label): Cell { 9 * r + c }
  function RowOf(x: Cell): Label { x / 9 }
  function ColOf(x: Cell): Label { x % 9 }

  /** The index of the square unit holding `x`: its row group times three plus its column group. */
  function SquareOf(x: Cell): Label { 3 * (RowOf(x) / 3) + ColOf(x) / 3 }

  lemma SquareOfParts(x: Cell)
    ensures SquareOf(x) / 3 == RowOf(x) / 3 && SquareOf(x) % 3 == ColOf(x) / 3
  {
    var a, b := RowOf(x) / 3, ColOf(x) / 3;
    assert 0 <= a < 3 && 0 <= b < 3;
    assert SquareOf(x) == 3 * a + b;
  }

  lemma CellOfParts(x: Cell)
    ensures CellOf(RowOf(x), ColOf(x)) == x
  {}

  lemma PartsOfCell(r: Label, c: Label)
    ensures RowOf(CellOf(r, c)) == r && ColOf(CellOf(r, c)) == c
  {}

  predicate Distinct<T(==)>(s: seq<T>) {
    forall i, j :: 0 <= i < j < |s| ==> s[i] != s[j]
  }

  /** The concatenation product of row labels and column labels (`cross`):
      every row of `rs` in turn, each paired with every column of `cs`. */
  function Cross(rs: seq<Label>, cs: seq<Label>): (u: seq<Cell>)
    ensures |u| == |rs| * |cs|
  {
    if rs == [] then []
    else seq(|cs|, j requires 0 <= j < |cs| => CellOf(rs[0], cs[j])) + Cross(rs[1..], cs)
  }

  lemma {:induction false} CrossMembers(rs: seq<Label>, cs: seq<Label>, x: Cell)
    ensures x in Cross(rs, cs) <==> RowOf(x) in rs && ColOf(x) in cs
  {
    if rs != [] {
      CrossMembers(rs[1..], cs, x);
      var block := seq(|cs|, j requires 0 <= j < |cs| => CellOf(rs[0], cs[j]));
      assert Cross(rs, cs) == block + Cross(rs[1..], cs);
      if RowOf(x) == rs[0] && ColOf(x) in cs {
        var j :| 0 <= j < |cs| && cs[j] == ColOf(x);
        CellOfParts(x);
        assert block[j] == x;
      }
      if x in block {
        var j :| 0 <= j < |cs| && block[j] == x;
        PartsOfCell(rs[0], cs[j]);
      }
      assert rs == [rs[0]] + rs[1..];
    }
  }

  lemma {:induction false} CrossDistinct(rs: seq<Label>, cs: seq<Label>)
    requires Distinct(rs) && Distinct(cs)
    ensures Distinct(Cross(rs, cs))
  {
    if rs != [] {
      CrossDistinct(rs[1..], cs);
      var block := seq(|cs|, j requires 0 <= j < |cs| => CellOf(rs[0], cs[j]));
      var rest := Cross(rs[1..], cs);
      assert Cross(rs, cs) == block + rest;
      forall i, j | 0 <= i < j < |block| ensures block[i] != block[j] {
        PartsOfCell(rs[0], cs[i]);
        PartsOfCell(rs[0], cs[j]);
      }
      forall i, j | 0 <= i < |block| && 0 <= j < |rest| ensures block[i] != rest[j] {
        PartsOfCell(rs[0], cs[i]);
        CrossMembers(rs[1..], cs, rest[j]);
        assert RowOf(rest[j]) in rs[1..];
      }
    }
  }

  /** The unit of row `r` (`cross(r, cols)`). */
  function RowUnit(r: Label): Unit { Cross([Rows()[r]], Cols()) }

  /** The unit of column `c` (`cross(rows, c)`). */
  function ColumnUnit(c: Label): Unit { Cross(Rows(), [Cols()[c]]) }

  /** The row groups ('ABC', 'DEF', 'GHI') and column groups ('123', '456', '789'). */
  function Bands(): seq<seq<Label>> { seq(3, b requires 0 <= b < 3 => seq(3, i requires 0 <= i < 3 => 3 * b + i)) }
  function Stacks(): seq<seq<Label>> { seq(3, b requires 0 <= b < 3 => seq(3, i requires 0 <= i < 3 => 3 * b + i)) }

  /** The `k`-th square unit, row groups outermost and column groups innermost. */
  function SquareUnit(k: Label): Unit { Cross(Bands()[k / 3], Stacks()[k % 3]) }

  /** `zip(rows, cols)`: A1, B2, ..., I9. */
  function Diagonal(): Unit { seq(9, i requires 0 <= i < 9 => CellOf(Rows()[i], Cols()[i])) }

  /** `zip(rows, cols[::-1])`: A9, B8, ..., I1. */
  function AntiDiagonal(): Unit { seq(9, i requires 0 <= i < 9 => CellOf(Rows()[i], Cols()[8 - i])) }

  /** The `k`-th unit of `unitlist`: the row, column and square units, then the
      two diagonal units. */
  function UnitAt(k: int): Unit
    requires 0 <= k < 29
  {
    if k < 9 then RowUnit(k)
    else if k < 18 then ColumnUnit(k - 9)
    else if k < 27 then SquareUnit(k - 18)
    else if k == 27 then Diagonal()
    else AntiDiagonal()
  }

  /** `unitlist`. */
  function UnitList(): seq<Unit> {
    seq(29, k requires 0 <= k < 29 => UnitAt(k))
  }

  /** The units `UnitAt(k)`, for `k` from `from` on, that contain `c`, in unit-list order. */
  function UnitsFrom(c: Cell, from: nat): (r: seq<Unit>)
    requires from <= 29
    ensures forall u :: u in r <==> exists k :: from <= k < 29 && UnitAt(k) == u && c in u
    decreases 29 - from
  {
    if from == 29 then []
    else (if c in UnitAt(from) then [UnitAt(from)] else []) + UnitsFrom(c, from + 1)
  }

  /** `units[c]`: the units of the unit list that contain `c`, in unit-list order. */
  function UnitsOf(c: Cell): seq<Unit> {
    UnitsFrom(c, 0)
  }

  /** `peers[c]`: the union of the units of `c`, without `c` itself. */
  function Peers(c: Cell): set<Cell> {
    set u, p | u in UnitsOf(c) && p in u && p != c :: p
  }

  lemma LabelMembers(y: Label, b: int)
    requires 0 <= b < 3
    ensures y in Rows() && y in Cols()
    ensures y in Bands()[b] <==> y / 3 == b
    ensures y in Stacks()[b] <==> y / 3 == b
  {
    assert Rows()[y] == y && Cols()[y] == y;
    if y / 3 == b {
      assert Bands()[b][y % 3] == y && Stacks()[b][y % 3] == y;
    }
  }

  lemma RowUnitMembers(r: Label, x: Cell)
    ensures x in RowUnit(r) <==> RowOf(x) == r
  {
    CrossMembers([Rows()[r]], Cols(), x);
    LabelMembers(ColOf(x), 0);
  }

  lemma ColumnUnitMembers(c: Label, x: Cell)
    ensures x in ColumnUnit(c) <==> ColOf(x) == c
  {
    CrossMembers(Rows(), [Cols()[c]], x);
    LabelMembers(RowOf(x), 0);
  }

  lemma SquareUnitMembers(k: Label, x: Cell)
    ensures x in SquareUnit(k) <==> RowOf(x) / 3 == k / 3 && ColOf(x) / 3 == k % 3
  {
    CrossMembers(Bands()[k / 3], Stacks()[k % 3], x);
    LabelMembers(RowOf(x), k / 3);
    LabelMembers(ColOf(x), k % 3);
  }

  lemma DiagonalMembers(x: Cell)
    ensures x in Diagonal() <==> RowOf(x) == ColOf(x)
  {
    if x in Diagonal() {
      var i :| 0 <= i < 9 && Diagonal()[i] == x;
      assert x == CellOf(i, i);
      PartsOfCell(i, i);
    }
    if RowOf(x) == ColOf(x) {
      var r := RowOf(x);
      CellOfParts(x);
      assert Diagonal()[r] == CellOf(r, r);
    }
  }

  lemma AntiDiagonalMembers(x: Cell)
    ensures x in AntiDiagonal() <==> RowOf(x) + ColOf(x) == 8
  {
    if x in AntiDiagonal() {
      var i :| 0 <= i < 9 && AntiDiagonal()[i] == x;
      assert x == CellOf(i, 8 - i);
      PartsOfCell(i, 8 - i);
    }
    if RowOf(x) + ColOf(x) == 8 {
      var r := RowOf(x);
      CellOfParts(x);
      assert AntiDiagonal()[r] == CellOf(r, 8 - r);
    }
  }

  lemma LabelsDistinct()
    ensures Distinct(Rows()) && Distinct(Cols())
    ensures forall b :: 0 <= b < 3 ==> Distinct(Bands()[b]) && Distinct(Stacks()[b])
  {}

  lemma RowUnitShape(r: Label)
    ensures |RowUnit(r)| == 9 && Distinct(RowUnit(r))
  {
    LabelsDistinct();
    CrossDistinct([Rows()[r]], Cols());
  }

  lemma ColumnUnitShape(c: Label)
    ensures |ColumnUnit(c)| == 9 && Distinct(ColumnUnit(c))
  {
    LabelsDistinct();
    CrossDistinct(Rows(), [Cols()[c]]);
  }

  lemma SquareUnitShape(k: Label)
    ensures |SquareUnit(k)| == 9 && Distinct(SquareUnit(k))
  {
    LabelsDistinct();
    CrossDistinct(Bands()[k / 3], Stacks()[k % 3]);
  }

  lemma DiagonalShape()
    ensures |Diagonal()| == 9 && Distinct(Diagonal())
    ensures |AntiDiagonal()| == 9 && Distinct(AntiDiagonal())
  {
    forall i, j | 0 <= i < j < 9 ensures Diagonal()[i] != Diagonal()[j] {
      assert Diagonal()[i] == 10 * i && Diagonal()[j] == 10 * j;
    }
    forall i, j | 0 <= i < j < 9 ensures AntiDiagonal()[i] != AntiDiagonal()[j] {
      assert AntiDiagonal()[i] == 8 * i + 8 && AntiDiagonal()[j] == 8 * j + 8;
    }
  }

  lemma UnitAtShape(k: int)
    requires 0 <= k < 29
    ensures |UnitAt(k)| == 9 && Distinct(UnitAt(k))
  {
    if k < 9 {
      RowUnitShape(k);
    } else if k < 18 {
      ColumnUnitShape(k - 9);
    } else if k < 27 {
      SquareUnitShape(k - 18);
    } else {
      DiagonalShape();
    }
  }

  /** There are 29 units, each of 9 distinct cells; so are the units of every cell. */
  lemma UnitListShape()
    ensures |UnitList()| == 29
    ensures forall u :: u in UnitList() ==> |u| == 9 && Distinct(u)
    ensures forall c: Cell, u :: u in UnitsOf(c) ==> |u| == 9 && Distinct(u) && c in u
  {
    forall k | 0 <= k < 29 ensures |UnitAt(k)| == 9 && Distinct(UnitAt(k)) {
      UnitAtShape(k);
    }
  }

  /** The two diagonal units are A1, B2, ..., I9 and A9, B8, ..., I1. */
  lemma DiagonalUnits()
    ensures UnitList()[27] == [0, 10, 20, 30, 40, 50, 60, 70, 80]
    ensures UnitList()[28] == [8, 16, 24, 32, 40, 48, 56, 64, 72]
  {
    var d, a := Diagonal(), AntiDiagonal();
    assert UnitAt(27) == d && UnitAt(28) == a;
    var us := UnitList();
    assert us[27] == UnitAt(27) && us[28] == UnitAt(28);
    assert d == [0, 10, 20, 30, 40, 50, 60, 70, 80] by {
      forall i | 0 <= i < 9 ensures d[i] == 10 * i {}
    }
    assert a == [8, 16, 24, 32, 40, 48, 56, 64, 72] by {
      forall i | 0 <= i < 9 ensures a[i] == 8 * i + 8 {}
    }
  }

  lemma UnitAtOf(x: Cell, k: int)
    requires 0 <= k < 29 && x in UnitAt(k)
    ensures UnitAt(k) in UnitsOf(x)
  {}

  /** The row, column and square units of a cell are three different units. */
  lemma OwnUnitsDiffer(x: Cell)
    ensures RowUnit(RowOf(x)) != ColumnUnit(ColOf(x))
    ensures RowUnit(RowOf(x)) != SquareUnit(SquareOf(x))
    ensures ColumnUnit(ColOf(x)) != SquareUnit(SquareOf(x))
  {
    var r, c, sq := RowOf(x), ColOf(x), SquareOf(x);
    SquareOfParts(x);
    // y1 shares the row of x but not its column group; y2 shares the column but not the row group
    var c' := if c < 3 then c + 3 else c - 3;
    var r' := if r < 3 then r + 3 else r - 3;
    assert c' / 3 != c / 3 && r' / 3 != r / 3;
    var y1, y2 := CellOf(r, c'), CellOf(r', c);
    PartsOfCell(r, c');
    PartsOfCell(r', c);
    RowUnitMembers(r, y1);
    ColumnUnitMembers(c, y1);
    SquareUnitMembers(sq, y1);
    RowUnitMembers(r, y2);
    ColumnUnitMembers(c, y2);
    SquareUnitMembers(sq, y2);
  }

  lemma RowUnitOf(x: Cell)
    ensures RowUnit(RowOf(x)) in UnitsOf(x)
  {
    RowUnitMembers(RowOf(x), x);
    assert UnitAt(RowOf(x)) == RowUnit(RowOf(x));
    UnitAtOf(x, RowOf(x));
  }

  lemma ColumnUnitOf(x: Cell)
    ensures ColumnUnit(ColOf(x)) in UnitsOf(x)
  {
    ColumnUnitMembers(ColOf(x), x);
    assert UnitAt(9 + ColOf(x)) == ColumnUnit(ColOf(x));
    UnitAtOf(x, 9 + ColOf(x));
  }

  lemma SquareUnitOf(x: Cell)
    ensures SquareUnit(SquareOf(x)) in UnitsOf(x)
  {
    SquareOfParts(x);
    SquareUnitMembers(SquareOf(x), x);
    assert UnitAt(18 + SquareOf(x)) == SquareUnit(SquareOf(x));
    UnitAtOf(x, 18 + SquareOf(x));
  }

  /** Every cell belongs to its own row, column and square units, which are three
      different units of the unit list. */
  lemma CellHasThreeUnits(x: Cell)
    ensures RowUnit(RowOf(x)) in UnitsOf(x)
    ensures ColumnUnit(ColOf(x)) in UnitsOf(x)
    ensures SquareUnit(SquareOf(x)) in UnitsOf(x)
    ensures |UnitsOf(x)| >= 3
  {
    RowUnitOf(x);
    ColumnUnitOf(x);
    SquareUnitOf(x);
    OwnUnitsDiffer(x);
    ThreeMembers(UnitsOf(x), RowUnit(RowOf(x)), ColumnUnit(ColOf(x)), SquareUnit(SquareOf(x)));
  }

  lemma ThreeMembers<T>(s: seq<T>, a: T, b: T, c: T)
    requires a in s && b in s && c in s
    requires a != b && a != c && b != c
    ensures |s| >= 3
  {
    assert {a, b, c} <= set x | x in s;
    SeqSetSize(s);
  }

  lemma {:induction false} SeqSetSize<T>(s: seq<T>)
    ensures |set x | x in s| <= |s|
  {
    if s != [] {
      SeqSetSize(s[1..]);
      assert (set x | x in s) == {s[0]} + set x | x in s[1..];
    }
  }

  lemma {:induction false} DistinctSetSize<T>(s: seq<T>)
    requires Distinct(s)
    ensures |set x | x in s| == |s|
  {
    if s != [] {
      var t := s[1..];
      forall i, j | 0 <= i < j < |t| ensures t[i] != t[j] {
        assert t[i] == s[i + 1] && t[j] == s[j + 1];
      }
      DistinctSetSize(t);
      forall i | 0 <= i < |t| ensures t[i] != s[0] {
        assert t[i] == s[i + 1];
      }
      assert (set x | x in s) == {s[0]} + set x | x in t;
    }
  }

  /** A cell is a peer of another exactly when the two are different and share a unit;
      in particular no cell is its own peer and the relation is symmetric. */
  lemma PeersShareUnit(c: Cell, p: Cell)
    ensures p in Peers(c) <==> p != c && exists k :: 0 <= k < 29 && c in UnitAt(k) && p in UnitAt(k)
    ensures c !in Peers(c)
    ensures p in Peers(c) <==> c in Peers(p)
  {
    if p != c && exists k :: 0 <= k < 29 && c in UnitAt(k) && p in UnitAt(k) {
      var k :| 0 <= k < 29 && c in UnitAt(k) && p in UnitAt(k);
      UnitAtOf(c, k);
      UnitAtOf(p, k);
    }
  }

  /** Two different cells of one unit are peers. */
  lemma UnitMembersArePeers(k: int, a: Cell, b: Cell)
    requires 0 <= k < 29 && a in UnitAt(k) && b in UnitAt(k) && a != b
    ensures b in Peers(a)
  {
    PeersShareUnit(a, b);
  }

  /** Membership of the `k`-th unit in terms of a cell's row, column and square. */
  lemma UnitAtMembers(k: int, x: Cell)
    requires 0 <= k < 29
    ensures x in UnitAt(k) <==>
      (k < 9 && RowOf(x) == k) || (9 <= k < 18 && ColOf(x) == k - 9) ||
      (18 <= k < 27 && SquareOf(x) == k - 18) ||
      (k == 27 && RowOf(x) == ColOf(x)) || (k == 28 && RowOf(x) + ColOf(x) == 8)
  {
    if k < 9 {
      RowUnitMembers(k, x);
    } else if k < 18 {
      ColumnUnitMembers(k - 9, x);
    } else if k < 27 {
      var q := k - 18;
      SquareUnitMembers(q, x);
      SquareOfParts(x);
      assert q == 3 * (q / 3) + q % 3;
    } else if k == 27 {
      DiagonalMembers(x);
    } else {
      AntiDiagonalMembers(x);
    }
  }

  /** `a` and `b` lie in a common row, column, square or diagonal. */
  predicate SameHouse(a: Cell, b: Cell) {
    RowOf(a) == RowOf(b) || ColOf(a) == ColOf(b) || SquareOf(a) == SquareOf(b) ||
    (RowOf(a) == ColOf(a) && RowOf(b) == ColOf(b)) ||
    (RowOf(a) + ColOf(a) == 8 && RowOf(b) + ColOf(b) == 8)
  }

  /** The peers of a cell are exactly the other cells of its row, its column, its square and,
      for a cell on a diagonal, that diagonal. */
  lemma PeersByPosition(a: Cell, b: Cell)
    ensures b in Peers(a) <==> a != b && SameHouse(a, b)
  {
    PeersShareUnit(a, b);
    if a != b && SameHouse(a, b) {
      var k :=
        if RowOf(a) == RowOf(b) then RowOf(a)
        else if ColOf(a) == ColOf(b) then 9 + ColOf(a)
        else if SquareOf(a) == SquareOf(b) then 18 + SquareOf(a)
        else if RowOf(a) == ColOf(a) && RowOf(b) == ColOf(b) then 27
        else 28;
      UnitAtMembers(k, a);
      UnitAtMembers(k, b);
    }
    if b in Peers(a) {
      var k :| 0 <= k < 29 && a in UnitAt(k) && b in UnitAt(k);
      UnitAtMembers(k, a);
      UnitAtMembers(k, b);
    }
  }
}
