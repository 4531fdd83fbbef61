/** Naked twins as documented: every naked pair of the input mapping is processed once,
    whatever the other pairs remove. The interleaved pass of `NakedTwinsStrategy` reads
    each pair from the mapping as already modified, so one pair can destroy another before
    the outer loop reaches it. */
module NakedTwinsSnapshot {
  import opened Topology
  import opened Grids
  import opened NakedTwinsStrategy

  /** Cell `b` of unit `k` holds two candidates, and exactly two cells of the unit hold them. */
  predicate PairAt(g: Grid, k: int, b: Cell)
    requires 0 <= k < 29
  {
    b in UnitAt(k) && |g[b]| == 2 && |Twins(g, UnitAt(k), g[b])| == 2
  }

  /** Digit `d` of cell `i` belongs to a naked pair of a unit of `i` of which `i` is not a twin. */
  predicate PairRemoves(g: Grid, i: Cell, d: Digit) {
    exists k, b :: 0 <= k < 29 && b in UnitAt(k) && i in UnitAt(k) && PairAt(g, k, b) &&
      d in g[b] && g[i] != g[b]
  }

  /** The mapping after every naked pair of `g` has been applied to its unit. */
  function SnapshotTwins(g: Grid): Grid {
    seq(81, i requires 0 <= i < 81 => set d | d in g[i] && !PairRemoves(g, i, d))
  }

  /** The documented promise holds: no digit is added, and after the call no cell of a unit
      outside a naked pair of the input holds a digit of that pair. */
  lemma SnapshotProcessesAllPairs(g: Grid)
    ensures Refines(SnapshotTwins(g), g)
    ensures forall k: int, b: Cell, i: Cell ::
      (0 <= k < 29 && PairAt(g, k, b) && i in UnitAt(k) && g[i] != g[b]) ==>
        SnapshotTwins(g)[i] !! g[b]
  {}

  /** Applying all pairs of the input at once is sound: a solution contained in the input is
      contained in the result. */
  lemma SnapshotKeepsSolution(g: Grid, s: Grid)
    requires IsSolution(s) && Refines(s, g)
    ensures Refines(s, SnapshotTwins(g))
  {
    forall i: Cell, d | d in s[i] ensures !PairRemoves(g, i, d) {
      if PairRemoves(g, i, d) {
        var k, b :| 0 <= k < 29 && b in UnitAt(k) && i in UnitAt(k) && PairAt(g, k, b) &&
          d in g[b] && g[i] != g[b];
        var u := UnitAt(k);
        UnitAtShape(k);
        UnitAtOf(b, k);
        UnitOfSolution(s, b, u);
        ClearUnitKeepsSolution(g, s, u, g[b]);
        ClearUnitEffect(g, u, g[b]);
        assert false;
      }
    }
  }

  /** Box A1 and A2 hold '13', B1 and B2 hold '12', B4 holds '125', every other box
      '123456789'. */
  function ExampleCell(i: Cell): Cands {
    if i == 0 || i == 1 then {1, 3}
    else if i == 9 || i == 10 then {1, 2}
    else if i == 12 then {1, 2, 5}
    else AllDigits()
  }

  function PairExample(): Grid {
    seq(81, i requires 0 <= i < 81 => ExampleCell(i))
  }

  /** Which boxes of the example hold '12' and which hold '13'. */
  lemma ExampleCells(i: Cell)
    ensures ExampleCell(i) == {1, 2} <==> i == 9 || i == 10
    ensures ExampleCell(i) == {1, 3} <==> i == 0 || i == 1
  {
    if i !in {0, 1, 9, 10, 12} {
      AllDigitsShape();
      assert 3 in ExampleCell(i) && 2 in ExampleCell(i);
    } else if i == 12 {
      assert 5 in ExampleCell(i);
    }
  }

  /** A unit with `v` at exactly the two cells `a` and `b` has exactly two twins of `v`. */
  lemma TwoTwins(g: Grid, u: Unit, v: Cands, a: Cell, b: Cell)
    requires Distinct(u) && a in u && b in u && a != b
    requires forall x: Cell :: x in u ==> (g[x] == v <==> x == a || x == b)
    ensures |Twins(g, u, v)| == 2
  {
    var bs := Twins(g, u, v);
    assert (set x: Cell | x in bs) == {a, b};
    DistinctSetSize<Cell>(bs);
  }

  /** B1 and B2 form a naked pair of row B in the example, and B4 lies outside it. */
  lemma ExampleRowPair(g: Grid)
    requires forall i: Cell :: g[i] == ExampleCell(i)
    ensures PairAt(g, 1, 9)
    ensures 12 in UnitAt(1) && g[12] != g[9]
  {
    var u := UnitAt(1);
    assert u == RowUnit(1);
    RowUnitShape(1);
    RowUnitMembers(1, 9);
    RowUnitMembers(1, 10);
    RowUnitMembers(1, 12);
    assert 5 in g[12];
    forall x: Cell | x in u ensures g[x] == {1, 2} <==> x == 9 || x == 10 {
      ExampleCells(x);
    }
    TwoTwins(g, u, {1, 2}, 9, 10);
  }

  /** The square of A1 (unit 18 of the unit list) holds '13' exactly at A1 and A2. */
  lemma ExampleSquare(g: Grid)
    requires forall i: Cell :: g[i] == ExampleCell(i)
    ensures 0 in UnitAt(18) && 1 in UnitAt(18) && 9 in UnitAt(18) && 10 in UnitAt(18)
    ensures forall x: Cell :: x in UnitAt(18) ==> (g[x] == {1, 3} <==> x == 0 || x == 1)
  {
    var sq := SquareUnit(0);
    assert UnitAt(18) == sq;
    SquareUnitMembers(0, 0);
    SquareUnitMembers(0, 1);
    SquareUnitMembers(0, 9);
    SquareUnitMembers(0, 10);
    forall x: Cell | x in sq ensures g[x] == {1, 3} <==> x == 0 || x == 1 {
      ExampleCells(x);
    }
  }

  /** When the pass reaches cell `k` with nothing changed yet, and `k` and `a` are the only
      cells of unit `q` holding the pair of `k`, every other cell of that unit lacks both
      digits of the pair from then on. */
  lemma FirstPairClears(g: Grid, k: Cell, a: Cell, q: int, m: nat)
    requires NakedTwinsUpTo(g, k) == g && |g[k]| == 2 && k < m <= 81
    requires 0 <= q < 29 && k in UnitAt(q) && a in UnitAt(q) && a != k
    requires forall x: Cell :: x in UnitAt(q) ==> (g[x] == g[k] <==> x == k || x == a)
    ensures forall i: Cell :: i in UnitAt(q) && g[i] != g[k] ==> NakedTwinsUpTo(g, m)[i] !! g[k]
  {
    var u, v, us := UnitAt(q), g[k], UnitsOf(k);
    UnitAtShape(q);
    UnitAtOf(k, q);
    var n :| 0 <= n < |us| && us[n] == u;
    var t := ClearUnits(g, us, v, n);
    ClearUnitsEffect(g, us, v, n);
    TwoTwins(t, u, v, k, a);
    NakedTwinsClearsUnit(g, k, n, m);
  }

  /** In the turn at A1, the square of A1 holds '13' exactly at A1 and A2, so B1 and B2 lose
      both digits of the pair. */
  lemma ExampleClearsSquare(g: Grid)
    requires forall i: Cell :: g[i] == ExampleCell(i)
    ensures NakedTwinsUpTo(g, 2)[9] !! {1, 3} && NakedTwinsUpTo(g, 2)[10] !! {1, 3}
  {
    ExampleSquare(g);
    assert NakedTwinsUpTo(g, 0) == g;
    FirstPairClears(g, 0, 1, 18, 2);
    ExampleCells(9);
    ExampleCells(10);
  }

  /** A visit at a cell leaves alone every cell holding the same set. */
  lemma VisitTwinKeepsEqual(g: Grid, k: Cell, i: Cell)
    requires g[i] == g[k]
    ensures VisitTwin(g, k)[i] == g[i]
  {
    if |g[k]| == 2 {
      ClearUnitsEffect(g, UnitsOf(k), g[k], |UnitsOf(k)|);
    }
  }

  /** Two visits at cells holding the same pair `v`: every cell keeps its set or loses `v`,
      and only peers of the two cells change. */
  lemma TwoVisitsEffect(g: Grid, a: Cell, b: Cell, v: Cands)
    requires g[a] == v && g[b] == v
    ensures var h := VisitTwin(VisitTwin(g, a), b);
      forall i: Cell :: (h[i] == g[i] || h[i] == g[i] - v) &&
        (i !in Peers(a) && i !in Peers(b) ==> h[i] == g[i])
  {
    var g1 := VisitTwin(g, a);
    VisitTwinKeepsEqual(g, a, b);
    VisitTwinEffect(g, a);
    VisitTwinEffect(g1, b);
  }

  /** Cell sizes of the example after the cells lose at most the digits 1 and 3, with B1 and
      B2 losing both and B4 unchanged. */
  lemma ExampleSizes(g: Grid, h: Grid)
    requires forall i: Cell :: g[i] == ExampleCell(i)
    requires forall i: Cell :: h[i] == g[i] || h[i] == g[i] - {1, 3}
    requires h[9] !! {1, 3} && h[10] !! {1, 3} && h[12] == g[12]
    ensures forall i: Cell :: 2 <= i ==> |h[i]| != 2
  {
    var v: Cands := {1, 3};
    AllDigitsShape();
    assert |AllDigits() - v| == 7 by {
      assert AllDigits() - v == {2, 4, 5, 6, 7, 8, 9};
    }
    forall i: Cell | 2 <= i ensures |h[i]| != 2 {
      if i == 9 || i == 10 {
        assert h[i] <= {2};
      }
    }
  }

  /** The example after the first two turns of the outer loop: the pair A1, A2 has emptied
      B1 and B2 of the digit 1, and nothing else has two candidates. */
  lemma ExampleAfterA2(g: Grid)
    requires forall i: Cell :: g[i] == ExampleCell(i)
    ensures NakedTwinsUpTo(g, 2)[12] == {1, 2, 5}
    ensures forall i: Cell :: 2 <= i ==> |NakedTwinsUpTo(g, 2)[i]| != 2
  {
    var g2 := NakedTwinsUpTo(g, 2);
    assert NakedTwinsUpTo(g, 1) == VisitTwin(g, 0);
    assert g2 == VisitTwin(VisitTwin(g, 0), 1);
    TwoVisitsEffect(g, 0, 1, {1, 3});
    // B4 shares no unit with A1 or A2.
    PeersByPosition(0, 12);
    PeersByPosition(1, 12);
    ExampleClearsSquare(g);
    ExampleSizes(g, g2);
  }

  /** From A3 on, no box of the example holds two candidates, so the rest of the outer loop
      changes nothing. */
  lemma {:induction false} ExampleInertTail(g: Grid, n: nat)
    requires forall i: Cell :: g[i] == ExampleCell(i)
    requires 2 <= n <= 81
    ensures NakedTwinsUpTo(g, n) == NakedTwinsUpTo(g, 2)
  {
    if n > 2 {
      ExampleInertTail(g, n - 1);
      ExampleAfterA2(g);
    }
  }

  /** The interleaved pass breaks the documented promise: on the example, B4 keeps the
      digit 1 of the row-B pair of the input, which the documented behaviour removes. */
  lemma InterleavingMissesPair()
    ensures PairAt(PairExample(), 1, 9) && 12 in UnitAt(1)
    ensures PairExample()[12] != PairExample()[9]
    ensures 1 in PairExample()[9] && 1 in NakedTwinned(PairExample())[12]
    ensures 1 !in SnapshotTwins(PairExample())[12]
  {
    var g := PairExample();
    ExampleRowPair(g);
    ExampleAfterA2(g);
    ExampleInertTail(g, 81);
    SnapshotProcessesAllPairs(g);
  }
}
