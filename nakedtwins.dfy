/** The naked-twins strategy: when exactly two cells of a unit hold the same two
    candidates, those two digits are removed from every other cell of the unit. */
module NakedTwinsStrategy {
  import opened Topology
  import opened Grids

  /** `bs`: the cells of `u`, in unit order, whose candidate set is exactly `v`. */
  function Twins(g: Grid, u: Unit, v: Cands): (bs: seq<Cell>)
    ensures forall b :: b in bs <==> b in u && g[b] == v
    ensures Distinct(u) ==> Distinct(bs)
  {
    if u == [] then []
    else
      var rest := Twins(g, u[1..], v);
      assert Distinct(u) ==> u[0] !in u[1..] && Distinct(u[1..]) by {
        if Distinct(u) {
          forall i, j | 0 <= i < j < |u[1..]| ensures u[1..][i] != u[1..][j] {
            assert u[1..][i] == u[i + 1] && u[1..][j] == u[j + 1];
          }
        }
      }
      (if g[u[0]] == v then [u[0]] else []) + rest
  }

  /** The cells of `u`, in unit order, that are not in `bs`. */
  function Others(u: Unit, bs: seq<Cell>): (os: seq<Cell>)
    ensures forall b :: b in os <==> b in u && b !in bs
  {
    if u == [] then []
    else (if u[0] !in bs then [u[0]] else []) + Others(u[1..], bs)
  }

  /** One turn of the loop over the units of a cell holding the pair `v`: if exactly two
      cells of `u` hold `v`, the digits of `v` are removed from the other cells of `u`. */
  function ClearUnit(g: Grid, u: Unit, v: Cands): Grid {
    var bs := Twins(g, u, v);
    if |bs| == 2 then
      var os := Others(u, bs);
      seq(81, i requires 0 <= i < 81 => if i in os then g[i] - v else g[i])
    else g
  }

  /** The mapping after the first `n` units of `us` have been processed for the pair `v`. */
  function ClearUnits(g: Grid, us: seq<Unit>, v: Cands, n: nat): Grid
    requires n <= |us|
  {
    if n == 0 then g else ClearUnit(ClearUnits(g, us, v, n - 1), us[n - 1], v)
  }

  /** One turn of `naked_twins`'s outer loop, at cell `k`: if `k` holds two digits at that
      moment, every unit of `k` is processed with that pair. */
  function VisitTwin(g: Grid, k: Cell): Grid {
    if |g[k]| == 2 then ClearUnits(g, UnitsOf(k), g[k], |UnitsOf(k)|) else g
  }

  /** The mapping after `naked_twins`'s outer loop has visited cells 0 .. n-1. */
  function NakedTwinsUpTo(g: Grid, n: nat): Grid
    requires n <= 81
  {
    if n == 0 then g else VisitTwin(NakedTwinsUpTo(g, n - 1), n - 1)
  }

  /** The mapping after one `naked_twins` call. */
  function NakedTwinned(g: Grid): Grid {
    NakedTwinsUpTo(g, 81)
  }

  /** `naked_twins(values)`: updates the mapping in place. The pair `v` of a cell is read
      when the outer loop reaches the cell and is kept for all of its units. */
  method NakedTwins(values: array<Cands>)
    requires values.Length == 81
    modifies values
    ensures values[..] == NakedTwinned(old(values[..]))
  {
    ghost var g: Grid := values[..];
    for k := 0 to 81
      invariant values[..] == NakedTwinsUpTo(g, k)
    {
      var v := values[k];
      if |v| == 2 {
        ClearUnitsOf(values, k, v);
      }
    }
  }

  /** The loop over the units of cell `k`, for the pair `v` that `k` holds. */
  method ClearUnitsOf(values: array<Cands>, k: Cell, v: Cands)
    requires values.Length == 81 && values[k] == v && |v| == 2
    modifies values
    ensures values[..] == VisitTwin(old(values[..]), k)
  {
    ghost var h: Grid := values[..];
    var units := UnitsOf(k);
    for n := 0 to |units|
      invariant values[..] == ClearUnits(h, units, v, n)
    {
      ClearTwinsIn(values, units[n], v);
    }
  }

  /** The body of the loop over the units of a cell: find the twins of `v` in `u` and, if
      there are exactly two, remove the digits of `v` from every other cell of `u`. */
  method ClearTwinsIn(values: array<Cands>, u: Unit, v: Cands)
    requires values.Length == 81
    modifies values
    ensures values[..] == ClearUnit(old(values[..]), u, v)
  {
    ghost var h: Grid := values[..];
    var bs := Twins(values[..], u, v);
    if |bs| == 2 {
      var others := Others(u, bs);
      for j := 0 to |others|
        invariant forall i :: 0 <= i < 81 ==>
          values[i] == if i in others[..j] then h[i] - v else h[i]
      {
        assert forall i :: i in others[..j + 1] <==> i in others[..j] || i == others[j];
        RemoveDigits(values, others[j], v);
      }
      assert others[..|others|] == others;
      forall i | 0 <= i < 81 ensures values[i] == ClearUnit(h, u, v)[i] {
      }
    }
  }

  /** The innermost loop: the digits of `v` are removed from cell `b` one at a time. */
  method RemoveDigits(values: array<Cands>, b: Cell, v: Cands)
    requires values.Length == 81
    modifies values
    ensures values[b] == old(values[b]) - v
    ensures forall i :: 0 <= i < 81 && i != b ==> values[i] == old(values[i])
  {
    var ds := v;
    while ds != {}
      invariant ds <= v
      invariant values[b] == old(values[b]) - (v - ds)
      invariant forall i :: 0 <= i < 81 && i != b ==> values[i] == old(values[i])
      decreases ds
    {
      var d :| d in ds;
      values[b] := values[b] - {d};
      ds := ds - {d};
    }
  }

  /** A turn on unit `u` removes only digits of `v`, and only from cells of `u` that do not
      hold `v`, in a unit with exactly two twins; afterwards those cells share no digit with
      `v`, and every cell holding `v` is unchanged. */
  lemma ClearUnitEffect(g: Grid, u: Unit, v: Cands)
    ensures Refines(ClearUnit(g, u, v), g)
    ensures forall i: Cell :: (ClearUnit(g, u, v)[i] == g[i] ||
      (|Twins(g, u, v)| == 2 && i in u && g[i] != v && ClearUnit(g, u, v)[i] == g[i] - v))
    ensures |Twins(g, u, v)| == 2 ==>
      forall i: Cell :: i in u && g[i] != v ==> ClearUnit(g, u, v)[i] !! v
    ensures |Twins(g, u, v)| != 2 ==> ClearUnit(g, u, v) == g
    ensures forall i: Cell :: g[i] == v ==> ClearUnit(g, u, v)[i] == v
  {}

  /** A turn cannot make a cell equal to a non-empty pair it did not already equal. */
  lemma ClearUnitKeepsOthers(g: Grid, u: Unit, v: Cands, i: Cell)
    requires v != {} && g[i] != v
    ensures ClearUnit(g, u, v)[i] != v
  {
    ClearUnitEffect(g, u, v);
    var d :| d in v;
    if ClearUnit(g, u, v)[i] != g[i] {
      assert d !in g[i] - v;
    }
  }

  /** Naked twins is sound: a solution contained in the mapping is still contained after
      a turn on a unit whose distinct cells take distinct digits in that solution. */
  lemma ClearUnitKeepsSolution(g: Grid, s: Grid, u: Unit, v: Cands)
    requires |v| == 2 && Distinct(u)
    requires Refines(s, g) && forall c: Cell :: |s[c]| == 1
    requires forall a, b :: a in u && b in u && a != b ==> s[a] !! s[b]
    ensures Refines(s, ClearUnit(g, u, v))
  {
    ClearUnitEffect(g, u, v);
    var bs := Twins(g, u, v);
    if |bs| == 2 {
      var a, b := bs[0], bs[1];
      assert a in bs && b in bs;
      assert s[a] + s[b] == v by {
        assert |s[a] + s[b]| == 2;
        SubsetSize(s[a] + s[b], v);
      }
      forall c: Cell | c in u && g[c] != v ensures s[c] <= g[c] - v {
        assert c != a && c != b;
      }
    }
  }

  /** Each unit of the unit list, in a solution: distinct cells hold distinct digits. */
  lemma UnitOfSolution(s: Grid, c: Cell, u: Unit)
    requires IsSolution(s) && u in UnitsOf(c)
    ensures Distinct(u)
    ensures forall a, b :: a in u && b in u && a != b ==> s[a] !! s[b]
  {
    var k :| 0 <= k < 29 && UnitAt(k) == u && c in u;
    UnitAtOfSolution(s, k);
  }

  lemma UnitAtOfSolution(s: Grid, k: int)
    requires IsSolution(s) && 0 <= k < 29
    ensures Distinct(UnitAt(k))
    ensures forall a, b :: a in UnitAt(k) && b in UnitAt(k) && a != b ==> s[a] !! s[b]
  {
    UnitAtShape(k);
    forall a, b | a in UnitAt(k) && b in UnitAt(k) && a != b ensures s[a] !! s[b] {
      UnitMembersArePeers(k, a, b);
      assert b in Peers(a);
    }
  }

  lemma {:induction false} ClearUnitsEffect(g: Grid, us: seq<Unit>, v: Cands, n: nat)
    requires n <= |us|
    ensures Refines(ClearUnits(g, us, v, n), g)
    ensures v != {} ==> forall i: Cell :: g[i] == v <==> ClearUnits(g, us, v, n)[i] == v
  {
    if n > 0 {
      var t := ClearUnits(g, us, v, n - 1);
      ClearUnitsEffect(g, us, v, n - 1);
      ClearUnitEffect(t, us[n - 1], v);
      RefinesTransitive(ClearUnits(g, us, v, n), t, g);
      if v != {} {
        forall i: Cell | t[i] != v ensures ClearUnits(g, us, v, n)[i] != v {
          ClearUnitKeepsOthers(t, us[n - 1], v, i);
        }
      }
    }
  }

  /** In `s`, the cells of `u` are distinct and take pairwise distinct digits. */
  predicate Separated(s: Grid, u: Unit) {
    Distinct(u) && forall a, b :: a in u && b in u && a != b ==> s[a] !! s[b]
  }

  lemma {:induction false} ClearUnitsKeepsSolution(g: Grid, s: Grid, us: seq<Unit>, v: Cands, n: nat)
    requires n <= |us| && |v| == 2
    requires forall j :: 0 <= j < |us| ==> Separated(s, us[j])
    requires Refines(s, g) && forall c: Cell :: |s[c]| == 1
    ensures Refines(s, ClearUnits(g, us, v, n))
  {
    if n > 0 {
      ClearUnitsKeepsSolution(g, s, us, v, n - 1);
      assert Separated(s, us[n - 1]);
      ClearUnitKeepsSolution(ClearUnits(g, us, v, n - 1), s, us[n - 1], v);
    }
  }

  lemma {:induction false} NakedTwinsUpToShrinks(g: Grid, m: nat, n: nat)
    requires m <= n <= 81
    ensures Refines(NakedTwinsUpTo(g, n), NakedTwinsUpTo(g, m))
  {
    if m < n {
      NakedTwinsUpToShrinks(g, m, n - 1);
      var t := NakedTwinsUpTo(g, n - 1);
      if |t[n - 1]| == 2 {
        ClearUnitsEffect(t, UnitsOf(n - 1), t[n - 1], |UnitsOf(n - 1)|);
      }
      RefinesTransitive(NakedTwinsUpTo(g, n), t, NakedTwinsUpTo(g, m));
    }
  }

  /** `naked_twins` never adds a digit to any cell. */
  lemma NakedTwinnedRefines(g: Grid)
    ensures Refines(NakedTwinned(g), g)
  {
    NakedTwinsUpToShrinks(g, 0, 81);
  }

  /** When the outer loop is at cell `k` with pair `v` and reaches its `n`-th unit with
      exactly two twins there, no other cell of that unit holds a digit of `v` after the
      visit, in particular at the end of the pass (`m` = 81). */
  lemma NakedTwinsClearsUnit(g: Grid, k: Cell, n: nat, m: nat)
    requires |NakedTwinsUpTo(g, k)[k]| == 2 && n < |UnitsOf(k)| && k < m <= 81
    ensures var h := NakedTwinsUpTo(g, k);
      var t := ClearUnits(h, UnitsOf(k), h[k], n);
      var u := UnitsOf(k)[n];
      |Twins(t, u, h[k])| == 2 ==>
        forall i: Cell :: i in u && t[i] != h[k] ==> NakedTwinsUpTo(g, m)[i] !! h[k]
  {
    var h := NakedTwinsUpTo(g, k);
    var us := UnitsOf(k);
    var v := h[k];
    var t := ClearUnits(h, us, v, n);
    ClearUnitEffect(t, us[n], v);
    ClearUnitsRest(h, us, v, n + 1, |us|);
    NakedTwinsUpToShrinks(g, k + 1, m);
  }

  /** A visit with pair `v` at cell `k` leaves `k` itself alone and touches only peers of
      `k`, each of which either keeps its set or loses exactly the digits of `v`. */
  lemma VisitTwinEffect(g: Grid, k: Cell)
    ensures VisitTwin(g, k)[k] == g[k]
    ensures forall i: Cell :: (VisitTwin(g, k)[i] == g[i] ||
      (|g[k]| == 2 && i in Peers(k) && VisitTwin(g, k)[i] == g[i] - g[k]))
  {
    if |g[k]| == 2 {
      var us := UnitsOf(k);
      ClearUnitsEffect(g, us, g[k], |us|);
      forall j, i | 0 <= j < |us| && i in us[j] && i != k ensures i in Peers(k) {
        assert us[j] in us;
        var q :| 0 <= q < 29 && UnitAt(q) == us[j] && k in us[j];
        PeersShareUnit(k, i);
      }
      ClearUnitsLocal(g, us, g[k], k, Peers(k), |us|);
    }
  }

  lemma {:induction false} ClearUnitsLocal(g: Grid, us: seq<Unit>, v: Cands, k: Cell,
                                           ps: set<Cell>, n: nat)
    requires n <= |us| && g[k] == v && v != {}
    requires forall j, i :: 0 <= j < |us| && i in us[j] && i != k ==> i in ps
    ensures forall i: Cell :: (ClearUnits(g, us, v, n)[i] == g[i] ||
      (i in ps && ClearUnits(g, us, v, n)[i] == g[i] - v))
  {
    if n > 0 {
      ClearUnitsLocal(g, us, v, k, ps, n - 1);
      var t := ClearUnits(g, us, v, n - 1);
      var r := ClearUnits(g, us, v, n);
      ClearUnitsEffect(g, us, v, n - 1);
      ClearUnitEffect(t, us[n - 1], v);
      forall i: Cell ensures r[i] == g[i] || (i in ps && r[i] == g[i] - v) {
        if r[i] != t[i] {
          // only a cell of the unit that does not hold the pair changes, so not `k`
          assert i in us[n - 1] && t[i] != v && r[i] == t[i] - v;
          assert i != k && i in ps;
          assert t[i] - v == g[i] - v;
        }
      }
    }
  }

  lemma {:induction false} ClearUnitsRest(g: Grid, us: seq<Unit>, v: Cands, m: nat, n: nat)
    requires m <= n <= |us|
    ensures Refines(ClearUnits(g, us, v, n), ClearUnits(g, us, v, m))
  {
    if m < n {
      ClearUnitsRest(g, us, v, m, n - 1);
      ClearUnitEffect(ClearUnits(g, us, v, n - 1), us[n - 1], v);
      RefinesTransitive(ClearUnits(g, us, v, n), ClearUnits(g, us, v, n - 1),
        ClearUnits(g, us, v, m));
    }
  }

  lemma {:induction false} NakedTwinsUpToKeepsSolution(g: Grid, s: Grid, n: nat)
    requires n <= 81 && IsSolution(s) && Refines(s, g)
    ensures Refines(s, NakedTwinsUpTo(g, n))
  {
    if n > 0 {
      NakedTwinsUpToKeepsSolution(g, s, n - 1);
      var t := NakedTwinsUpTo(g, n - 1);
      if |t[n - 1]| == 2 {
        var us := UnitsOf(n - 1);
        forall j | 0 <= j < |us| ensures Separated(s, us[j]) {
          UnitOfSolution(s, n - 1, us[j]);
        }
        ClearUnitsKeepsSolution(t, s, us, t[n - 1], |us|);
      }
    }
  }

  /** `naked_twins` is sound: a solution contained in the input is contained in the output. */
  lemma NakedTwinsKeepsSolution(g: Grid, s: Grid)
    requires IsSolution(s) && Refines(s, g)
    ensures Refines(s, NakedTwinned(g))
  {
    NakedTwinsUpToKeepsSolution(g, s, 81);
  }
}
