/** The eliminate strategy: a cell holding a single digit rules that digit out
    of all its peers. */
module EliminateStrategy {
  import opened Topology
  import opened Grids

  /** The mapping with the digits `v` removed from every cell of `ps`. */
  function RemoveFrom(g: Grid, ps: set<Cell>, v: Cands): Grid {
    seq(81, i requires 0 <= i < 81 => if i in ps then g[i] - v else g[i])
  }

  /** One turn of `eliminate`'s loop, at cell `k`: when `k` holds a single digit
      at that moment, the digit is removed from every peer of `k`. */
  function Visit(g: Grid, k: Cell): Grid {
    if |g[k]| == 1 then RemoveFrom(g, Peers(k), g[k]) else g
  }

  /** The mapping after `eliminate`'s loop has visited cells 0 .. n-1 in `boxes` order. */
  function EliminateUpTo(g: Grid, n: nat): Grid
    requires n <= 81
  {
    if n == 0 then g else Visit(EliminateUpTo(g, n - 1), n - 1)
  }

  /** The mapping after one full `eliminate` pass. */
  function Eliminated(g: Grid): Grid {
    EliminateUpTo(g, 81)
  }

  /** `eliminate(values)`: updates the mapping in place, cell by cell. */
  method Eliminate(values: array<Cands>)
    requires values.Length == 81
    modifies values
    ensures values[..] == Eliminated(old(values[..]))
  {
    ghost var g: Grid := values[..];
    for k := 0 to 81
      invariant values[..] == EliminateUpTo(g, k)
    {
      if |values[k]| == 1 {
        RemoveFromAll(values, Peers(k), values[k]);
      }
    }
  }

  /** The inner loop of `eliminate`: removes the digits `v` from every cell of `ps`, one
      cell at a time (the cells form a set, so the order is unspecified and does not
      matter). */
  method RemoveFromAll(values: array<Cands>, ps: set<Cell>, v: Cands)
    requires values.Length == 81
    modifies values
    ensures values[..] == RemoveFrom(old(values[..]), ps, v)
  {
    var rest := ps;
    while rest != {}
      invariant rest <= ps
      invariant forall i :: 0 <= i < 81 ==>
        values[i] == if i in ps && i !in rest then old(values[i]) - v else old(values[i])
      decreases rest
    {
      var p :| p in rest;
      values[p] := values[p] - v;
      rest := rest - {p};
    }
    assert values[..] == RemoveFrom(old(values[..]), ps, v);
  }

  /** Removing digits from some cells adds no digit, leaves every other cell alone and
      leaves the touched cells without those digits. */
  lemma RemoveFromEffect(g: Grid, ps: set<Cell>, v: Cands)
    ensures Refines(RemoveFrom(g, ps, v), g)
    ensures forall i: Cell :: i !in ps ==> RemoveFrom(g, ps, v)[i] == g[i]
    ensures forall i: Cell :: i in ps ==> RemoveFrom(g, ps, v)[i] !! v
  {}

  /** A visit never adds a digit and leaves the visited cell itself alone; a single
      digit at the visited cell is afterwards absent from all its peers, and only
      peers change. */
  lemma VisitEffect(g: Grid, k: Cell)
    ensures Refines(Visit(g, k), g)
    ensures Visit(g, k)[k] == g[k]
    ensures |g[k]| == 1 ==> forall p :: p in Peers(k) ==> Visit(g, k)[p] !! g[k]
    ensures forall i: Cell :: i !in Peers(k) ==> Visit(g, k)[i] == g[i]
  {
    PeersShareUnit(k, k);
    RemoveFromEffect(g, Peers(k), g[k]);
  }

  lemma {:induction false} EliminateUpToShrinks(g: Grid, m: nat, n: nat)
    requires m <= n <= 81
    ensures Refines(EliminateUpTo(g, n), EliminateUpTo(g, m))
  {
    if m < n {
      EliminateUpToShrinks(g, m, n - 1);
      VisitEffect(EliminateUpTo(g, n - 1), n - 1);
      RefinesTransitive(EliminateUpTo(g, n), EliminateUpTo(g, n - 1), EliminateUpTo(g, m));
    }
  }

  /** `eliminate` never adds a digit to any cell (and keeps every cell). */
  lemma EliminatedRefines(g: Grid)
    ensures Refines(Eliminated(g), g)
  {
    EliminateUpToShrinks(g, 0, 81);
  }

  /** A cell that is single-valued when the pass reaches it keeps that value through its
      own visit, and its digit is absent from every peer at the end of the pass. */
  lemma EliminateClearsPeers(g: Grid, k: Cell)
    ensures Visit(EliminateUpTo(g, k), k)[k] == EliminateUpTo(g, k)[k]
    ensures |EliminateUpTo(g, k)[k]| == 1 ==>
      forall p :: p in Peers(k) ==> Eliminated(g)[p] !! EliminateUpTo(g, k)[k]
  {
    var s := EliminateUpTo(g, k);
    VisitEffect(s, k);
    EliminateUpToShrinks(g, k + 1, 81);
  }

  /** If the pass leaves no cell empty, no digit that was single in its input survives in a
      peer: a clash between two single peers would have emptied one of them. */
  lemma EliminateDetectsClash(g: Grid)
    requires !HasEmpty(Eliminated(g))
    ensures forall k: Cell, p :: |g[k]| == 1 && p in Peers(k) ==> Eliminated(g)[p] !! g[k]
  {
    forall k: Cell, p | |g[k]| == 1 && p in Peers(k) ensures Eliminated(g)[p] !! g[k] {
      var s := EliminateUpTo(g, k);
      EliminateUpToShrinks(g, 0, k);
      EliminateUpToShrinks(g, k, 81);
      assert Eliminated(g)[k] != {};
      SubsetOfSingleton(s[k], g[k]);
      EliminateClearsPeers(g, k);
    }
  }

  /** `eliminate` is sound: a solution contained in the input is contained in the output. */
  lemma EliminateKeepsSolution(g: Grid, s: Grid)
    requires IsSolution(s) && Refines(s, g)
    ensures Refines(s, Eliminated(g))
  {
    EliminateUpToKeepsSolution(g, s, 81);
  }

  lemma {:induction false} EliminateUpToKeepsSolution(g: Grid, s: Grid, n: nat)
    requires n <= 81
    requires IsSolution(s) && Refines(s, g)
    ensures Refines(s, EliminateUpTo(g, n))
  {
    if n > 0 {
      EliminateUpToKeepsSolution(g, s, n - 1);
      var t := EliminateUpTo(g, n - 1);
      var k: Cell := n - 1;
      if |t[k]| == 1 {
        SubsetOfSingleton(s[k], t[k]);
        forall p: Cell | p in Peers(k) ensures s[p] <= Visit(t, k)[p] {
          assert s[k] !! s[p];
        }
      }
    }
  }
}
