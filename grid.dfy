/** The candidate mapping: for every cell, the set of digits still possible there. */
module Grids {
  import opened Topology

  /** A candidate set: the digits of a candidate string such as '1789'. */
  type Cands = set<Digit>

  /** The candidate string '123456789'. */
  function AllDigits(): set<Digit> { {1, 2, 3, 4, 5, 6, 7, 8, 9} }

  lemma AllDigitsShape()
    ensures |AllDigits()| == 9
    ensures forall d: Digit :: d in AllDigits()
  {}

  /** A candidate mapping over all 81 cells, indexed by cell. */
  type Grid = g: seq<Cands> | |g| == 81 witness EmptyGrid()

  function EmptyGrid(): seq<Cands> { seq(81, i => {}) }

  /** `g` is at least as constrained as `h`: no cell of `g` holds a digit that `h` lacks. */
  predicate Refines(g: Grid, h: Grid) {
    forall i: Cell :: g[i] <= h[i]
  }

  lemma RefinesTransitive(f: Grid, g: Grid, h: Grid)
    requires Refines(f, g) && Refines(g, h)
    ensures Refines(f, h)
  {}

  /** The number of solved (single-valued) cells among the first `n` cells. */
  function CountSolved(g: Grid, n: nat): (count: nat)
    requires n <= 81
    ensures count <= n
  {
    if n == 0 then 0 else CountSolved(g, n - 1) + (if |g[n - 1]| == 1 then 1 else 0)
  }

  /** The number of cells whose candidate set has exactly one digit. */
  function SolvedCount(g: Grid): (count: nat)
    ensures count <= 81
  {
    CountSolved(g, 81)
  }

  /** Some cell has no candidate left: a contradiction. */
  predicate HasEmpty(g: Grid) {
    exists i :: 0 <= i < 81 && g[i] == {}
  }

  /** Every cell holds exactly one digit. */
  predicate AllSolved(g: Grid) {
    forall i :: 0 <= i < 81 ==> |g[i]| == 1
  }

  /** No two peers hold a common digit. */
  predicate Consistent(g: Grid) {
    forall i: Cell, j: Cell :: j in Peers(i) ==> g[i] !! g[j]
  }

  /** A solved grid: one digit per cell, and no digit twice among peers. */
  predicate IsSolution(g: Grid) {
    AllSolved(g) && Consistent(g)
  }

  /** The total number of candidates in the first `n` cells. */
  function SizeSum(g: Grid, n: nat): nat
    requires n <= 81
  {
    if n == 0 then 0 else SizeSum(g, n - 1) + |g[n - 1]|
  }

  /** The total number of candidates over the whole grid. */
  function Volume(g: Grid): nat {
    SizeSum(g, 81)
  }

  lemma SubsetSize(a: Cands, b: Cands)
    requires a <= b
    ensures |a| <= |b|
    ensures |a| == |b| ==> a == b
  {
    assert b == a + (b - a);
    assert |b| == |a| + |b - a|;
  }

  /** A non-empty subset of a singleton is that singleton. */
  lemma SubsetOfSingleton(a: Cands, b: Cands)
    requires a <= b && |b| == 1 && a != {}
    ensures a == b
  {
    var d :| d in a;
    assert |b - {d}| == 0;
  }

  lemma {:induction false} CountSolvedGrows(g: Grid, h: Grid, n: nat)
    requires n <= 81
    requires forall i: Cell :: |g[i]| == 1 ==> |h[i]| == 1
    ensures CountSolved(g, n) <= CountSolved(h, n)
    ensures CountSolved(g, n) == CountSolved(h, n) ==>
      forall i: Cell :: i < n && |h[i]| == 1 ==> |g[i]| == 1
  {
    if n > 0 {
      CountSolvedGrows(g, h, n - 1);
    }
  }

  /** If every cell solved in `g` is solved in `h`, `h` has at least as many solved
      cells; and when the counts agree, the solved cells are the same. */
  lemma SolvedCountGrows(g: Grid, h: Grid)
    requires forall i: Cell :: |g[i]| == 1 ==> |h[i]| == 1
    ensures SolvedCount(g) <= SolvedCount(h)
    ensures SolvedCount(g) == SolvedCount(h) ==> forall i: Cell :: |h[i]| == 1 ==> |g[i]| == 1
  {
    CountSolvedGrows(g, h, 81);
  }

  lemma {:induction false} SizeSumShrinks(g: Grid, h: Grid, n: nat)
    requires n <= 81 && Refines(g, h)
    ensures SizeSum(g, n) <= SizeSum(h, n)
    ensures forall m: Cell :: m < n && |g[m]| < |h[m]| ==> SizeSum(g, n) < SizeSum(h, n)
  {
    if n > 0 {
      SizeSumShrinks(g, h, n - 1);
      SubsetSize(g[n - 1], h[n - 1]);
    }
  }

  /** Refining a grid cannot add candidates, and shrinking one cell strictly lowers the total. */
  lemma VolumeShrinks(g: Grid, h: Grid)
    requires Refines(g, h)
    ensures Volume(g) <= Volume(h)
    ensures forall m: Cell :: |g[m]| < |h[m]| ==> Volume(g) < Volume(h)
  {
    SizeSumShrinks(g, h, 81);
  }
}
