/** `search`: depth-first search over the candidates of the unsolved cell with the fewest
    candidates, reducing the puzzle before every branch. */
module DepthFirstSearch {
  import opened Wrappers
  import opened Topology
  import opened Grids
  import opened Reduction

  /** The first cell below `n`, in `boxes` order, among those with more than one candidate
      that have the fewest candidates; `None` when every cell below `n` has at most one. */
  function Smallest(g: Grid, n: nat): (m: Option<Cell>)
    requires n <= 81
    ensures m.Some? <==> exists i :: 0 <= i < n && |g[i]| > 1
    ensures m.Some? ==> m.value < n && |g[m.value]| > 1
    ensures m.Some? ==> forall i :: 0 <= i < n && |g[i]| > 1 ==> |g[m.value]| <= |g[i]|
    ensures m.Some? ==> forall i :: 0 <= i < m.value && |g[i]| > 1 ==> |g[m.value]| < |g[i]|
  {
    if n == 0 then None
    else
      var prev := Smallest(g, n - 1);
      if |g[n - 1]| > 1 && (prev.None? || |g[n - 1]| < |g[prev.value]|) then Some(n - 1)
      else prev
  }

  /** `m` in `search`: `min` over the unsolved cells by candidate count keeps the first of
      several equally small cells. */
  function ChooseCell(g: Grid): (m: Cell)
    requires exists i :: 0 <= i < 81 && |g[i]| > 1
    ensures |g[m]| > 1
    ensures forall i :: 0 <= i < 81 && |g[i]| > 1 ==> |g[m]| <= |g[i]|
    ensures forall i :: 0 <= i < m && |g[i]| > 1 ==> |g[m]| < |g[i]|
  {
    Smallest(g, 81).value
  }

  /** The candidate mapping of one branch: a copy of `h` with cell `m` set to `d`. */
  function Branch(h: Grid, m: Cell, d: Digit): Grid {
    h[m := {d}]
  }

  /** The value of `search(values)`: `None` for `False` and for the implicit `None` returned
      when no branch succeeds. */
  function SearchSpec(g: Grid): Option<Grid>
    decreases Volume(g), 1, 0
  {
    match Reduced(g)
    case None => None
    case Some(h) =>
      if AllSolved(h) then Some(h)
      else
        ReducedRefines(g);
        VolumeShrinks(h, g);
        TryDigits(h, ChooseCell(h), 1)
  }

  /** The loop over the candidates of `m`, from digit `d` on, in ascending order: the first
      branch whose search succeeds gives the result. */
  function TryDigits(h: Grid, m: Cell, d: nat): Option<Grid>
    requires 1 <= d <= 10 && |h[m]| > 1
    decreases Volume(h), 0, 10 - d
  {
    if d == 10 then None
    else if d in h[m] then
      BranchShrinks(h, m, d);
      var r := SearchSpec(Branch(h, m, d));
      if r.Some? then r else TryDigits(h, m, d + 1)
    else TryDigits(h, m, d + 1)
  }

  /** A branch differs from its parent only at the branch cell, which keeps one of its own
      candidates, so the branch holds strictly fewer candidates in total. */
  lemma BranchShrinks(h: Grid, m: Cell, d: Digit)
    requires d in h[m] && |h[m]| > 1
    ensures Refines(Branch(h, m, d), h)
    ensures forall i: Cell :: i != m ==> Branch(h, m, d)[i] == h[i]
    ensures Volume(Branch(h, m, d)) < Volume(h)
  {
    VolumeShrinks(Branch(h, m, d), h);
  }

  /** `search(values)`: reduces the mapping in place, then tries each candidate of the
      chosen cell on a fresh copy. */
  method Search(values: array<Cands>) returns (r: Option<Grid>)
    requires values.Length == 81
    modifies values
    ensures r == SearchSpec(old(values[..]))
    ensures values[..] == ReducedState(old(values[..]))
    decreases Volume(values[..]), 1
  {
    ghost var g: Grid := values[..];
    var ok := ReducePuzzle(values);
    ReducedStateAgrees(g);
    if !ok {
      return None;
    }
    var h: Grid := values[..];
    if AllSolved(h) {
      return Some(h);
    }
    ReducedRefines(g);
    VolumeShrinks(h, g);
    var m := ChooseCell(h);
    r := SearchBranches(h, m);
  }

  /** The loop of `search` over the candidates of `m`: each branch searches its own copy
      of the mapping, and the first success is returned. */
  method SearchBranches(h: Grid, m: Cell) returns (r: Option<Grid>)
    requires |h[m]| > 1
    ensures r == TryDigits(h, m, 1)
    decreases Volume(h), 0
  {
    for d := 1 to 10
      invariant TryDigits(h, m, 1) == TryDigits(h, m, d)
    {
      TryDigitsStep(h, m, d);
      if d in h[m] {
        var candidate := CopyWith(h, m, d);
        BranchShrinks(h, m, d);
        var res := Search(candidate);
        if res.Some? {
          return res;
        }
      }
    }
    return None;
  }

  /** `candidate = values.copy(); candidate[m] = v`. */
  method CopyWith(h: Grid, m: Cell, d: Digit) returns (candidate: array<Cands>)
    ensures fresh(candidate) && candidate.Length == 81
    ensures candidate[..] == Branch(h, m, d)
  {
    candidate := new Cands[81](i requires 0 <= i < 81 => h[i]);
    candidate[m] := {d};
  }

  lemma TryDigitsStep(h: Grid, m: Cell, d: nat)
    requires 1 <= d < 10 && |h[m]| > 1
    ensures d !in h[m] ==> TryDigits(h, m, d) == TryDigits(h, m, d + 1)
    ensures d in h[m] && SearchSpec(Branch(h, m, d)).Some? ==>
      TryDigits(h, m, d) == SearchSpec(Branch(h, m, d))
    ensures d in h[m] && SearchSpec(Branch(h, m, d)).None? ==>
      TryDigits(h, m, d) == TryDigits(h, m, d + 1)
  {}

  /** Whatever `search` returns is a solution contained in its input. */
  lemma {:induction false} SearchSound(g: Grid)
    requires SearchSpec(g).Some?
    ensures IsSolution(SearchSpec(g).value) && Refines(SearchSpec(g).value, g)
    decreases Volume(g), 1, 0
  {
    var h := Reduced(g).value;
    ReducedRefines(g);
    if AllSolved(h) {
      ReducedSolvedIsSolution(g);
    } else {
      VolumeShrinks(h, g);
      TryDigitsSound(h, ChooseCell(h), 1);
      RefinesTransitive(SearchSpec(g).value, h, g);
    }
  }

  lemma {:induction false} TryDigitsSound(h: Grid, m: Cell, d: nat)
    requires 1 <= d <= 10 && |h[m]| > 1
    requires TryDigits(h, m, d).Some?
    ensures IsSolution(TryDigits(h, m, d).value) && Refines(TryDigits(h, m, d).value, h)
    decreases Volume(h), 0, 10 - d
  {
    if d in h[m] {
      BranchShrinks(h, m, d);
      var b := Branch(h, m, d);
      if SearchSpec(b).Some? {
        SearchSound(b);
        RefinesTransitive(SearchSpec(b).value, b, h);
      } else {
        TryDigitsSound(h, m, d + 1);
      }
    } else {
      TryDigitsSound(h, m, d + 1);
    }
  }

  /** `search` is complete: if some solution is contained in the input, it returns one. */
  lemma {:induction false} SearchComplete(g: Grid, s: Grid)
    requires IsSolution(s) && Refines(s, g)
    ensures SearchSpec(g).Some?
    decreases Volume(g)
  {
    ReducedKeepsSolution(g, s);
    var h := Reduced(g).value;
    if !AllSolved(h) {
      ReducedRefines(g);
      VolumeShrinks(h, g);
      var m := ChooseCell(h);
      assert SearchSpec(g) == TryDigits(h, m, 1);
      var e := SolutionBranch(h, m, s);
      BranchShrinks(h, m, e);
      SearchComplete(Branch(h, m, e), s);
      TryDigitsReaches(h, m, 1, e);
    }
  }

  /** A solution contained in `h` is contained in the branch for its own digit at `m`. */
  lemma SolutionBranch(h: Grid, m: Cell, s: Grid) returns (e: Digit)
    requires IsSolution(s) && Refines(s, h)
    ensures e in h[m] && s[m] == {e}
    ensures Refines(s, Branch(h, m, e))
  {
    assert |s[m]| == 1;
    e :| e in s[m];
    assert s[m] == {e} by {
      SubsetOfSingleton({e}, s[m]);
    }
  }

  /** If the branch for candidate `e` succeeds, the loop succeeds on or before `e`. */
  lemma {:induction false} TryDigitsReaches(h: Grid, m: Cell, d: nat, e: Digit)
    requires 1 <= d <= e && |h[m]| > 1 && e in h[m]
    requires SearchSpec(Branch(h, m, e)).Some?
    ensures TryDigits(h, m, d).Some?
    decreases e - d
  {
    if d < e {
      TryDigitsReaches(h, m, d + 1, e);
    }
  }

  /** `search` succeeds exactly when the puzzle has a solution consistent with its input. */
  lemma SearchSucceedsIff(g: Grid)
    ensures SearchSpec(g).Some? <==> exists s :: IsSolution(s) && Refines(s, g)
  {
    if SearchSpec(g).Some? {
      SearchSound(g);
    }
    if exists s :: IsSolution(s) && Refines(s, g) {
      var s :| IsSolution(s) && Refines(s, g);
      SearchComplete(g, s);
    }
  }
}
