/** `reduce_puzzle`: eliminate and only-choice, repeated until a round solves no new
    cell, with a failure as soon as a round leaves a cell without candidates. */
module Reduction {
  import opened Wrappers
  import opened Topology
  import opened Grids
  import opened EliminateStrategy
  import opened OnlyChoiceStrategy

  /** One round of `reduce_puzzle`'s loop: `eliminate`, then `only_choice`. */
  function Round(g: Grid): Grid {
    OnlyChosen(Eliminated(g))
  }

  /** A round adds no digit; if it leaves no cell empty, every cell solved before the round
      keeps its digit, so the number of solved cells cannot drop. */
  lemma RoundEffect(g: Grid)
    ensures Refines(Round(g), g)
    ensures !HasEmpty(Round(g)) ==> !HasEmpty(Eliminated(g))
    ensures !HasEmpty(Round(g)) ==> forall i: Cell :: |g[i]| == 1 ==> Round(g)[i] == g[i]
    ensures !HasEmpty(Round(g)) ==> SolvedCount(g) <= SolvedCount(Round(g))
  {
    var e := Eliminated(g);
    var h := Round(g);
    EliminatedRefines(g);
    OnlyChosenEffect(e);
    RefinesTransitive(h, e, g);
    if !HasEmpty(h) {
      forall i: Cell ensures e[i] != {} {
        assert h[i] != {};
      }
      forall i: Cell | |g[i]| == 1 ensures h[i] == g[i] {
        SubsetOfSingleton(e[i], g[i]);
      }
      SolvedCountGrows(g, h);
    }
  }

  /** The value of `reduce_puzzle(values)`: `None` for `False`. Each round either fails,
      stalls (the round solved no new cell) or solves more cells, so at most 81 rounds run. */
  function Reduced(g: Grid): Option<Grid>
    decreases 81 - SolvedCount(g)
  {
    var h := Round(g);
    if HasEmpty(h) then None
    else if SolvedCount(h) == SolvedCount(g) then Some(h)
    else
      RoundEffect(g);
      Reduced(h)
  }

  /** The mapping `reduce_puzzle` leaves behind, also when it fails: the mapping after the
      round that emptied a cell. */
  function ReducedState(g: Grid): Grid
    decreases 81 - SolvedCount(g)
  {
    var h := Round(g);
    if HasEmpty(h) || SolvedCount(h) == SolvedCount(g) then h
    else
      RoundEffect(g);
      ReducedState(h)
  }

  /** A reduction fails exactly when the mapping it leaves has an empty cell; otherwise its
      result is that mapping. */
  lemma {:induction false} ReducedStateAgrees(g: Grid)
    ensures Reduced(g).None? <==> HasEmpty(ReducedState(g))
    ensures Reduced(g).Some? ==> Reduced(g).value == ReducedState(g)
    decreases 81 - SolvedCount(g)
  {
    var h := Round(g);
    if !HasEmpty(h) && SolvedCount(h) != SolvedCount(g) {
      RoundEffect(g);
      ReducedStateAgrees(h);
    }
  }

  /** `reduce_puzzle(values)`: updates the mapping in place and returns whether it is still
      free of empty cells (`False` is returned as `false`). */
  method ReducePuzzle(values: array<Cands>) returns (ok: bool)
    requires values.Length == 81
    modifies values
    ensures ok <==> Reduced(old(values[..])).Some?
    ensures values[..] == ReducedState(old(values[..]))
  {
    ghost var g: Grid := values[..];
    var stalled := false;
    while !stalled
      invariant !stalled ==> Reduced(values[..]) == Reduced(g)
      invariant !stalled ==> ReducedState(values[..]) == ReducedState(g)
      invariant stalled ==> Reduced(g).Some? && ReducedState(g) == values[..]
      decreases 81 - SolvedCount(values[..]), if stalled then 0 else 1
    {
      ghost var before: Grid := values[..];
      var solvedBefore := SolvedCount(values[..]);
      Eliminate(values);
      OnlyChoice(values);
      var solvedAfter := SolvedCount(values[..]);
      stalled := solvedBefore == solvedAfter;
      if HasEmpty(values[..]) {
        return false;
      }
      RoundEffect(before);
    }
    return true;
  }

  /** The result of a successful reduction has no empty cell, adds no digit and keeps the
      digit of every cell that was solved in the input. */
  lemma {:induction false} ReducedRefines(g: Grid)
    requires Reduced(g).Some?
    ensures !HasEmpty(Reduced(g).value)
    ensures Refines(Reduced(g).value, g)
    ensures forall i: Cell :: |g[i]| == 1 ==> Reduced(g).value[i] == g[i]
    decreases 81 - SolvedCount(g)
  {
    var h := Round(g);
    RoundEffect(g);
    if SolvedCount(h) != SolvedCount(g) {
      ReducedRefines(h);
      RefinesTransitive(Reduced(h).value, h, g);
    }
  }

  /** When `reduce_puzzle` succeeds, no two peers are both solved with the same digit: the
      round that stalled removed the digit of every solved cell from its peers. */
  lemma {:induction false} ReducedSolvedDiffer(g: Grid)
    requires Reduced(g).Some?
    ensures forall k: Cell, p :: |Reduced(g).value[k]| == 1 && p in Peers(k) ==>
      Reduced(g).value[p] !! Reduced(g).value[k]
    decreases 81 - SolvedCount(g)
  {
    var h := Round(g);
    RoundEffect(g);
    if SolvedCount(h) != SolvedCount(g) {
      ReducedSolvedDiffer(h);
    } else {
      var e := Eliminated(g);
      EliminateDetectsClash(g);
      OnlyChosenEffect(e);
      SolvedCountGrows(g, h);
      forall k: Cell, p | |h[k]| == 1 && p in Peers(k) ensures h[p] !! h[k] {
        assert |g[k]| == 1 && h[k] == g[k];
        assert h[p] <= e[p];
      }
    }
  }

  /** A successful reduction in which every cell is solved is a solution: each unit then
      holds every digit 1-9 exactly once. */
  lemma ReducedSolvedIsSolution(g: Grid)
    requires Reduced(g).Some? && AllSolved(Reduced(g).value)
    ensures IsSolution(Reduced(g).value)
    ensures forall k, d: Digit :: 0 <= k < 29 ==> |Locations(Reduced(g).value, UnitAt(k), d)| == 1
  {
    var r := Reduced(g).value;
    ReducedSolvedDiffer(g);
    forall k | 0 <= k < 29 ensures forall d: Digit :: |Locations(r, UnitAt(k), d)| == 1 {
      SolutionFillsUnits(r, k);
    }
  }

  /** `reduce_puzzle` is sound: if a solution is contained in the input, it does not fail,
      and the solution is contained in its result. */
  lemma {:induction false} ReducedKeepsSolution(g: Grid, s: Grid)
    requires IsSolution(s) && Refines(s, g)
    ensures Reduced(g).Some? && Refines(s, Reduced(g).value)
    decreases 81 - SolvedCount(g)
  {
    var h := Round(g);
    EliminateKeepsSolution(g, s);
    OnlyChoiceKeepsSolution(Eliminated(g), s);
    assert !HasEmpty(h) by {
      forall i: Cell ensures h[i] != {} {
        assert |s[i]| == 1 && s[i] <= h[i];
      }
    }
    RoundEffect(g);
    if SolvedCount(h) != SolvedCount(g) {
      ReducedKeepsSolution(h, s);
    }
  }
}
