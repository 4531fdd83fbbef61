/** The only-choice strategy: a digit that only one cell of a unit still allows is
    placed in that cell. */
module OnlyChoiceStrategy {
  import opened Topology
  import opened Grids

  /** `d_locations`: the cells of `u`, in unit order, whose candidates include `d`. */
  function Locations(g: Grid, u: Unit, d: Digit): (locs: seq<Cell>)
    ensures forall b :: b in locs <==> b in u && d in g[b]
    ensures Distinct(u) ==> Distinct(locs)
  {
    if u == [] then []
    else
      var rest := Locations(g, u[1..], d);
      assert Distinct(u) ==> u[0] !in u[1..] && Distinct(u[1..]) by {
        if Distinct(u) {
          forall i, j | 0 <= i < j < |u[1..]| ensures u[1..][i] != u[1..][j] {
            assert u[1..][i] == u[i + 1] && u[1..][j] == u[j + 1];
          }
        }
      }
      (if d in g[u[0]] then [u[0]] else []) + rest
  }

  /** One turn of `only_choice`'s inner loop: if `d` is allowed at exactly one cell of `u`,
      that cell becomes `{d}`. */
  function Assign(g: Grid, u: Unit, d: Digit): Grid {
    var locs := Locations(g, u, d);
    if |locs| == 1 then g[locs[0] := {d}] else g
  }

  /** The mapping after digits 1 .. n have been tried on unit `u`. */
  function DigitsUpTo(g: Grid, u: Unit, n: nat): Grid
    requires n <= 9
  {
    if n == 0 then g else Assign(DigitsUpTo(g, u, n - 1), u, n)
  }

  /** The mapping after the first `n` units of the unit list have been processed. */
  function UnitsUpTo(g: Grid, n: nat): Grid
    requires n <= 29
  {
    if n == 0 then g else DigitsUpTo(UnitsUpTo(g, n - 1), UnitAt(n - 1), 9)
  }

  /** The mapping after one full `only_choice` pass. */
  function OnlyChosen(g: Grid): Grid {
    UnitsUpTo(g, 29)
  }

  /** `only_choice(values)`: updates the mapping in place, unit by unit. */
  method OnlyChoice(values: array<Cands>)
    requires values.Length == 81
    modifies values
    ensures values[..] == OnlyChosen(old(values[..]))
  {
    ghost var g: Grid := values[..];
    var unitlist := UnitList();
    for n := 0 to 29
      invariant values[..] == UnitsUpTo(g, n)
    {
      ChooseInUnit(values, unitlist[n]);
    }
  }

  /** The loop of `only_choice` over the digits 1-9 for one unit. */
  method ChooseInUnit(values: array<Cands>, unit: Unit)
    requires values.Length == 81
    modifies values
    ensures values[..] == DigitsUpTo(old(values[..]), unit, 9)
  {
    ghost var h: Grid := values[..];
    for d := 1 to 10
      invariant values[..] == DigitsUpTo(h, unit, d - 1)
    {
      ghost var before: Grid := values[..];
      var locs := Locations(values[..], unit, d);
      if |locs| == 1 {
        Place(values, locs[0], d);
      }
      assert values[..] == Assign(before, unit, d);
      assert DigitsUpTo(h, unit, d) == Assign(DigitsUpTo(h, unit, d - 1), unit, d);
    }
  }

  /** `values[box] = digit`. */
  method Place(values: array<Cands>, b: Cell, d: Digit)
    requires values.Length == 81
    modifies values
    ensures values[..] == old(values[..])[b := {d}]
  {
    values[b] := {d};
  }

  /** Each cell is left alone or replaced by a single digit it already allowed. */
  predicate ChoiceStep(g: Grid, h: Grid) {
    forall i: Cell :: h[i] == g[i] || (|h[i]| == 1 && h[i] <= g[i])
  }

  lemma ChoiceStepTransitive(f: Grid, g: Grid, h: Grid)
    requires ChoiceStep(f, g) && ChoiceStep(g, h)
    ensures ChoiceStep(f, h)
  {}

  /** A turn of the inner loop changes at most one cell, the unique location of `d` in `u`,
      and sets it to `{d}`. */
  lemma AssignEffect(g: Grid, u: Unit, d: Digit)
    ensures forall i: Cell :: (Assign(g, u, d)[i] == g[i] ||
      (Locations(g, u, d) == [i] && i in u && d in g[i] && Assign(g, u, d)[i] == {d}))
    ensures ChoiceStep(g, Assign(g, u, d))
  {
    var locs := Locations(g, u, d);
    if |locs| == 1 {
      assert locs == [locs[0]];
      assert locs[0] in locs;
    }
  }

  lemma {:induction false} DigitsUpToStep(g: Grid, u: Unit, n: nat)
    requires n <= 9
    ensures ChoiceStep(g, DigitsUpTo(g, u, n))
  {
    if n > 0 {
      DigitsUpToStep(g, u, n - 1);
      AssignEffect(DigitsUpTo(g, u, n - 1), u, n);
      ChoiceStepTransitive(g, DigitsUpTo(g, u, n - 1), DigitsUpTo(g, u, n));
    }
  }

  lemma {:induction false} UnitsUpToStep(g: Grid, n: nat)
    requires n <= 29
    ensures ChoiceStep(g, UnitsUpTo(g, n))
  {
    if n > 0 {
      UnitsUpToStep(g, n - 1);
      DigitsUpToStep(UnitsUpTo(g, n - 1), UnitAt(n - 1), 9);
      ChoiceStepTransitive(g, UnitsUpTo(g, n - 1), UnitsUpTo(g, n));
    }
  }

  /** `only_choice` only ever replaces a candidate set by one of its own digits: it adds no
      digit, empties no cell and leaves every single-valued cell as it was. */
  lemma OnlyChosenEffect(g: Grid)
    ensures ChoiceStep(g, OnlyChosen(g))
    ensures Refines(OnlyChosen(g), g)
    ensures forall i: Cell :: g[i] != {} ==> OnlyChosen(g)[i] != {}
    ensures forall i: Cell :: |g[i]| == 1 ==> OnlyChosen(g)[i] == g[i]
  {
    UnitsUpToStep(g, 29);
    var h := OnlyChosen(g);
    forall i: Cell ensures h[i] <= g[i] && (g[i] != {} ==> h[i] != {}) {
      assert h[i] == g[i] || (|h[i]| == 1 && h[i] <= g[i]);
    }
    forall i: Cell | |g[i]| == 1 ensures h[i] == g[i] {
      if h[i] != g[i] {
        SubsetOfSingleton(h[i], g[i]);
      }
    }
  }

  /** The digits allowed anywhere in the cells `u`. */
  function UnionOf(g: Grid, u: seq<Cell>): (ds: set<Digit>)
    ensures forall d :: d in ds <==> exists c :: c in u && d in g[c]
  {
    if u == [] then {}
    else
      var rest := UnionOf(g, u[1..]);
      assert forall c :: c in u <==> c == u[0] || c in u[1..];
      g[u[0]] + rest
  }

  /** Distinct cells with non-empty, pairwise disjoint candidate sets allow at least as many
      digits as there are cells. */
  lemma {:induction false} UnionSize(g: Grid, u: seq<Cell>)
    requires Distinct(u)
    requires forall c :: c in u ==> g[c] != {}
    requires forall i, j :: 0 <= i < j < |u| ==> g[u[i]] !! g[u[j]]
    ensures |UnionOf(g, u)| >= |u|
  {
    if u != [] {
      var t := u[1..];
      forall i, j | 0 <= i < j < |t| ensures t[i] != t[j] && g[t[i]] !! g[t[j]] {
        assert t[i] == u[i + 1] && t[j] == u[j + 1];
      }
      UnionSize(g, t);
      forall c | c in t ensures g[u[0]] !! g[c] {
        var j :| 0 <= j < |t| && t[j] == c;
        assert u[j + 1] == c;
      }
      assert g[u[0]] !! UnionOf(g, t);
      assert |g[u[0]]| >= 1;
    }
  }

  /** Nine distinct cells holding one digit each, no digit twice, hold each digit 1-9
      exactly once. */
  lemma NineCellsFillDigits(s: Grid, u: seq<Cell>)
    requires |u| == 9 && Distinct(u)
    requires forall c :: c in u ==> |s[c]| == 1
    requires forall a, b :: a in u && b in u && a != b ==> s[a] !! s[b]
    ensures forall d: Digit :: |Locations(s, u, d)| == 1
  {
    forall i, j | 0 <= i < j < |u| ensures s[u[i]] !! s[u[j]] {
      assert u[i] in u && u[j] in u;
    }
    forall c | c in u ensures s[c] != {} {
      assert |s[c]| == 1;
    }
    UnionSize(s, u);
    AllDigitsShape();
    SubsetSize(UnionOf(s, u), AllDigits());
    forall d: Digit ensures |Locations(s, u, d)| == 1 {
      assert d in UnionOf(s, u);
      var c :| c in u && d in s[c];
      OneLocation(s, u, d, c);
    }
  }

  /** A digit allowed at `c` and at no other cell of `u` has exactly one location there. */
  lemma OneLocation(s: Grid, u: seq<Cell>, d: Digit, c: Cell)
    requires Distinct(u) && c in u && d in s[c]
    requires forall a, b :: a in u && b in u && a != b ==> s[a] !! s[b]
    ensures |Locations(s, u, d)| == 1
  {
    var locs := Locations(s, u, d);
    assert c in locs;
    forall x | x in locs ensures x == c {
      assert d in s[x];
    }
    DistinctSetSize<Cell>(locs);
    assert (set x: Cell | x in locs) == {c};
  }

  /** In a solution every unit holds each digit 1-9 exactly once. */
  lemma SolutionFillsUnits(s: Grid, k: int)
    requires 0 <= k < 29 && IsSolution(s)
    ensures forall d: Digit :: |Locations(s, UnitAt(k), d)| == 1
  {
    var u := UnitAt(k);
    UnitAtShape(k);
    forall a, b | a in u && b in u && a != b ensures s[a] !! s[b] {
      UnitMembersArePeers(k, a, b);
    }
    NineCellsFillDigits(s, u);
  }

  /** A turn of the inner loop keeps a solution contained in the mapping when the solution
      places each digit exactly once in the unit: only the cell that the solution must give
      `d` is set to `{d}`. */
  lemma AssignKeepsSolution(g: Grid, s: Grid, u: Unit, d: Digit)
    requires forall e: Digit :: |Locations(s, u, e)| == 1
    requires Refines(s, g) && forall c: Cell :: |s[c]| == 1
    ensures Refines(s, Assign(g, u, d))
  {
    var locs := Locations(g, u, d);
    if |locs| == 1 {
      var sl := Locations(s, u, d);
      assert |sl| == 1;
      assert sl[0] in sl;
      var c := sl[0];
      assert c in locs;
      assert locs == [locs[0]];
      assert s[c] == {d} by {
        SubsetOfSingleton({d}, s[c]);
      }
    }
  }

  lemma {:induction false} DigitsUpToKeepsSolution(g: Grid, s: Grid, u: Unit, n: nat)
    requires n <= 9 && forall e: Digit :: |Locations(s, u, e)| == 1
    requires Refines(s, g) && forall c: Cell :: |s[c]| == 1
    ensures Refines(s, DigitsUpTo(g, u, n))
  {
    if n > 0 {
      DigitsUpToKeepsSolution(g, s, u, n - 1);
      AssignKeepsSolution(DigitsUpTo(g, u, n - 1), s, u, n);
    }
  }

  lemma {:induction false} UnitsUpToKeepsSolution(g: Grid, s: Grid, n: nat)
    requires n <= 29 && IsSolution(s) && Refines(s, g)
    ensures Refines(s, UnitsUpTo(g, n))
  {
    if n > 0 {
      UnitsUpToKeepsSolution(g, s, n - 1);
      SolutionFillsUnits(s, n - 1);
      DigitsUpToKeepsSolution(UnitsUpTo(g, n - 1), s, UnitAt(n - 1), 9);
    }
  }
  /** `only_choice` is sound: a solution contained in the input is contained in the output. */
  lemma OnlyChoiceKeepsSolution(g: Grid, s: Grid)
    requires IsSolution(s) && Refines(s, g)
    ensures Refines(s, OnlyChosen(g))
  {
    UnitsUpToKeepsSolution(g, s, 29);
  }
}
