/** The screened all-pairs energy sum of Energy.run: every atom gets its
    classification map at depth MaxLink, tn workers (Energy.run's local
    class Calculator) each sum a stride of outer rows, and the partial sums
    are added in worker order and scaled by ENERGY_COEFF once. */
module Reducer {
  import opened Graph
  import opened Classifier
  import opened Screening

  /** Energy.ENERGY_COEFF. */
  const EnergyCoeff: real := 1389.38757

  /** The raw Coulomb term charge(j) * charge(i) / dist(j, i) of two atoms. */
  type Coulomb = (nat, nat) -> real

  /** atoms[j].energy(atoms[i]): the term of the pair screened by the map of j. */
  function Term(closest: seq<map<nat, nat>>, v: Coulomb, j: nat, i: nat): real
    requires j < |closest|
  {
    Energy(closest[j], i, v(j, i))
  }

  /** The terms of the pairs (j, i) with j < m. */
  function RowPrefix(closest: seq<map<nat, nat>>, v: Coulomb, i: nat, m: nat): real
    requires m <= |closest|
  {
    if m == 0 then 0.0 else RowPrefix(closest, v, i, m - 1) + Term(closest, v, m - 1, i)
  }

  /** Outer row i: the terms of all pairs (j, i) with j < i. */
  function Row(closest: seq<map<nat, nat>>, v: Coulomb, i: nat): real
    requires i <= |closest|
  {
    RowPrefix(closest, v, i, i)
  }

  /** The rows lo <= i < hi, each once. */
  function RowsFrom(closest: seq<map<nat, nat>>, v: Coulomb, lo: nat, hi: nat): real
    requires hi <= |closest|
  {
    if hi <= lo then 0.0 else RowsFrom(closest, v, lo, hi - 1) + Row(closest, v, hi - 1)
  }

  /** Calculator(offs, step) visits outer row i: the loop starts at 1 + offs
      and steps by step. */
  predicate Visits(offs: nat, step: nat, i: nat)
    requires step > 0
  {
    1 + offs <= i && (i - 1 - offs) % step == 0
  }

  /** Worker t of tn, which Energy.run creates as Calculator(t + 1, tn), visits row i. */
  predicate Owns(tn: nat, t: nat, i: nat)
    requires tn > 0
  {
    Visits(t + 1, tn, i)
  }

  /** The rows below hi that Calculator(offs, step) visits. */
  function WorkerSum(closest: seq<map<nat, nat>>, v: Coulomb, offs: nat, step: nat, hi: nat): real
    requires step > 0 && hi <= |closest|
  {
    if hi == 0 then 0.0
    else WorkerSum(closest, v, offs, step, hi - 1) + (if Visits(offs, step, hi - 1) then Row(closest, v, hi - 1) else 0.0)
  }

  /** The partial sums of workers 0..k-1 of tn, in worker order, over the
      rows below hi; worker t is Calculator(t + 1, tn). */
  function Partials(closest: seq<map<nat, nat>>, v: Coulomb, tn: nat, k: nat, hi: nat): real
    requires tn > 0 && hi <= |closest|
  {
    if k == 0 then 0.0 else Partials(closest, v, tn, k - 1, hi) + WorkerSum(closest, v, k, tn, hi)
  }

  /** The classification map of every atom, as Energy.run stores it in Atom.closest. */
  function AllClosest(g: Adjacency): (r: seq<map<nat, nat>>)
    ensures |r| == |g| && forall a :: 0 <= a < |g| ==> r[a] == Closest(g, a, MaxLink)
  {
    seq(|g|, (a: nat) => Closest(g, a, MaxLink))
  }

  lemma MulMonotone(a: int, b: int, s: nat)
    ensures a <= b ==> a * s <= b * s
  {
  }

  lemma ModOfMultiplePlus(q: nat, s: nat, r: nat)
    requires 0 <= r < s
    ensures (q * s + r) % s == r
  {
    var d := (q * s + r) / s;
    MulMonotone(q + 1, d, s);
    MulMonotone(d + 1, q, s);
    assert (q + 1) * s == q * s + s && (d + 1) * s == d * s + s;
  }

  /** Worker t of tn visits row i exactly when i >= 2 and i - 2 leaves
      remainder t modulo tn. */
  lemma StrideOwner(tn: nat, t: nat, i: nat)
    requires 0 <= t < tn
    ensures Owns(tn, t, i) <==> 2 <= i && (i - 2) % tn == t
  {
    if Visits(t + 1, tn, i) {
      var x := i - 2 - t;
      assert x == (x / tn) * tn;
      ModOfMultiplePlus(x / tn, tn, t);
    }
    if 2 <= i && (i - 2) % tn == t {
      var y := i - 2;
      assert y == (y / tn) * tn + t;
      ModOfMultiplePlus(y / tn, tn, 0);
    }
  }

  /** No row is visited by two workers. */
  lemma StridesDisjoint(tn: nat, t: nat, u: nat, i: nat)
    requires 0 <= t < tn && 0 <= u < tn && t != u
    ensures !(Owns(tn, t, i) && Owns(tn, u, i))
  {
    StrideOwner(tn, t, i);
    StrideOwner(tn, u, i);
  }

  /** Every row from 2 on is visited by some worker, rows 0 and 1 by none:
      the pair of atoms 0 and 1 is never summed. */
  lemma StridesCover(tn: nat, i: nat)
    requires tn > 0
    ensures 2 <= i ==> exists t :: 0 <= t < tn && Owns(tn, t, i)
    ensures i < 2 ==> forall t :: 0 <= t < tn ==> !Owns(tn, t, i)
  {
    if 2 <= i {
      StrideOwner(tn, (i - 2) % tn, i);
      assert Owns(tn, (i - 2) % tn, i);
    }
  }

  /** After visiting row i, Calculator(offs, step) visits row i + step next. */
  lemma NextVisit(offs: nat, step: nat, i: nat)
    requires step > 0 && Visits(offs, step, i)
    ensures Visits(offs, step, i + step)
  {
    var x := i - 1 - offs;
    assert x == (x / step) * step;
    ModOfMultiplePlus(x / step + 1, step, 0);
    assert i + step - 1 - offs == (x / step + 1) * step;
  }

  lemma NoVisitBetween(offs: nat, step: nat, i: nat, h: nat)
    requires step > 0 && Visits(offs, step, i) && i < h < i + step
    ensures !Visits(offs, step, h)
  {
    var x := i - 1 - offs;
    assert x == (x / step) * step;
    ModOfMultiplePlus(x / step, step, h - i);
  }

  /** The rows strictly between two visits add nothing to a worker's sum. */
  lemma {:induction false} WorkerGap(closest: seq<map<nat, nat>>, v: Coulomb, offs: nat, step: nat, i: nat, h: nat)
    requires step > 0 && Visits(offs, step, i)
    requires i < h <= i + step && h <= |closest|
    ensures WorkerSum(closest, v, offs, step, h) == WorkerSum(closest, v, offs, step, i + 1)
    decreases h
  {
    if h > i + 1 {
      WorkerGap(closest, v, offs, step, i, h - 1);
      NoVisitBetween(offs, step, i, h - 1);
    }
  }

  /** A worker visits no row below its start. */
  lemma {:induction false} WorkerBeforeStart(closest: seq<map<nat, nat>>, v: Coulomb, offs: nat, step: nat, h: nat)
    requires step > 0 && h <= 1 + offs && h <= |closest|
    ensures WorkerSum(closest, v, offs, step, h) == 0.0
    decreases h
  {
    if h > 0 {
      WorkerBeforeStart(closest, v, offs, step, h - 1);
    }
  }

  /** The rows below hi owned by workers 0..k-1. */
  function Owned(closest: seq<map<nat, nat>>, v: Coulomb, tn: nat, k: nat, i: nat): real
    requires tn > 0 && i <= |closest|
  {
    if 2 <= i && (i - 2) % tn < k then Row(closest, v, i) else 0.0
  }

  lemma {:induction false} PartialsZero(closest: seq<map<nat, nat>>, v: Coulomb, tn: nat, k: nat)
    requires tn > 0
    ensures Partials(closest, v, tn, k, 0) == 0.0
    decreases k
  {
    if k > 0 {
      PartialsZero(closest, v, tn, k - 1);
    }
  }

  /** Extending the rows by row hi - 1 adds that row to the partials of the
      first k workers exactly when one of them owns it. */
  lemma {:induction false} PartialsStep(closest: seq<map<nat, nat>>, v: Coulomb, tn: nat, k: nat, hi: nat)
    requires tn > 0 && 0 < hi <= |closest| && k <= tn
    ensures Partials(closest, v, tn, k, hi) == Partials(closest, v, tn, k, hi - 1) + Owned(closest, v, tn, k, hi - 1)
    decreases k
  {
    if k > 0 {
      PartialsStep(closest, v, tn, k - 1, hi);
      StrideOwner(tn, k - 1, hi - 1);
    }
  }

  /** The partial sums of all tn workers, in worker order, are the rows
      2 <= i < hi, each summed exactly once. */
  lemma {:induction false} PartialsCoverRows(closest: seq<map<nat, nat>>, v: Coulomb, tn: nat, hi: nat)
    requires tn > 0 && hi <= |closest|
    ensures Partials(closest, v, tn, tn, hi) == RowsFrom(closest, v, 2, hi)
    decreases hi
  {
    if hi == 0 {
      PartialsZero(closest, v, tn, tn);
    } else {
      PartialsCoverRows(closest, v, tn, hi - 1);
      PartialsStep(closest, v, tn, tn, hi);
    }
  }

  /** Row 1, the single pair of atoms 0 and 1, is the only difference from
      the sum over all rows. */
  lemma {:induction false} RowOneSkipped(closest: seq<map<nat, nat>>, v: Coulomb, hi: nat)
    requires 2 <= hi <= |closest|
    ensures RowsFrom(closest, v, 1, hi) == Term(closest, v, 0, 1) + RowsFrom(closest, v, 2, hi)
    decreases hi
  {
    if hi > 2 {
      RowOneSkipped(closest, v, hi - 1);
    } else {
      assert RowPrefix(closest, v, 1, 0) == 0.0;
      assert Row(closest, v, 1) == Term(closest, v, 0, 1);
      assert RowsFrom(closest, v, 1, 2) == Row(closest, v, 1);
    }
  }

  /** Energy.run's local class Calculator: the worker with offset offs and
      stride step over the atoms' classification maps and Coulomb terms. */
  class Calculator {
    const closest: seq<map<nat, nat>>
    const v: Coulomb
    const offs: nat
    const step: nat
    var energy: real

    constructor (closest: seq<map<nat, nat>>, v: Coulomb, offs: nat, step: nat)
      ensures this.closest == closest && this.v == v && this.offs == offs && this.step == step
      ensures energy == 0.0
    {
      this.closest := closest;
      this.v := v;
      this.offs := offs;
      this.step := step;
      energy := 0.0;
    }

    /** Calculator.run: sums row i for i = 1 + offs, 1 + offs + step, ... below the atom count. */
    method Run()
      requires step > 0
      modifies this`energy
      ensures energy == WorkerSum(closest, v, offs, step, |closest|)
    {
      energy := 0.0;
      var i := 1 + offs;
      if |closest| <= i {
        WorkerBeforeStart(closest, v, offs, step, |closest|);
      } else {
        WorkerBeforeStart(closest, v, offs, step, i);
      }
      while i < |closest|
        invariant Visits(offs, step, i)
        invariant energy == WorkerSum(closest, v, offs, step, if i < |closest| then i else |closest|)
        decreases |closest| - i
      {
        for j := 0 to i
          invariant energy == WorkerSum(closest, v, offs, step, i) + RowPrefix(closest, v, i, j)
        {
          energy := energy + Term(closest, v, j, i);
        }
        NextVisit(offs, step, i);
        WorkerGap(closest, v, offs, step, i, if i + step < |closest| then i + step else |closest|);
        i := i + step;
      }
    }
  }

  /** Energy.run with tn workers run one after another, v the raw Coulomb
      term of each pair: the scaled sum of the partials in worker order,
      which is the scaled sum of every pair (j, i) with 2 <= i and j < i. */
  method Run(g: Adjacency, v: Coulomb, tn: nat) returns (energy: real)
    requires ValidGraph(g) && tn > 0
    ensures energy == EnergyCoeff * Partials(AllClosest(g), v, tn, tn, |g|)
    ensures energy == EnergyCoeff * RowsFrom(AllClosest(g), v, 2, |g|)
  {
    energy := 0.0;
    var closest: seq<map<nat, nat>> := [];
    for a := 0 to |g|
      invariant |closest| == a && forall k :: 0 <= k < a ==> closest[k] == Closest(g, k, MaxLink)
    {
      var r, _ := FindClosest(g, a, MaxLink);
      closest := closest + [r];
    }
    assert closest == AllClosest(g);
    var calcs := new Calculator?[tn];
    for t := 0 to tn
      invariant forall k :: 0 <= k < t ==> calcs[k] != null && calcs[k].closest == closest && calcs[k].v == v
      invariant forall k :: 0 <= k < t ==> calcs[k].energy == WorkerSum(closest, v, k + 1, tn, |closest|)
    {
      var c := new Calculator(closest, v, t + 1, tn);
      c.Run();
      calcs[t] := c;
    }
    for t := 0 to tn
      invariant energy == Partials(closest, v, tn, t, |closest|)
    {
      energy := energy + calcs[t].energy;
    }
    energy := energy * EnergyCoeff;
    PartialsCoverRows(closest, v, tn, |closest|);
  }
}
