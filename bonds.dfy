/** The bond loop of Energy.load: the parsed bond list holds atom indices in
    pairs, and each pair (x, y) appends y to the bonds of x and then x to the
    bonds of y. */
module Bonds {
  import opened Graph

  /** Why the bond list is rejected, with the list position it fails at. */
  datatype Fault =
    | BadAtom(pos: nat)          // the entry is not an atom index (array index out of bounds)
    | MissingPartner(pos: nat)   // the list ends halfway through a pair (list index out of bounds)

  datatype Outcome = Linked(adj: Adjacency) | Failed(fault: Fault)

  datatype Option<T> = None | Some(value: T)

  /** The first fault of the pairs starting at list position i, if any, in
      the order the loop evaluates them: first atom, then second entry, then
      second atom. */
  function FirstFault(n: nat, input: seq<int>, i: nat): Option<Fault>
    decreases |input| - i
  {
    if i >= |input| then None
    else if !(0 <= input[i] < n) then Some(BadAtom(i))
    else if i + 1 >= |input| then Some(MissingPartner(i + 1))
    else if !(0 <= input[i + 1] < n) then Some(BadAtom(i + 1))
    else FirstFault(n, input, i + 2)
  }

  /** The bond list is a whole number of pairs of atom indices below n. */
  predicate WellFormed(n: nat, input: seq<int>) {
    |input| % 2 == 0 && forall k :: 0 <= k < |input| ==> 0 <= input[k] < n
  }

  /** The list is accepted exactly when it is well formed. */
  lemma {:induction false} NoFaultIffWellFormed(n: nat, input: seq<int>, i: nat)
    requires i % 2 == 0 && i <= |input|
    requires forall k :: 0 <= k < i ==> 0 <= input[k] < n
    ensures FirstFault(n, input, i) == None <==> WellFormed(n, input)
    decreases |input| - i
  {
    if i < |input| && 0 <= input[i] < n && i + 1 < |input| && 0 <= input[i + 1] < n {
      NoFaultIffWellFormed(n, input, i + 2);
    }
  }

  /** The bonds of atom a after the first p pairs of the list. */
  function Partners(input: seq<int>, a: nat, p: nat): seq<nat>
    requires 2 * p <= |input|
    requires forall k :: 0 <= k < 2 * p ==> input[k] >= 0
  {
    if p == 0 then []
    else
      Partners(input, a, p - 1) + Added(input[2 * p - 2] as nat, input[2 * p - 1] as nat, a)
  }

  /** What the bond (x, y) appends to the bonds of a: y if a is x, then x if a is y. */
  function Added(x: nat, y: nat, a: nat): seq<nat> {
    (if x == a then [y] else []) + (if y == a then [x] else [])
  }

  /** A single bond adds b to the bonds of a as often as it adds a to the bonds of b. */
  lemma AddedSymmetric(x: nat, y: nat, a: nat, b: nat)
    ensures multiset(Added(x, y, a))[b] == multiset(Added(x, y, b))[a]
  {
  }

  lemma MultisetConcat(s: seq<nat>, t: seq<nat>, b: nat)
    ensures multiset(s + t)[b] == multiset(s)[b] + multiset(t)[b]
  {
  }

  /** b is bonded to a as many times as a is bonded to b. */
  lemma {:induction false} PartnersSymmetric(input: seq<int>, a: nat, b: nat, p: nat)
    requires 2 * p <= |input|
    requires forall k :: 0 <= k < 2 * p ==> input[k] >= 0
    ensures multiset(Partners(input, a, p))[b] == multiset(Partners(input, b, p))[a]
    decreases p
  {
    if p > 0 {
      PartnersSymmetric(input, a, b, p - 1);
      var x, y := input[2 * p - 2] as nat, input[2 * p - 1] as nat;
      AddedSymmetric(x, y, a, b);
      MultisetConcat(Partners(input, a, p - 1), Added(x, y, a), b);
      MultisetConcat(Partners(input, b, p - 1), Added(x, y, b), a);
    }
  }

  /** Every bonded atom of an accepted list is an atom, and the bonds go both ways. */
  lemma PartnersGraph(n: nat, input: seq<int>, g: Adjacency)
    requires WellFormed(n, input)
    requires |g| == n && forall a :: 0 <= a < n ==> g[a] == Partners(input, a, |input| / 2)
    ensures ValidGraph(g) && Symmetric(g)
    ensures forall a, b :: 0 <= a < n && 0 <= b < n ==> multiset(g[a])[b] == multiset(g[b])[a]
  {
    forall a, b | 0 <= a < n && 0 <= b < n ensures multiset(g[a])[b] == multiset(g[b])[a] {
      PartnersSymmetric(input, a, b, |input| / 2);
    }
    forall a, i | 0 <= a < n && 0 <= i < |g[a]| ensures g[a][i] < n && a in g[g[a][i]] {
      BondBack(n, input, a, g[a][i]);
    }
  }

  /** A partner b of a in an accepted list is an atom that has a among its partners. */
  lemma BondBack(n: nat, input: seq<int>, a: nat, b: nat)
    requires WellFormed(n, input)
    requires b in Partners(input, a, |input| / 2)
    ensures b < n && a in Partners(input, b, |input| / 2)
  {
    var p := |input| / 2;
    PartnersBelow(n, input, a, p);
    assert multiset(Partners(input, a, p))[b] > 0;
    PartnersSymmetric(input, a, b, p);
  }

  lemma {:induction false} PartnersBelow(n: nat, input: seq<int>, a: nat, p: nat)
    requires 2 * p <= |input|
    requires forall k :: 0 <= k < 2 * p ==> 0 <= input[k] < n
    ensures forall v :: v in Partners(input, a, p) ==> v < n
    decreases p
  {
    if p > 0 {
      PartnersBelow(n, input, a, p - 1);
    }
  }

  /** Energy.load, lines 61-66, over n atoms and the parsed bond list. */
  method LinkBonds(n: nat, input: seq<int>) returns (r: Outcome)
    ensures r.Linked? <==> WellFormed(n, input)
    ensures r.Failed? ==> FirstFault(n, input, 0) == Some(r.fault)
    ensures r.Linked? ==> |r.adj| == n && forall a :: 0 <= a < n ==> r.adj[a] == Partners(input, a, |input| / 2)
    ensures r.Linked? ==> ValidGraph(r.adj) && Symmetric(r.adj)
    ensures r.Linked? ==> forall a, b :: 0 <= a < n && 0 <= b < n ==> multiset(r.adj[a])[b] == multiset(r.adj[b])[a]
  {
    var linked: seq<seq<nat>> := seq(n, _ => []);
    var i := 0;
    ghost var p := 0;
    while i < |input|
      invariant i == 2 * p && i <= |input|
      invariant forall k :: 0 <= k < i ==> 0 <= input[k] < n
      invariant FirstFault(n, input, 0) == FirstFault(n, input, i)
      invariant linked == LinkedAfter(n, input, p)
    {
      if !(0 <= input[i] < n) {
        return Failed(BadAtom(i));
      }
      if i + 1 >= |input| {
        return Failed(MissingPartner(i + 1));
      }
      if !(0 <= input[i + 1] < n) {
        return Failed(BadAtom(i + 1));
      }
      var x, y: nat := input[i], input[i + 1];
      ghost var before := linked;
      linked := linked[x := linked[x] + [y]];
      linked := linked[y := linked[y] + [x]];
      LinkStep(n, input, p, before, linked);
      i, p := i + 2, p + 1;
    }
    assert p == |input| / 2;
    NoFaultIffWellFormed(n, input, 0);
    PartnersGraph(n, input, linked);
    r := Linked(linked);
  }

  /** The bonds of every atom below n after the first p pairs. */
  function LinkedAfter(n: nat, input: seq<int>, p: nat): (g: Adjacency)
    requires 2 * p <= |input|
    requires forall k :: 0 <= k < 2 * p ==> input[k] >= 0
    ensures |g| == n && forall a :: 0 <= a < n ==> g[a] == Partners(input, a, p)
  {
    seq(n, (a: nat) => Partners(input, a, p))
  }

  /** Appending the bond at pair p to the bonds of its two atoms extends
      every atom's bonds from p pairs to p + 1 pairs. */
  lemma LinkStep(n: nat, input: seq<int>, p: nat, before: seq<seq<nat>>, after: seq<seq<nat>>)
    requires 2 * p + 2 <= |input|
    requires forall k :: 0 <= k < 2 * p + 2 ==> 0 <= input[k] < n
    requires before == LinkedAfter(n, input, p)
    requires
      var x, y := input[2 * p] as nat, input[2 * p + 1] as nat;
      var mid := before[x := before[x] + [y]];
      after == mid[y := mid[y] + [x]]
    ensures after == LinkedAfter(n, input, p + 1)
  {
    var x, y := input[2 * p] as nat, input[2 * p + 1] as nat;
    var mid := before[x := before[x] + [y]];
    forall a | 0 <= a < n ensures after[a] == Partners(input, a, p + 1) {
      var ex: seq<nat> := if a == x then [y] else [];
      var ey: seq<nat> := if a == y then [x] else [];
      assert mid[a] == before[a] + ex;
      assert after[a] == before[a] + ex + ey;
      assert Partners(input, a, p + 1) == before[a] + (ex + ey);
    }
  }
}
