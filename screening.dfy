/** The screening rule of Energy.Atom.energy: the Coulomb term between two
    atoms is kept, dropped or halved according to how many bonds apart the
    classification map of the first atom says the second one is. */
module Screening {
  import opened Graph
  import opened Classifier

  /** Energy.MAX_LINK: the classification depth, and the bond count from
      which on the term is only halved rather than dropped. */
  const MaxLink: nat := 3

  /** The factor the screening rule applies to the raw term for other, as
      recorded (or not) in closest. */
  function Multiplier(closest: map<nat, nat>, other: nat): (f: real)
    ensures f == 0.0 || f == 0.5 || f == 1.0
    ensures f == 1.0 <==> other !in closest
    ensures f == 0.0 <==> other in closest && closest[other] < MaxLink
  {
    if other !in closest then 1.0
    else if closest[other] < MaxLink then 0.0
    else 0.5
  }

  /** Energy.Atom.energy, with v the raw Coulomb term of the pair. */
  function Energy(closest: map<nat, nat>, other: nat, v: real): (e: real)
    ensures e == Multiplier(closest, other) * v
  {
    if other !in closest then v
    else if closest[other] < MaxLink then 0.0
    else v / 2.0
  }

  /** On a classification map built at depth MaxLink the three branches are
      decided by bond distance: an atom that is the centre itself or more
      than MaxLink bonds away keeps its full term, one or two bonds away
      drops it, and exactly MaxLink bonds away halves it. */
  lemma ScreeningRule(g: Adjacency, a: nat, b: nat, v: real)
    ensures b == a || b !in Ball(g, a, MaxLink) ==> Energy(Closest(g, a, MaxLink), b, v) == v
    ensures b != a && b in Ball(g, a, MaxLink - 1) ==> Energy(Closest(g, a, MaxLink), b, v) == 0.0
    ensures b != a && ExactHops(g, a, b, MaxLink) ==> Energy(Closest(g, a, MaxLink), b, v) == v / 2.0
  {
    var r := Closest(g, a, MaxLink);
    if b != a && b in Ball(g, a, MaxLink - 1) {
      BallMono(g, a, MaxLink - 1, MaxLink);
      assert r[b] == Level(g, a, b, MaxLink - 1);
    }
    if b != a && ExactHops(g, a, b, MaxLink) {
      ExactHopsUnique(g, a, b, r[b], MaxLink);
    }
  }

  /** With symmetric bonds the screening factor of b around a is the one of a
      around b, so energy(j, i) and energy(i, j) are screened alike. */
  lemma MultiplierSymmetric(g: Adjacency, a: nat, b: nat)
    requires Symmetric(g)
    ensures Multiplier(Closest(g, a, MaxLink), b) == Multiplier(Closest(g, b, MaxLink), a)
  {
    ClosestSymmetric(g, a, b, MaxLink);
  }
}
