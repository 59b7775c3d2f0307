/** The bond graph: atoms are the indices 0..|g|-1 and g[a] lists the atoms
    bonded to atom a (in insertion order, repeats allowed). Hop distance is
    defined through balls: Ball(g, c, k) holds the atoms at most k bonds
    away from c, and walks give the same notion path by path. */
module Graph {

  type Adjacency = seq<seq<nat>>

  /** Every bonded atom is itself an atom of the graph. */
  predicate ValidGraph(g: Adjacency) {
    forall a, i :: 0 <= a < |g| && 0 <= i < |g[a]| ==> g[a][i] < |g|
  }

  /** Bonds go both ways: if b is bonded to a, then a is bonded to b. */
  predicate Symmetric(g: Adjacency) {
    forall a, i :: 0 <= a < |g| && 0 <= i < |g[a]| ==> g[a][i] < |g| && a in g[g[a][i]]
  }

  /** The atoms one bond away from some atom of s. */
  function Neighbours(g: Adjacency, s: set<nat>): set<nat> {
    NeighboursBelow(g, s, |g|)
  }

  /** The atoms bonded to some atom of s that is below n. */
  function NeighboursBelow(g: Adjacency, s: set<nat>, n: nat): set<nat>
    requires n <= |g|
  {
    if n == 0 then {}
    else NeighboursBelow(g, s, n - 1) + (if n - 1 in s then Elements(g[n - 1]) else {})
  }

  /** No atom occurs twice in p. */
  predicate Distinct(p: seq<nat>) {
    forall i, j :: 0 <= i < j < |p| ==> p[i] != p[j]
  }

  lemma DistinctAppend(p: seq<nat>, a: nat)
    requires Distinct(p) && a !in p
    ensures Distinct(p + [a])
  {
    var p' := p + [a];
    forall i, j | 0 <= i < j < |p'| ensures p'[i] != p'[j] {
      assert p'[i] == p[i];
    }
  }

  /** The atoms listed in l. */
  function Elements(l: seq<nat>): (r: set<nat>)
    ensures forall v :: v in r <==> v in l
  {
    if l == [] then {}
    else
      assert l == [l[0]] + l[1..];
      {l[0]} + Elements(l[1..])
  }

  /** The atoms 0..n-1. */
  function Atoms(n: nat): (r: set<nat>)
    ensures forall x: nat :: x in r <==> x < n
  {
    if n == 0 then {} else Atoms(n - 1) + {n - 1}
  }

  /** The atoms at most k bonds away from c. */
  function Ball(g: Adjacency, c: nat, k: nat): set<nat> {
    if k == 0 then {c}
    else
      var inner := Ball(g, c, k - 1);
      inner + Neighbours(g, inner)
  }

  /** t is exactly k bonds away from c: within k bonds, and not within k - 1. */
  ghost predicate ExactHops(g: Adjacency, c: nat, t: nat, k: nat) {
    t in Ball(g, c, k) && (k == 0 || t !in Ball(g, c, k - 1))
  }

  /** The least number of bonds j <= k with t in Ball(g, c, j), when t is in Ball(g, c, k). */
  function Level(g: Adjacency, c: nat, t: nat, k: nat): (j: nat)
    ensures j <= k
    ensures t in Ball(g, c, k) ==> ExactHops(g, c, t, j)
  {
    if k == 0 then 0
    else if t in Ball(g, c, k - 1) then Level(g, c, t, k - 1)
    else k
  }

  /** s is closed under bonds: it holds every neighbour of each of its atoms. */
  ghost predicate Closed(g: Adjacency, s: set<nat>) {
    forall u, v :: u in s && u < |g| && v in g[u] ==> v in s
  }

  /** All of u's neighbours are in s. */
  ghost predicate Expanded(g: Adjacency, s: set<nat>, u: nat) {
    u < |g| && forall v :: v in g[u] ==> v in s
  }

  /** t can be reached from c by following bonds. */
  ghost predicate Reachable(g: Adjacency, c: nat, t: nat) {
    exists k: nat :: t in Ball(g, c, k)
  }

  /** p is a walk in g: each atom but the last is an atom of g bonded to the next. */
  ghost predicate IsWalk(g: Adjacency, p: seq<nat>) {
    |p| >= 1 && forall i :: 0 <= i < |p| - 1 ==> p[i] < |g| && p[i + 1] in g[p[i]]
  }

  /** p is a walk from c to t; it has |p| - 1 bonds. */
  ghost predicate WalkBetween(g: Adjacency, p: seq<nat>, c: nat, t: nat) {
    IsWalk(g, p) && p[0] == c && p[|p| - 1] == t
  }

  lemma {:induction false} BallMono(g: Adjacency, c: nat, j: nat, k: nat)
    requires j <= k
    ensures Ball(g, c, j) <= Ball(g, c, k)
    decreases k
  {
    if j < k {
      BallMono(g, c, j, k - 1);
    }
  }

  lemma {:induction false} NeighboursBelowIff(g: Adjacency, s: set<nat>, n: nat, v: nat)
    requires n <= |g|
    ensures v in NeighboursBelow(g, s, n) <==> exists u :: u in s && u < n && v in g[u]
    decreases n
  {
    if n > 0 {
      NeighboursBelowIff(g, s, n - 1, v);
      if v in NeighboursBelow(g, s, n) && v !in NeighboursBelow(g, s, n - 1) {
        assert n - 1 in s && v in g[n - 1];
      }
    }
  }

  lemma NeighbourInBall(g: Adjacency, c: nat, k: nat, u: nat, v: nat)
    requires u in Ball(g, c, k) && u < |g| && v in g[u]
    ensures v in Ball(g, c, k + 1)
  {
    NeighboursBelowIff(g, Ball(g, c, k), |g|, v);
  }

  lemma NeighbourWitness(g: Adjacency, s: set<nat>, v: nat)
    requires v in Neighbours(g, s)
    ensures exists u :: u in s && u < |g| && v in g[u]
  {
    NeighboursBelowIff(g, s, |g|, v);
  }

  /** The hop count of an atom is unique. */
  lemma ExactHopsUnique(g: Adjacency, c: nat, t: nat, j: nat, k: nat)
    requires ExactHops(g, c, t, j) && ExactHops(g, c, t, k)
    ensures j == k
  {
    if j < k {
      BallMono(g, c, j, k - 1);
    } else if k < j {
      BallMono(g, c, k, j - 1);
    }
  }

  /** A set that holds c and is closed under bonds holds every ball around c. */
  lemma {:induction false} ClosedHoldsBall(g: Adjacency, s: set<nat>, c: nat, k: nat)
    requires c in s && Closed(g, s)
    ensures Ball(g, c, k) <= s
    decreases k
  {
    if k > 0 {
      ClosedHoldsBall(g, s, c, k - 1);
      forall v | v in Neighbours(g, Ball(g, c, k - 1)) ensures v in s {
        NeighbourWitness(g, Ball(g, c, k - 1), v);
      }
    }
  }

  /** Every atom of a ball is the end of a walk from its centre with at most k bonds. */
  lemma {:induction false} BallHasWalk(g: Adjacency, c: nat, k: nat, t: nat)
    requires t in Ball(g, c, k)
    ensures exists p :: WalkBetween(g, p, c, t) && |p| <= k + 1
    decreases k
  {
    if k == 0 {
      assert WalkBetween(g, [c], c, t);
    } else if t in Ball(g, c, k - 1) {
      BallHasWalk(g, c, k - 1, t);
    } else {
      NeighbourWitness(g, Ball(g, c, k - 1), t);
      var u :| u in Ball(g, c, k - 1) && u < |g| && t in g[u];
      BallHasWalk(g, c, k - 1, u);
      var p :| WalkBetween(g, p, c, u) && |p| <= k;
      var p' := p + [t];
      forall i | 0 <= i < |p'| - 1 ensures p'[i] < |g| && p'[i + 1] in g[p'[i]] {
        if i < |p| - 1 {
          assert p'[i] == p[i] && p'[i + 1] == p[i + 1];
        }
      }
      assert WalkBetween(g, p', c, t);
    }
  }

  /** The end of a walk with n bonds is within n bonds of its start. */
  lemma {:induction false} WalkInBall(g: Adjacency, p: seq<nat>, c: nat, t: nat)
    requires WalkBetween(g, p, c, t)
    ensures t in Ball(g, c, |p| - 1)
    decreases |p|
  {
    if |p| > 1 {
      var q := p[..|p| - 1];
      forall i | 0 <= i < |q| - 1 ensures q[i] < |g| && q[i + 1] in g[q[i]] {
        assert q[i] == p[i] && q[i + 1] == p[i + 1];
      }
      WalkInBall(g, q, c, q[|q| - 1]);
      NeighbourInBall(g, c, |q| - 1, q[|q| - 1], t);
    }
  }

  /** Within k bonds means the end of a walk of at most k bonds. */
  lemma BallIffWalk(g: Adjacency, c: nat, k: nat, t: nat)
    ensures t in Ball(g, c, k) <==> exists p :: WalkBetween(g, p, c, t) && |p| <= k + 1
  {
    if t in Ball(g, c, k) {
      BallHasWalk(g, c, k, t);
    }
    if p :| WalkBetween(g, p, c, t) && |p| <= k + 1 {
      WalkInBall(g, p, c, t);
      BallMono(g, c, |p| - 1, k);
    }
  }

  /** A ball around a neighbour u of t sits inside the ball one bond larger around t. */
  lemma {:induction false} BallShift(g: Adjacency, u: nat, t: nat, j: nat)
    requires t < |g| && u in g[t]
    ensures Ball(g, u, j) <= Ball(g, t, j + 1)
    decreases j
  {
    if j == 0 {
      NeighbourInBall(g, t, 0, t, u);
    } else {
      BallShift(g, u, t, j - 1);
      forall v | v in Ball(g, u, j) ensures v in Ball(g, t, j + 1) {
        if v !in Ball(g, u, j - 1) {
          NeighbourWitness(g, Ball(g, u, j - 1), v);
          var w :| w in Ball(g, u, j - 1) && w < |g| && v in g[w];
          NeighbourInBall(g, t, j, w, v);
        } else {
          BallMono(g, t, j, j + 1);
        }
      }
    }
  }

  /** In a symmetric graph, c is within k bonds of t whenever t is within k bonds of c. */
  lemma {:induction false} BallSymmetric(g: Adjacency, c: nat, t: nat, k: nat)
    requires Symmetric(g)
    requires t in Ball(g, c, k)
    ensures c in Ball(g, t, k)
    decreases k
  {
    if k > 0 {
      if t in Ball(g, c, k - 1) {
        BallSymmetric(g, c, t, k - 1);
        BallMono(g, t, k - 1, k);
      } else {
        NeighbourWitness(g, Ball(g, c, k - 1), t);
        var u :| u in Ball(g, c, k - 1) && u < |g| && t in g[u];
        BallSymmetric(g, c, u, k - 1);
        var i :| 0 <= i < |g[u]| && g[u][i] == t;
        BallShift(g, u, t, k - 1);
      }
    }
  }

  /** In a symmetric graph the hop count from c to t equals the hop count from t to c. */
  lemma {:induction false} LevelSymmetric(g: Adjacency, a: nat, b: nat, k: nat)
    requires Symmetric(g)
    ensures Level(g, a, b, k) == Level(g, b, a, k)
    decreases k
  {
    if k > 0 {
      var inA, inB := b in Ball(g, a, k - 1), a in Ball(g, b, k - 1);
      if inA {
        BallSymmetric(g, a, b, k - 1);
      }
      if inB {
        BallSymmetric(g, b, a, k - 1);
      }
      assert inA == inB;
      LevelSymmetric(g, a, b, k - 1);
    }
  }
}
