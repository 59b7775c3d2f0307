/** The bond-distance classifier (Energy.findClosest): a breadth-first search
    that maps every atom within a bounded number of bonds of a centre atom to
    its hop count, the centre itself excluded. */
module Classifier {
  import opened Graph

  /** The classification map of c: every atom other than c within d bonds,
      mapped to its shortest hop count from c. */
  function Closest(g: Adjacency, c: nat, d: nat): (r: map<nat, nat>)
    ensures c !in r
    ensures forall t :: t in r ==> 1 <= r[t] <= d
  {
    map t | t in Ball(g, c, d) && t != c :: Level(g, c, t, d)
  }

  /** What the search has found so far: the centre at level 0, and every
      recorded atom at its exact hop count, no deeper than d. */
  ghost predicate Discovered(g: Adjacency, c: nat, d: nat, m: map<nat, nat>) {
    && c in m && m[c] == 0
    && (forall t :: t in m ==> t < |g| && m[t] <= d)
    && (forall t {:trigger ExactHops(g, c, t, m[t])} :: t in m ==> ExactHops(g, c, t, m[t]))
  }

  /** The FIFO queue holds recorded atoms whose levels never decrease and
      span at most two consecutive values. */
  ghost predicate QueueOrdered(m: map<nat, nat>, q: seq<nat>) {
    && (forall i :: 0 <= i < |q| ==> q[i] in m)
    && (forall i, j :: 0 <= i <= j < |q| ==> m[q[i]] <= m[q[j]] <= m[q[i]] + 1)
  }

  /** Every recorded atom that has left the queue has had its neighbours recorded. */
  ghost predicate DequeuedExpanded(g: Adjacency, m: map<nat, nat>, q: seq<nat>) {
    forall t {:trigger Expanded(g, m.Keys, t)} :: t in m && t !in q ==> Expanded(g, m.Keys, t)
  }

  ghost predicate SearchInv(g: Adjacency, c: nat, d: nat, m: map<nat, nat>, q: seq<nat>) {
    Discovered(g, c, d, m) && QueueOrdered(m, q) && DequeuedExpanded(g, m, q)
  }

  /** Every atom closer than the head of the queue (every atom at all, once
      the queue is empty) has been recorded. */
  lemma {:induction false} BallRecorded(g: Adjacency, c: nat, d: nat, m: map<nat, nat>, q: seq<nat>, k: nat)
    requires SearchInv(g, c, d, m, q)
    requires q == [] || k <= m[q[0]]
    ensures Ball(g, c, k) <= m.Keys
    decreases k
  {
    if k > 0 {
      BallRecorded(g, c, d, m, q, k - 1);
      forall v | v in Neighbours(g, Ball(g, c, k - 1)) ensures v in m {
        NeighbourWitness(g, Ball(g, c, k - 1), v);
        var u :| u in Ball(g, c, k - 1) && u < |g| && v in g[u];
        InnerAtomDequeued(g, c, d, m, q, k - 1, u);
      }
    }
  }

  /** An atom within k bonds, k below the level at the head of the queue,
      has left the queue already. */
  lemma InnerAtomDequeued(g: Adjacency, c: nat, d: nat, m: map<nat, nat>, q: seq<nat>, k: nat, u: nat)
    requires SearchInv(g, c, d, m, q)
    requires q == [] || k < m[q[0]]
    requires u in m && u in Ball(g, c, k)
    ensures Expanded(g, m.Keys, u)
  {
    assert ExactHops(g, c, u, m[u]);
    assert m[u] <= k by {
      if m[u] > k {
        BallMono(g, c, k, m[u] - 1);
      }
    }
    forall i | 0 <= i < |q| ensures q[i] != u {
      assert m[q[0]] <= m[q[i]];
    }
  }

  /** Once every atom within d bonds is recorded, the recorded map less the
      centre is the classification map. */
  lemma FinalMap(g: Adjacency, c: nat, d: nat, m: map<nat, nat>)
    requires Discovered(g, c, d, m)
    requires Ball(g, c, d) <= m.Keys
    ensures m - {c} == Closest(g, c, d)
  {
    var r, s := m - {c}, Closest(g, c, d);
    forall t | t in m ensures t in Ball(g, c, d) {
      assert ExactHops(g, c, t, m[t]);
      BallMono(g, c, m[t], d);
    }
    assert r.Keys == s.Keys;
    forall t | t in r ensures r[t] == s[t] {
      ExactHopsUnique(g, c, t, m[t], Level(g, c, t, d));
    }
  }

  /** The state while the neighbours of next are scanned, nextLevel being
      one more than the level of next: the first i neighbours are recorded,
      the queue holds levels nextLevel - 1 and nextLevel in order, and among
      dequeued atoms only next may be missing neighbours. */
  ghost predicate ScanInv(g: Adjacency, c: nat, d: nat, m: map<nat, nat>, q: seq<nat>, next: nat, nextLevel: nat, i: nat) {
    && Discovered(g, c, d, m)
    && next in m && m[next] + 1 == nextLevel && nextLevel <= d && next < |g| && i <= |g[next]|
    && (forall k :: 0 <= k < |q| ==> q[k] in m && nextLevel - 1 <= m[q[k]] <= nextLevel)
    && (forall k, l :: 0 <= k <= l < |q| ==> m[q[k]] <= m[q[l]])
    && (forall t {:trigger Expanded(g, m.Keys, t)} :: t in m && t !in q && t != next ==> Expanded(g, m.Keys, t))
    && (forall k :: 0 <= k < i ==> g[next][k] in m)
    && Ball(g, c, nextLevel - 1) <= m.Keys
  }

  lemma ScanStart(g: Adjacency, c: nat, d: nat, m: map<nat, nat>, q: seq<nat>)
    requires SearchInv(g, c, d, m, q) && q != []
    requires m[q[0]] + 1 <= d
    ensures ScanInv(g, c, d, m, q[1..], q[0], m[q[0]] + 1, 0)
  {
    BallRecorded(g, c, d, m, q, m[q[0]]);
    var q' := q[1..];
    forall k | 0 <= k < |q'| ensures q'[k] in m && m[q[0]] <= m[q'[k]] <= m[q[0]] + 1 {
      assert q'[k] == q[k + 1];
    }
    forall k, l | 0 <= k <= l < |q'| ensures m[q'[k]] <= m[q'[l]] {
      assert q'[k] == q[k + 1] && q'[l] == q[l + 1];
    }
    forall t | t in m && t !in q' && t != q[0] ensures Expanded(g, m.Keys, t) {
      forall k | 0 < k < |q| ensures q[k] != t {
        assert q[k] == q'[k - 1];
      }
    }
  }

  /** Recording a fresh neighbour a of next at nextLevel and enqueueing it. */
  lemma ScanRecord(g: Adjacency, c: nat, d: nat, m: map<nat, nat>, q: seq<nat>, next: nat, nextLevel: nat, i: nat)
    requires ValidGraph(g)
    requires ScanInv(g, c, d, m, q, next, nextLevel, i) && i < |g[next]|
    requires g[next][i] !in m
    ensures ScanInv(g, c, d, m[g[next][i] := nextLevel], q + [g[next][i]], next, nextLevel, i + 1)
  {
    var a := g[next][i];
    var m', q' := m[a := nextLevel], q + [a];
    assert ExactHops(g, c, next, m[next]);
    NeighbourInBall(g, c, nextLevel - 1, next, a);
    assert ExactHops(g, c, a, nextLevel);
    assert Discovered(g, c, d, m');
    forall k | 0 <= k < |q'| ensures q'[k] in m' && nextLevel - 1 <= m'[q'[k]] <= nextLevel {
      if k < |q| {
        assert q'[k] == q[k];
      }
    }
    forall k, l | 0 <= k <= l < |q'| ensures m'[q'[k]] <= m'[q'[l]] {
      if l < |q| {
        assert q'[k] == q[k] && q'[l] == q[l];
      } else if k < |q| {
        assert q'[k] == q[k];
      }
    }
    forall t | t in m' && t !in q' && t != next ensures Expanded(g, m'.Keys, t) {
      assert t in m && t !in q;
      assert Expanded(g, m.Keys, t);
    }
  }

  /** Appending a fresh atom to the log of enqueued atoms as it is recorded. */
  lemma LogRecord(enqueued: seq<nat>, m: map<nat, nat>, a: nat, l: nat)
    requires Distinct(enqueued) && (forall t :: t in enqueued <==> t in m) && a !in m
    ensures Distinct(enqueued + [a]) && forall t :: t in enqueued + [a] <==> t in m[a := l]
  {
    DistinctAppend(enqueued, a);
  }

  /** Passing over a neighbour of next that is recorded already. */
  lemma ScanSkip(g: Adjacency, c: nat, d: nat, m: map<nat, nat>, q: seq<nat>, next: nat, nextLevel: nat, i: nat)
    requires ScanInv(g, c, d, m, q, next, nextLevel, i) && i < |g[next]|
    requires g[next][i] in m
    ensures ScanInv(g, c, d, m, q, next, nextLevel, i + 1)
  {
  }

  lemma ScanEnd(g: Adjacency, c: nat, d: nat, m: map<nat, nat>, q: seq<nat>, next: nat, nextLevel: nat)
    requires next < |g| && ScanInv(g, c, d, m, q, next, nextLevel, |g[next]|)
    ensures SearchInv(g, c, d, m, q)
  {
    forall t | t in m && t !in q ensures Expanded(g, m.Keys, t) {
      if t == next {
        forall v | v in g[next] ensures v in m {
          var k :| 0 <= k < |g[next]| && g[next][k] == v;
        }
      }
    }
  }

  /** The search may stop at an atom whose next level exceeds d: every atom
      within d bonds is recorded by then. */
  lemma CutComplete(g: Adjacency, c: nat, d: nat, m: map<nat, nat>, q: seq<nat>)
    requires SearchInv(g, c, d, m, q) && q != []
    requires m[q[0]] + 1 > d
    ensures Ball(g, c, d) <= m.Keys
  {
    BallRecorded(g, c, d, m, q, d);
  }

  /** Energy.findClosest: breadth-first search from center, stopping at the
      first dequeued atom whose next level would exceed dist. */
  method FindClosest(g: Adjacency, center: nat, dist: nat) returns (result: map<nat, nat>, ghost enqueued: seq<nat>)
    requires ValidGraph(g) && center < |g|
    ensures result == Closest(g, center, dist)
    ensures Distinct(enqueued) && forall t :: t in enqueued <==> t in result || t == center
  {
    var m: map<nat, nat> := map[center := 0];
    var q: seq<nat> := [center];
    enqueued := [center];
    ghost var atoms := Atoms(|g|);
    ghost var cut := false;
    while q != []
      invariant SearchInv(g, center, dist, m, q)
      invariant Distinct(enqueued) && forall t :: t in enqueued <==> t in m
      invariant m.Keys <= atoms
      decreases atoms - m.Keys, |q|
    {
      ghost var queued := q;
      var next := q[0];
      q := q[1..];
      var nextLevel := m[next] + 1;
      if nextLevel > dist {
        CutComplete(g, center, dist, m, queued);
        cut := true;
        break;
      }
      ScanStart(g, center, dist, m, queued);
      ghost var m0, q0 := m, q;
      for i := 0 to |g[next]|
        invariant ScanInv(g, center, dist, m, q, next, nextLevel, i)
        invariant Distinct(enqueued) && forall t :: t in enqueued <==> t in m
        invariant m.Keys <= atoms
        invariant (m == m0 && q == q0) || atoms - m.Keys < atoms - m0.Keys
      {
        var a := g[next][i];
        if a !in m {
          ScanRecord(g, center, dist, m, q, next, nextLevel, i);
          LogRecord(enqueued, m, a, nextLevel);
          m := m[a := nextLevel];
          q := q + [a];
          enqueued := enqueued + [a];
        } else {
          ScanSkip(g, center, dist, m, q, next, nextLevel, i);
        }
      }
      ScanEnd(g, center, dist, m, q, next, nextLevel);
    }
    if !cut {
      BallRecorded(g, center, dist, m, q, dist);
    }
    result := m - {center};
    FinalMap(g, center, dist, m);
  }

  /** The recorded hop count is the length of a shortest walk: some walk from
      c to t has exactly that many bonds, and none has fewer. */
  lemma ClosestIsShortestPath(g: Adjacency, c: nat, d: nat, t: nat)
    requires t in Closest(g, c, d)
    ensures exists p :: WalkBetween(g, p, c, t) && |p| == Closest(g, c, d)[t] + 1
    ensures forall p :: WalkBetween(g, p, c, t) ==> |p| >= Closest(g, c, d)[t] + 1
  {
    var k := Closest(g, c, d)[t];
    assert ExactHops(g, c, t, k);
    forall p | WalkBetween(g, p, c, t) ensures |p| >= k + 1 {
      WalkInBall(g, p, c, t);
      if |p| < k + 1 {
        BallMono(g, c, |p| - 1, k - 1);
      }
    }
    BallHasWalk(g, c, k, t);
  }

  /** Every atom other than c at the end of a walk of at most d bonds is
      classified, at no more bonds than that walk has. */
  lemma ClosestComplete(g: Adjacency, c: nat, d: nat, t: nat, p: seq<nat>)
    requires WalkBetween(g, p, c, t) && |p| <= d + 1 && t != c
    ensures t in Closest(g, c, d) && Closest(g, c, d)[t] <= |p| - 1
  {
    WalkInBall(g, p, c, t);
    BallMono(g, c, |p| - 1, d);
    ClosestIsShortestPath(g, c, d, t);
  }

  /** An atom without bonds stays alone in every ball around it. */
  lemma {:induction false} IsolatedBall(g: Adjacency, c: nat, k: nat)
    requires c < |g| && g[c] == []
    ensures Ball(g, c, k) == {c}
    decreases k
  {
    if k > 0 {
      IsolatedBall(g, c, k - 1);
      if v :| v in Neighbours(g, {c}) {
        NeighbourWitness(g, {c}, v);
      }
    }
  }

  /** An atom without bonds classifies no atom at all. */
  lemma IsolatedAtom(g: Adjacency, c: nat, d: nat)
    requires c < |g| && g[c] == []
    ensures Closest(g, c, d) == map[]
  {
    IsolatedBall(g, c, d);
  }

  /** With symmetric bonds, b is classified around a exactly when a is
      classified around b, and at the same hop count. */
  lemma ClosestSymmetric(g: Adjacency, a: nat, b: nat, d: nat)
    requires Symmetric(g)
    ensures b in Closest(g, a, d) <==> a in Closest(g, b, d)
    ensures b in Closest(g, a, d) ==> Closest(g, a, d)[b] == Closest(g, b, d)[a]
  {
    if b in Ball(g, a, d) {
      BallSymmetric(g, a, b, d);
    }
    if a in Ball(g, b, d) {
      BallSymmetric(g, b, a, d);
    }
    LevelSymmetric(g, a, b, d);
  }
}
