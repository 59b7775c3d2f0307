/** Energy.component: a traversal that pushes and pops at the back of a
    deque and collects every atom reachable from an initial atom. */
module Components {
  import opened Graph

  /** The traversal state: the collected atoms sit within k bonds of c, the
      stack holds collected atoms, and every collected atom off the stack
      other than next has all its neighbours collected. */
  ghost predicate Collected(g: Adjacency, c: nat, result: set<nat>, stack: seq<nat>, next: nat, k: nat) {
    && c in result
    && (forall t :: t in result ==> t < |g|)
    && result <= Ball(g, c, k)
    && (forall i :: 0 <= i < |stack| ==> stack[i] in result)
    && (forall t {:trigger Expanded(g, result, t)} :: t in result && t !in stack && t != next ==> Expanded(g, result, t))
  }

  /** Once the stack is empty, the collected atoms are exactly the atoms reachable from c. */
  lemma CollectedAll(g: Adjacency, c: nat, result: set<nat>, k: nat)
    requires c < |g| && Collected(g, c, result, [], c, k) && Expanded(g, result, c)
    ensures Closed(g, result)
    ensures forall t :: t in result <==> Reachable(g, c, t)
  {
    forall u, v | u in result && u < |g| && v in g[u] ensures v in result {
      assert Expanded(g, result, u);
    }
    forall t ensures t in result <==> Reachable(g, c, t) {
      if t in result {
        assert t in Ball(g, c, k);
      }
      if Reachable(g, c, t) {
        var j: nat :| t in Ball(g, c, j);
        ClosedHoldsBall(g, result, c, j);
      }
    }
  }

  /** Collecting a fresh neighbour a of next, one bond beyond the current ball. */
  lemma CollectStep(g: Adjacency, c: nat, result: set<nat>, stack: seq<nat>, next: nat, k: nat, a: nat)
    requires ValidGraph(g) && Collected(g, c, result, stack, next, k)
    requires next in result && a in g[next]
    ensures Collected(g, c, result + {a}, stack + [a], next, k + 1)
  {
    BallMono(g, c, k, k + 1);
    NeighbourInBall(g, c, k, next, a);
    var result', stack' := result + {a}, stack + [a];
    forall i | 0 <= i < |stack'| ensures stack'[i] in result' {
      if i < |stack| {
        assert stack'[i] == stack[i];
      }
    }
    forall t | t in result' && t !in stack' && t != next ensures Expanded(g, result', t) {
      assert Expanded(g, result, t);
    }
  }

  /** Taking next off the top of the stack. */
  lemma PopStep(g: Adjacency, c: nat, result: set<nat>, stack: seq<nat>, k: nat)
    requires Collected(g, c, result, stack, c, k) && (Expanded(g, result, c) || c in stack)
    requires stack != []
    ensures Collected(g, c, result, stack[..|stack| - 1], stack[|stack| - 1], k)
  {
    var next, rest := stack[|stack| - 1], stack[..|stack| - 1];
    forall i | 0 <= i < |rest| ensures rest[i] in result {
      assert rest[i] == stack[i];
    }
    forall t | t in result && t !in rest && t != next ensures Expanded(g, result, t) {
      forall i | 0 <= i < |stack| ensures stack[i] != t {
        if i < |rest| {
          assert stack[i] == rest[i];
        }
      }
    }
  }

  /** Energy.component, with pushed the order in which atoms went onto the
      stack: the result holds initial, is closed under bonds and holds
      exactly the atoms reachable from initial, and no atom is pushed twice. */
  method Component(g: Adjacency, initial: nat) returns (result: set<nat>, ghost pushed: seq<nat>)
    requires ValidGraph(g) && initial < |g|
    ensures initial in result
    ensures Closed(g, result)
    ensures forall t :: t in result <==> Reachable(g, initial, t)
    ensures Distinct(pushed) && forall t :: t in result <==> t in pushed
  {
    var stack: seq<nat> := [initial];
    result := {initial};
    pushed := [initial];
    ghost var k: nat := 0;
    ghost var atoms := Atoms(|g|);
    while stack != []
      invariant Collected(g, initial, result, stack, initial, k)
      invariant Expanded(g, result, initial) || initial in stack
      invariant Distinct(pushed) && forall t :: t in result <==> t in pushed
      invariant result <= atoms
      decreases atoms - result, |stack|
    {
      PopStep(g, initial, result, stack, k);
      var next := stack[|stack| - 1];
      stack := stack[..|stack| - 1];
      ghost var result0, stack0 := result, stack;
      for i := 0 to |g[next]|
        invariant Collected(g, initial, result, stack, next, k)
        invariant next in result && next < |g|
        invariant forall j :: 0 <= j < i ==> g[next][j] in result
        invariant Distinct(pushed) && forall t :: t in result <==> t in pushed
        invariant result <= atoms
        invariant (result == result0 && stack == stack0) || atoms - result < atoms - result0
      {
        var a := g[next][i];
        if a !in result {
          CollectStep(g, initial, result, stack, next, k, a);
          result := result + {a};
          stack := stack + [a];
          pushed := pushed + [a];
          k := k + 1;
        }
      }
      assert Expanded(g, result, next);
    }
    CollectedAll(g, initial, result, k);
  }
}
