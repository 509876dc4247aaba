/** Strongly connected components in canonical dependency-first order.

    An edge leads from a consumer to its dependency.  The second pass floods the reversed graph in
    decreasing finish order; the condensation is then emitted smallest ready component first. */
module Components {
  import opened Counting
  import opened Graphs
  import opened FinishOrder

  type Component = seq<nat>

  ghost function Members(comps: seq<Component>): set<nat> {
    set k, x | 0 <= k < |comps| && x in comps[k] :: x
  }

  ghost predicate Disjoint(comps: seq<Component>) {
    forall i, j, x | 0 <= i < |comps| && 0 <= j < |comps| && x in comps[i] && x in comps[j] :: i == j
  }

  /** Each component is one class of mutually reachable nodes. */
  ghost predicate Classes(g: Graph<nat>, comps: seq<Component>) {
    forall k, x, y | 0 <= k < |comps| && x in comps[k] :: y in comps[k] <==> MutuallyReachable(g, x, y)
  }

  /** Non-empty sorted components that cover the graph and are its classes. */
  ghost predicate Partition(g: Graph<nat>, comps: seq<Component>) {
    && (forall k | 0 <= k < |comps| :: comps[k] != [] && Ascending(comps[k]))
    && Disjoint(comps) && Classes(g, comps) && Members(comps) == Vertices(g)
  }

  /** Dependencies come no later than their consumers. */
  ghost predicate DependencyFirst(g: Graph<nat>, comps: seq<Component>) {
    forall i, j, u, v | 0 <= i < |comps| && 0 <= j < |comps| && u in comps[i] && v in comps[j] && Edge(g, u, v) :: j <= i
  }

  /** Everything `c` depends on outside itself is among `done`. */
  ghost predicate ReadyAfter(g: Graph<nat>, c: Component, done: set<nat>) {
    forall u, v | u in c && Edge(g, u, v) :: v in c || v in done
  }

  /** Each component was the one with the least first member among those ready at its turn. */
  ghost predicate LeastReadyFirst(g: Graph<nat>, comps: seq<Component>) {
    forall i, j | 0 <= i < j < |comps| && comps[i] != [] && comps[j] != [] && ReadyAfter(g, comps[j], Members(comps[..i])) ::
      comps[i][0] <= comps[j][0]
  }

  ghost predicate Canonical(g: Graph<nat>, comps: seq<Component>) {
    Partition(g, comps) && DependencyFirst(g, comps) && LeastReadyFirst(g, comps)
  }

  // ------------------------------------------------------------------ uniqueness

  lemma HeadIn(s: seq<nat>)
    requires s != []
    ensures s[0] in s
  {
  }

  lemma {:induction false} AscendingUnique(s: seq<nat>, t: seq<nat>)
    requires Ascending(s) && Ascending(t) && forall x :: x in s <==> x in t
    ensures s == t
  {
    if s == [] {
      if t != [] {
        HeadIn(t);
        assert false;
      }
    } else {
      assert s[0] in t;
      assert t[0] in t;
      assert s[0] == t[0];
      forall x ensures x in s[1..] <==> x in t[1..] {
        if x in s[1..] {
          assert x in s && x != s[0];
        }
        if x in t[1..] {
          assert x in t && x != t[0];
        }
      }
      AscendingUnique(s[1..], t[1..]);
      assert s == [s[0]] + s[1..] && t == [t[0]] + t[1..];
    }
  }

  lemma MemberOf(comps: seq<Component>, x: nat) returns (k: nat)
    requires x in Members(comps)
    ensures k < |comps| && x in comps[k]
  {
    k :| 0 <= k < |comps| && x in comps[k];
  }

  lemma ClassesAgree(g: Graph<nat>, a: seq<Component>, b: seq<Component>, i: nat, j: nat, x: nat)
    requires Partition(g, a) && Partition(g, b) && i < |a| && j < |b| && x in a[i] && x in b[j]
    ensures a[i] == b[j]
  {
    forall y ensures y in a[i] <==> y in b[j] {
      assert y in a[i] <==> MutuallyReachable(g, x, y);
    }
    AscendingUnique(a[i], b[j]);
  }

  lemma ReadyAtTurn(g: Graph<nat>, comps: seq<Component>, i: nat)
    requires Partition(g, comps) && DependencyFirst(g, comps) && i < |comps|
    ensures ReadyAfter(g, comps[i], Members(comps[..i]))
  {
    forall u, v | u in comps[i] && Edge(g, u, v) ensures v in comps[i] || v in Members(comps[..i]) {
      assert v in Vertices(g);
      var k := MemberOf(comps, v);
      if k != i {
        assert comps[..i][k] == comps[k];
      }
    }
  }

  /** The component that follows a common prefix in one canonical listing bounds the one that
      follows it in another. */
  lemma NextBounds(g: Graph<nat>, a: seq<Component>, b: seq<Component>, i: nat)
    requires Canonical(g, a) && Canonical(g, b) && i < |a| && i < |b| && a[..i] == b[..i]
    ensures b[i][0] <= a[i][0]
  {
    var x := a[i][0];
    assert x in a[i] && x in Members(a);
    var j := MemberOf(b, x);
    ClassesAgree(g, a, b, i, j, x);
    assert forall k | 0 <= k < i :: a[k] == a[..i][k] == b[..i][k] == b[k];
    assert j >= i;
    ReadyAtTurn(g, a, i);
  }

  /** There is exactly one canonical listing. */
  lemma {:induction false} CanonicalPrefix(g: Graph<nat>, a: seq<Component>, b: seq<Component>, i: nat)
    requires Canonical(g, a) && Canonical(g, b) && i <= |a| && i <= |b|
    ensures a[..i] == b[..i]
  {
    if i > 0 {
      CanonicalPrefix(g, a, b, i - 1);
      NextBounds(g, a, b, i - 1);
      NextBounds(g, b, a, i - 1);
      ClassesAgree(g, a, b, i - 1, i - 1, a[i - 1][0]);
      assert a[..i] == a[..i - 1] + [a[i - 1]] && b[..i] == b[..i - 1] + [b[i - 1]];
    }
  }

  lemma CanonicalUnique(g: Graph<nat>, a: seq<Component>, b: seq<Component>)
    requires Canonical(g, a) && Canonical(g, b)
    ensures a == b
  {
    if |a| <= |b| {
      NoLeftover(g, a, b);
    } else {
      NoLeftover(g, b, a);
    }
  }

  lemma NoLeftover(g: Graph<nat>, a: seq<Component>, b: seq<Component>)
    requires Canonical(g, a) && Canonical(g, b) && |a| <= |b|
    ensures a == b
  {
    CanonicalPrefix(g, a, b, |a|);
    assert forall k | 0 <= k < |a| :: b[k] == b[..|a|][k] == a[..|a|][k] == a[k];
    if |a| < |b| {
      var x := b[|a|][0];
      HeadIn(b[|a|]);
      assert x in Members(b);
      var k := MemberOf(a, x);
    }
    assert a[..|a|] == a && b[..|a|] == b;
  }

  // ------------------------------------------------------------------ second pass

  /** The reversed graph. */
  method Reverse(g: Graph<nat>, starts: seq<nat>) returns (r: Graph<nat>)
    requires forall n :: n in starts <==> n in g
    ensures forall a, b :: Edge(r, b, a) <==> Edge(g, a, b)
  {
    r := map[];
    for s := 0 to |starts|
      invariant forall a, b :: Edge(r, b, a) <==> (a in starts[..s] && Edge(g, a, b))
    {
      var a := starts[s];
      assert starts[..s + 1] == starts[..s] + [a];
      for t := 0 to |g[a]|
        invariant forall x, b :: Edge(r, b, x) <==> ((x in starts[..s] && Edge(g, x, b)) || (x == a && b in g[a][..t]))
      {
        var b := g[a][t];
        assert g[a][..t + 1] == g[a][..t] + [b];
        ghost var before := r;
        r := r[b := (if b in r then r[b] else []) + [a]];
        assert forall x, y :: Edge(r, y, x) <==> Edge(before, y, x) || (y == b && x == a);
      }
      assert g[a][..|g[a]|] == g[a];
    }
    assert starts[..|starts|] == starts;
  }

  /** The latest unflooded node was open when `d` finished if it was open, or is the node itself,
      for a successor `c` of `d`. */
  lemma OpenAtPredecessor(g: Graph<nat>, order: seq<nat>, open: map<nat, set<nat>>, i: nat, c: nat, d: nat)
    requires Finished(g, order, open) && i < |order|
    requires c in order[..i + 1] && (c == order[i] || order[i] in open[c])
    requires Edge(g, d, c) && d in order[..i]
    ensures order[i] in open[d]
  {
    var root := order[i];
    var k :| 0 <= k < i && order[k] == d;
    assert c in order[..k + 1] || c in open[d];
    if c == root {
      assert c !in order[..k + 1];
    } else if c in order[..k + 1] {
      var m :| 0 <= m <= k && order[m] == c;
      assert root in order[..k + 1] || root in open[order[k]];
    } else {
      assert c in order;
    }
  }

  method PushUnseen(stack0: seq<nat>, dependents: seq<nat>, seen: set<nat>) returns (stack: seq<nat>)
    ensures forall x | x in stack0 :: x in stack
    ensures forall x | x in stack :: x in stack0 || (x in dependents && x !in seen)
    ensures forall x | x in dependents :: x in seen || x in stack
  {
    stack := stack0;
    var k := |dependents|;
    while k > 0
      invariant 0 <= k <= |dependents|
      invariant forall x | x in stack0 :: x in stack
      invariant forall x | x in stack :: x in stack0 || (x in dependents && x !in seen)
      invariant forall m | k <= m < |dependents| :: dependents[m] in seen || dependents[m] in stack
    {
      k := k - 1;
      if dependents[k] !in seen {
        stack := stack + [dependents[k]];
      }
    }
  }

  /** One flood: the whole class of the latest finished unseen node. */
  method Flood(g: Graph<nat>, reverse: Graph<nat>, order: seq<nat>, i: nat, seen0: set<nat>, ghost open: map<nat, set<nat>>)
      returns (component: seq<nat>, seen: set<nat>)
    requires Finished(g, order, open) && i < |order| && order[i] !in seen0
    requires forall n :: n in order <==> n in Vertices(g)
    requires forall a, b :: Edge(reverse, b, a) <==> Edge(g, a, b)
    requires BackwardClosed(g, seen0) && forall k | i < k < |order| :: order[k] in seen0
    requires seen0 <= Vertices(g)
    ensures Distinct(component) && BackwardClosed(g, seen) && seen <= Vertices(g)
    ensures forall x :: x in seen <==> x in seen0 || x in component
    ensures forall x | x in component :: x !in seen0
    ensures forall x :: x in component <==> MutuallyReachable(g, order[i], x)
  {
    hide Finished, Attached;
    component, seen := [], seen0;
    var root := order[i];
    var stack := [root];
    RootAttached(g, order, open, i);
    while stack != []
      invariant Distinct(component) && seen <= Vertices(g)
      invariant forall x :: x in seen <==> x in seen0 || x in component
      invariant forall x | x in component :: x !in seen0 && Attached(g, order, open, i, x)
      invariant forall x | x in stack :: x in seen || (x in Vertices(g) && Attached(g, order, open, i, x))
      invariant forall x, d | x in component && Edge(g, d, x) :: d in seen || d in stack
      invariant root in component || stack == [root]
      decreases Vertices(g) - seen, |stack|
    {
      var candidate := stack[|stack| - 1];
      assert stack[|stack| - 1] in stack;
      ghost var stack0 := stack;
      stack := stack[..|stack| - 1];
      assert forall x | x in stack0 :: x in stack || x == candidate;
      assert forall x | x in stack :: x in stack0;
      if candidate !in seen {
        seen := seen + {candidate};
        component := component + [candidate];
        var dependents := if candidate in reverse then reverse[candidate] else [];
        ghost var before := stack;
        stack := PushUnseen(stack, dependents, seen);
        forall x | x in stack ensures x in seen || (x in Vertices(g) && Attached(g, order, open, i, x)) {
          if x !in before && x !in seen {
            assert Edge(reverse, candidate, x);
            AttachPredecessor(g, order, open, i, candidate, x, seen0);
          }
        }
        forall x, d | x in component && Edge(g, d, x) ensures d in seen || d in stack {
          if x == candidate {
            assert Edge(reverse, candidate, d);
          }
        }
      }
    }
    FloodIsClass(g, order, open, i, seen0, component, seen);
  }

  /** `x` finished no later than the root, leads to it, and the root leads back. */
  ghost predicate Attached(g: Graph<nat>, order: seq<nat>, open: map<nat, set<nat>>, i: nat, x: nat)
    requires i < |order|
  {
    && x in order[..i + 1] && x in Vertices(g) && Reaches(g, x, order[i])
    && (x == order[i] || (x in open && order[i] in open[x]))
  }

  lemma RootAttached(g: Graph<nat>, order: seq<nat>, open: map<nat, set<nat>>, i: nat)
    requires i < |order| && order[i] in Vertices(g)
    ensures Attached(g, order, open, i, order[i])
  {
    ReachesSelf(g, order[i]);
    assert order[..i + 1][i] == order[i];
  }

  lemma AttachPredecessor(g: Graph<nat>, order: seq<nat>, open: map<nat, set<nat>>, i: nat, c: nat, d: nat, seen0: set<nat>)
    requires Finished(g, order, open) && i < |order| && Attached(g, order, open, i, c)
    requires forall n :: n in order <==> n in Vertices(g)
    requires Edge(g, d, c) && d !in seen0 && forall k | i < k < |order| :: order[k] in seen0
    ensures Attached(g, order, open, i, d) && d in Vertices(g)
  {
    assert d in Vertices(g);
    var k :| 0 <= k < |order| && order[k] == d;
    assert k <= i;
    assert order[..i + 1][k] == d;
    if k < i {
      assert order[..i][k] == d;
      OpenAtPredecessor(g, order, open, i, c, d);
    }
    assert Reaches(g, d, order[i]) by {
      ReachesEdge(g, d, c);
      ReachesTransitive(g, d, c, order[i]);
    }
  }

  lemma FloodIsClass(g: Graph<nat>, order: seq<nat>, open: map<nat, set<nat>>, i: nat, seen0: set<nat>, component: seq<nat>, seen: set<nat>)
    requires Finished(g, order, open) && i < |order|
    requires BackwardClosed(g, seen0) && order[i] in component
    requires forall x :: x in seen <==> x in seen0 || x in component
    requires forall x | x in component :: x !in seen0 && Attached(g, order, open, i, x)
    requires forall x, d | x in component && Edge(g, d, x) :: d in seen
    ensures BackwardClosed(g, seen)
    ensures forall x :: x in component <==> MutuallyReachable(g, order[i], x)
  {
    var root := order[i];
    forall x | x in component ensures MutuallyReachable(g, root, x) {
      if x == root {
        ReachesSelf(g, root);
      }
    }
    forall x | MutuallyReachable(g, root, x) ensures x in component {
      BackwardClosedContains(g, seen, x, root);
      if x in seen0 {
        BackwardClosedContains(g, seen0, root, x);
      }
    }
  }
}
