/** Reachability in finite graphs given by successor lists. */
module Graphs {

  type Graph<T> = map<T, seq<T>>

  predicate Edge<T(==)>(g: Graph<T>, a: T, b: T) {
    a in g && b in g[a]
  }

  ghost predicate IsPath<T>(g: Graph<T>, p: seq<T>) {
    |p| > 0 && forall i | 0 <= i < |p| - 1 :: Edge(g, p[i], p[i + 1])
  }

  ghost predicate Reaches<T(!new)>(g: Graph<T>, a: T, b: T) {
    exists p :: IsPath(g, p) && p[0] == a && p[|p| - 1] == b
  }

  /** Some path of at least one edge leads from `a` back to `a`. */
  ghost predicate OnCycle<T(!new)>(g: Graph<T>, a: T) {
    exists b :: Edge(g, a, b) && Reaches(g, b, a)
  }

  ghost predicate MutuallyReachable<T(!new)>(g: Graph<T>, a: T, b: T) {
    Reaches(g, a, b) && Reaches(g, b, a)
  }

  /** Closed under successors. */
  ghost predicate Closed<T(!new)>(g: Graph<T>, s: set<T>) {
    forall a, b | a in s && Edge(g, a, b) :: b in s
  }

  /** Closed under predecessors. */
  ghost predicate BackwardClosed<T(!new)>(g: Graph<T>, s: set<T>) {
    forall a, b | b in s && Edge(g, a, b) :: a in s
  }

  lemma ReachesSelf<T(!new)>(g: Graph<T>, a: T)
    ensures Reaches(g, a, a)
  {
    assert IsPath(g, [a]);
  }

  lemma ReachesEdge<T(!new)>(g: Graph<T>, a: T, b: T)
    requires Edge(g, a, b)
    ensures Reaches(g, a, b)
  {
    assert IsPath(g, [a, b]);
  }

  lemma ReachesTransitive<T(!new)>(g: Graph<T>, a: T, b: T, c: T)
    requires Reaches(g, a, b) && Reaches(g, b, c)
    ensures Reaches(g, a, c)
  {
    var p :| IsPath(g, p) && p[0] == a && p[|p| - 1] == b;
    var q :| IsPath(g, q) && q[0] == b && q[|q| - 1] == c;
    var r := p + q[1..];
    forall i | 0 <= i < |r| - 1 ensures Edge(g, r[i], r[i + 1]) {
      if i >= |p| {
        assert r[i] == q[i - |p| + 1] && r[i + 1] == q[i - |p| + 2];
      } else if i == |p| - 1 {
        assert r[i] == q[0] && r[i + 1] == q[1];
      }
    }
    assert r[|r| - 1] == c;
    assert IsPath(g, r);
  }

  lemma ClosedContainsReachable<T(!new)>(g: Graph<T>, s: set<T>, a: T, b: T)
    requires Closed(g, s) && a in s && Reaches(g, a, b)
    ensures b in s
  {
    var p :| IsPath(g, p) && p[0] == a && p[|p| - 1] == b;
    for i := 0 to |p| - 1
      invariant p[i] in s
    {
      assert Edge(g, p[i], p[i + 1]);
    }
  }

  lemma BackwardClosedContains<T(!new)>(g: Graph<T>, s: set<T>, a: T, b: T)
    requires BackwardClosed(g, s) && b in s && Reaches(g, a, b)
    ensures a in s
  {
    var p :| IsPath(g, p) && p[0] == a && p[|p| - 1] == b;
    var i := |p| - 1;
    while i > 0
      invariant 0 <= i < |p| && p[i] in s
    {
      assert Edge(g, p[i - 1], p[i]);
      i := i - 1;
    }
  }

  /** Every node of a path lies between its ends. */
  lemma PathBetween<T(!new)>(g: Graph<T>, p: seq<T>, i: nat)
    requires IsPath(g, p) && i < |p|
    ensures Reaches(g, p[0], p[i]) && Reaches(g, p[i], p[|p| - 1])
  {
    var front, back := p[..i + 1], p[i..];
    assert IsPath(g, front) && front[|front| - 1] == p[i];
    forall j | 0 <= j < |back| - 1 ensures Edge(g, back[j], back[j + 1]) {
      assert Edge(g, p[i + j], p[i + j + 1]);
    }
    assert IsPath(g, back) && back[|back| - 1] == p[|p| - 1];
  }

  /** Reachability carries over to a graph that keeps the edges between mutually reachable nodes. */
  lemma ClassReach<T(!new)>(g: Graph<T>, h: Graph<T>, a: T, b: T)
    requires MutuallyReachable(g, a, b)
    requires forall x, y | Edge(g, x, y) && MutuallyReachable(g, a, x) && MutuallyReachable(g, a, y) :: Edge(h, x, y)
    ensures Reaches(h, a, b)
  {
    var p :| IsPath(g, p) && p[0] == a && p[|p| - 1] == b;
    forall i | 0 <= i < |p| - 1 ensures Edge(h, p[i], p[i + 1]) {
      PathBetween(g, p, i);
      PathBetween(g, p, i + 1);
      ReachesTransitive(g, p[i], b, a);
      ReachesTransitive(g, p[i + 1], b, a);
      assert Edge(g, p[i], p[i + 1]);
    }
    assert IsPath(h, p);
  }

  /** Reachability along reversed edges is reversed reachability. */
  lemma {:induction false} ReverseReach<T(!new)>(g: Graph<T>, r: Graph<T>, a: T, b: T)
    requires forall x, y | Edge(r, y, x) :: Edge(g, x, y)
    requires Reaches(r, b, a)
    ensures Reaches(g, a, b)
  {
    var p :| IsPath(r, p) && p[0] == b && p[|p| - 1] == a;
    var q := seq(|p|, i requires 0 <= i < |p| => p[|p| - 1 - i]);
    forall i | 0 <= i < |q| - 1 ensures Edge(g, q[i], q[i + 1]) {
      assert Edge(r, p[|p| - 2 - i], p[|p| - 1 - i]);
    }
    assert IsPath(g, q);
  }

  /** All nodes a graph mentions. */
  ghost function Vertices<T(!new)>(g: Graph<T>): set<T> {
    g.Keys + set a, b | a in g && b in g[a] :: b
  }

  /** A worklist that may carry duplicates visits exactly the reachable nodes. */
  method Worklist<T(==,!new)>(g: Graph<T>, root: T) returns (reached: set<T>)
    ensures forall x :: x in reached <==> Reaches(g, root, x)
  {
    reached := {};
    var pending := [root];
    ReachesSelf(g, root);
    ghost var all := Vertices(g) + {root};
    while pending != []
      invariant reached <= all
      invariant forall x | x in pending :: x in all && Reaches(g, root, x)
      invariant forall x | x in reached :: Reaches(g, root, x)
      invariant forall x, y | x in reached && Edge(g, x, y) :: y in reached || y in pending
      invariant root in reached || pending == [root]
      decreases all - reached, |pending|
    {
      var name := pending[|pending| - 1];
      ghost var before := pending;
      assert name in before;
      pending := pending[..|pending| - 1];
      assert forall x | x in before :: x in pending || x == name;
      assert forall x | x in pending :: x in before;
      if name !in reached {
        reached := reached + {name};
        var more := if name in g then g[name] else [];
        forall y | y in more ensures y in all && Reaches(g, root, y) {
          assert Edge(g, name, y);
          ReachesEdge(g, name, y);
          ReachesTransitive(g, root, name, y);
        }
        pending := pending + more;
      }
    }
    assert Closed(g, reached);
    forall x | Reaches(g, root, x) ensures x in reached {
      ClosedContainsReachable(g, reached, root, x);
    }
  }
}
