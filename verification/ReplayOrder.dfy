/** The replay half of index admission, and the theorem that admission lets in exactly the canonical
    listing of the strongly connected components. */
module ReplayOrder {
  import opened Counting
  import opened Graphs
  import opened Components
  import opened ComponentOrder
  import opened ReplayIndex
  import opened ReplayAdmission

  // ------------------------------------------------------------------ strong connection

  /** From its first member, `h` leads to all of `c` and nowhere else. */
  ghost predicate Covers(h: Graph<nat>, c: Component)
    requires c != []
  {
    forall x :: Reaches(h, c[0], x) <==> x in c
  }

  ghost predicate Cohesive(comps: seq<Component>, forward: Graph<nat>, reverse: Graph<nat>) {
    forall k | 0 <= k < |comps| && |comps[k]| > 1 :: Covers(forward, comps[k]) && Covers(reverse, comps[k])
  }

  method CheckCohesion(comps: seq<Component>, forward: Graph<nat>, reverse: Graph<nat>) returns (ok: bool)
    ensures ok <==> Cohesive(comps, forward, reverse)
  {
    for k := 0 to |comps|
      invariant Cohesive(comps[..k], forward, reverse)
    {
      assert comps[..k + 1] == comps[..k] + [comps[k]];
      if |comps[k]| > 1 {
        var members := set x | x in comps[k];
        var down := Worklist(forward, comps[k][0]);
        var up := Worklist(reverse, comps[k][0]);
        assert down == members <==> Covers(forward, comps[k]);
        assert up == members <==> Covers(reverse, comps[k]);
        if down != members || up != members {
          return false;
        }
      }
    }
    assert comps[..|comps|] == comps;
    return true;
  }

  /** Every edge goes from a consumer to a dependency that is replayed no later. */
  lemma ReachesEarlier(g: Graph<nat>, rows: seq<Row>, at: map<nat, nat>, x: nat, y: nat)
    requires forall c, d :: Edge(g, c, d) <==> Row(d, c) in rows
    requires RowsForward(rows, at) && x in at && Reaches(g, x, y)
    ensures y in at && at[y] <= at[x]
  {
    var s := set z | z in at && at[z] <= at[x];
    forall a, b | a in s && Edge(g, a, b) ensures b in s {
      assert Row(b, a) in rows;
    }
    ClosedContainsReachable(g, s, x, y);
  }

  lemma SubgraphReach(g: Graph<nat>, h: Graph<nat>, a: nat, b: nat)
    requires (forall x, y | Edge(h, x, y) :: Edge(g, x, y)) && Reaches(h, a, b)
    ensures Reaches(g, a, b)
  {
    var p :| IsPath(h, p) && p[0] == a && p[|p| - 1] == b;
    assert IsPath(g, p);
  }

  ghost predicate Compiled(g: Graph<nat>, rows: seq<Row>, comps: seq<Component>, at: map<nat, nat>,
                           forward: Graph<nat>, reverse: Graph<nat>) {
    && (forall c, d :: Edge(g, c, d) <==> Row(d, c) in rows)
    && Disjoint(comps) && Table(comps, at) && RowsForward(rows, at)
    && Inner(rows, at, forward, false) && Inner(rows, at, reverse, true)
  }

  lemma SameComponent(comps: seq<Component>, at: map<nat, nat>, k: nat, x: nat)
    requires Disjoint(comps) && Table(comps, at) && k < |comps|
    ensures x in comps[k] <==> x in at && at[x] == k
  {
    if x in comps[k] {
      assert x in Members(comps);
    }
  }

  /** The two searches from the first member establish that a component is a class. */
  lemma CohesiveAreClasses(g: Graph<nat>, rows: seq<Row>, comps: seq<Component>, at: map<nat, nat>,
                           forward: Graph<nat>, reverse: Graph<nat>)
    requires Compiled(g, rows, comps, at, forward, reverse) && Cohesive(comps, forward, reverse)
    ensures Classes(g, comps)
  {
    hide Inner, RowsForward, Disjoint, Table, Covers, Cohesive;
    InnerIsSubgraph(g, rows, comps, at, forward, reverse);
    forall k, x, y | 0 <= k < |comps| && x in comps[k] ensures y in comps[k] <==> MutuallyReachable(g, x, y) {
      if y in comps[k] {
        CohesivePair(g, comps, forward, reverse, k, x, y);
        CohesivePair(g, comps, forward, reverse, k, y, x);
      }
      if MutuallyReachable(g, x, y) {
        SameComponent(comps, at, k, x);
        SameComponent(comps, at, k, y);
        ReachesEarlier(g, rows, at, x, y);
        ReachesEarlier(g, rows, at, y, x);
      }
    }
  }

  lemma InnerIsSubgraph(g: Graph<nat>, rows: seq<Row>, comps: seq<Component>, at: map<nat, nat>,
                        forward: Graph<nat>, reverse: Graph<nat>)
    requires Compiled(g, rows, comps, at, forward, reverse)
    ensures forall x, y | Edge(forward, x, y) :: Edge(g, x, y)
    ensures forall x, y | Edge(reverse, x, y) :: Edge(g, y, x)
    ensures forall x, y | Edge(forward, x, y) :: Edge(reverse, y, x)
  {
  }

  lemma CohesivePair(g: Graph<nat>, comps: seq<Component>, forward: Graph<nat>, reverse: Graph<nat>, k: nat, x: nat, y: nat)
    requires forall x, y | Edge(forward, x, y) :: Edge(g, x, y)
    requires forall x, y | Edge(reverse, x, y) :: Edge(g, y, x)
    requires Cohesive(comps, forward, reverse) && k < |comps| && x in comps[k] && y in comps[k]
    ensures Reaches(g, x, y)
  {
    if |comps[k]| == 1 {
      ReachesSelf(g, x);
    } else {
      var start := comps[k][0];
      assert Reaches(forward, start, y) && Reaches(reverse, start, x);
      SubgraphReach(g, forward, start, y);
      ReverseReach(g, reverse, x, start);
      ReachesTransitive(g, x, start, y);
    }
  }

  /** Conversely the searches succeed on every listing of classes. */
  lemma ClassesAreCohesive(g: Graph<nat>, rows: seq<Row>, comps: seq<Component>, at: map<nat, nat>,
                           forward: Graph<nat>, reverse: Graph<nat>)
    requires Compiled(g, rows, comps, at, forward, reverse) && Classes(g, comps)
    ensures Cohesive(comps, forward, reverse)
  {
    hide Inner, Disjoint, Table, Covers;
    forall k | 0 <= k < |comps| && |comps[k]| > 1 ensures Covers(forward, comps[k]) && Covers(reverse, comps[k]) {
      ClassIsCovered(g, rows, comps, at, forward, reverse, k);
    }
  }

  lemma ClassIsCovered(g: Graph<nat>, rows: seq<Row>, comps: seq<Component>, at: map<nat, nat>,
                       forward: Graph<nat>, reverse: Graph<nat>, k: nat)
    requires Compiled(g, rows, comps, at, forward, reverse) && Classes(g, comps)
    requires k < |comps| && comps[k] != []
    ensures Covers(forward, comps[k]) && Covers(reverse, comps[k])
  {
    hide Inner, Disjoint, Table, Classes, Reaches, Compiled;
    InnerIsSubgraph(g, rows, comps, at, forward, reverse);
    var start := comps[k][0];
    var members := set x | x in comps[k];
    InnerStays(g, rows, comps, at, forward, reverse, k);
    forall x ensures (Reaches(forward, start, x) <==> x in comps[k]) && (Reaches(reverse, start, x) <==> x in comps[k]) {
      if x in comps[k] {
        ClassPath(g, rows, comps, at, forward, reverse, k, start, x);
        ClassPath(g, rows, comps, at, forward, reverse, k, x, start);
        ReverseReach(reverse, forward, start, x);
      } else {
        if Reaches(forward, start, x) {
          ClosedContainsReachable(forward, members, start, x);
        }
        if Reaches(reverse, start, x) {
          ClosedContainsReachable(reverse, members, start, x);
        }
      }
    }
  }

  lemma InnerStays(g: Graph<nat>, rows: seq<Row>, comps: seq<Component>, at: map<nat, nat>,
                   forward: Graph<nat>, reverse: Graph<nat>, k: nat)
    requires Compiled(g, rows, comps, at, forward, reverse) && k < |comps|
    ensures Closed(forward, set x | x in comps[k]) && Closed(reverse, set x | x in comps[k])
  {
    hide Disjoint, Table, RowsForward;
    forall a, b | a in comps[k] && (Edge(forward, a, b) || Edge(reverse, a, b)) ensures b in comps[k] {
      SameComponent(comps, at, k, a);
      SameComponent(comps, at, k, b);
    }
  }

  lemma ClassPath(g: Graph<nat>, rows: seq<Row>, comps: seq<Component>, at: map<nat, nat>,
                  forward: Graph<nat>, reverse: Graph<nat>, k: nat, x: nat, y: nat)
    requires Compiled(g, rows, comps, at, forward, reverse) && Classes(g, comps)
    requires k < |comps| && x in comps[k] && y in comps[k]
    ensures Reaches(forward, x, y)
  {
    hide Disjoint, Table, RowsForward, Reaches;
    forall u, v | Edge(g, u, v) && MutuallyReachable(g, x, u) && MutuallyReachable(g, x, v) ensures Edge(forward, u, v) {
      SameComponent(comps, at, k, u);
      SameComponent(comps, at, k, v);
    }
    ClassReach(g, forward, x, y);
  }

  // ------------------------------------------------------------------ replay

  /** What component `j` waits for has been replayed before turn `e`. */
  ghost predicate ReadyBy(s: seq<Pair>, j: nat, e: nat) {
    Firsts(s, j) <= UpTo(e)
  }

  ghost predicate LeastAt(s: seq<Pair>, comps: seq<Component>, e: nat) {
    forall j | e < j < |comps| && ReadyBy(s, j, e) && e < |comps| && comps[e] != [] && comps[j] != [] ::
      comps[e][0] <= comps[j][0]
  }

  ghost predicate Pending(s: seq<Pair>, n: nat, e: nat, counts: seq<nat>) {
    |counts| == n && forall j | 0 <= j < n :: counts[j] == |Firsts(s, j) - UpTo(e)|
  }

  ghost predicate Heap(n: nat, e: nat, counts: seq<nat>, ready: set<nat>) {
    |counts| == n && forall j :: j in ready <==> e <= j < n && counts[j] == 0
  }

  /** Component `c` has been replayed: its consumers wait for one component less. */
  method Release(s: seq<Pair>, n: nat, c: nat, consumers: seq<nat>, counts0: seq<nat>, ready0: set<nat>)
      returns (counts: seq<nat>, ready: set<nat>)
    requires c < n && Ascending(consumers) && forall x: nat :: x in consumers <==> (c, x) in s
    requires forall p | p in s :: p.0 < p.1 < n
    requires Pending(s, n, c, counts0) && Heap(n, c, counts0, ready0) && c in ready0
    ensures Pending(s, n, c + 1, counts) && Heap(n, c + 1, counts, ready)
  {
    hide Pending;
    counts, ready := counts0, ready0 - {c};
    WaitingForOne(s, n, c, counts0);
    for i := 0 to |consumers|
      invariant |counts| == n && Heap(n, c + 1, counts, ready)
      invariant forall j | 0 <= j < n :: counts0[j] == counts[j] + if j in consumers[..i] then 1 else 0
    {
      var x := consumers[i];
      assert consumers[..i + 1] == consumers[..i] + [x];
      assert x in consumers;
      assert x !in consumers[..i];
      counts := counts[x := counts[x] - 1];
      if counts[x] == 0 {
        ready := ready + {x};
      }
    }
    assert consumers[..|consumers|] == consumers;
    OneLess(s, n, c, consumers, counts0, counts);
  }

  lemma WaitingForOne(s: seq<Pair>, n: nat, c: nat, counts: seq<nat>)
    requires Pending(s, n, c, counts) && forall p | p in s :: p.1 < n
    ensures |counts| == n && forall x: nat | (c, x) in s :: x < n && counts[x] > 0
  {
    forall x: nat | (c, x) in s ensures x < n && counts[x] > 0 {
      assert c in Firsts(s, x) - UpTo(c);
    }
  }

  lemma OneLess(s: seq<Pair>, n: nat, c: nat, consumers: seq<nat>, counts0: seq<nat>, counts: seq<nat>)
    requires Pending(s, n, c, counts0) && |counts| == n && forall x: nat :: x in consumers <==> (c, x) in s
    requires forall j | 0 <= j < n :: counts0[j] == counts[j] + if j in consumers then 1 else 0
    ensures Pending(s, n, c + 1, counts)
  {
    hide Firsts;
    forall j | 0 <= j < n ensures counts[j] == |Firsts(s, j) - UpTo(c + 1)| {
      IsFirst(s, j, c);
      var before, after := Firsts(s, j) - UpTo(c), Firsts(s, j) - UpTo(c + 1);
      if j in consumers {
        assert after == before - {c};
      } else {
        assert after == before;
      }
    }
  }

  lemma IsFirst(s: seq<Pair>, j: nat, c: nat)
    ensures c in Firsts(s, j) <==> (c, j) in s
  {
  }

  /** Replay against a heap that yields the ready component with the least first owner. */
  method Replay(s: seq<Pair>, comps: seq<Component>, offsets: seq<nat>, flat: seq<nat>, counts0: seq<nat>) returns (ok: bool)
    requires Slices(s, |comps|, offsets, flat) && Pending(s, |comps|, 0, counts0)
    requires forall p | p in s :: p.0 < p.1 < |comps|
    requires Disjoint(comps) && forall k | 0 <= k < |comps| :: comps[k] != []
    ensures ok <==> forall e | 0 <= e < |comps| :: LeastAt(s, comps, e)
  {
    hide Pending, Slices, Disjoint, LeastAt, Firsts;
    var counts, n := counts0, |comps|;
    PendingLength(s, n, 0, counts);
    var ready: set<nat> := set j: nat | j < n && counts[j] == 0;
    for e := 0 to n
      invariant Pending(s, n, e, counts) && Heap(n, e, counts, ready)
      invariant forall k | 0 <= k < e :: LeastAt(s, comps, k)
    {
      AlwaysReady(s, n, e, counts, ready);
      var c := LeastReady(comps, ready);
      NextIsLeast(s, comps, e, counts, ready, c);
      if c != e {
        return false;
      }
      SliceAt(s, n, offsets, flat, e);
      counts, ready := Release(s, n, e, flat[offsets[e]..offsets[e + 1]], counts, ready);
    }
    return ready == {};
  }

  lemma PendingLength(s: seq<Pair>, n: nat, e: nat, counts: seq<nat>)
    requires Pending(s, n, e, counts)
    ensures |counts| == n
  {
  }

  lemma SliceAt(s: seq<Pair>, n: nat, offsets: seq<nat>, flat: seq<nat>, e: nat)
    requires Slices(s, n, offsets, flat) && e < n
    ensures |offsets| == n + 1 && offsets[e] <= offsets[e + 1] <= |flat|
    ensures Ascending(flat[offsets[e]..offsets[e + 1]])
    ensures forall x: nat :: x in flat[offsets[e]..offsets[e + 1]] <==> (e, x) in s
  {
  }

  /** With edges that only point forward, the next component never waits. */
  lemma AlwaysReady(s: seq<Pair>, n: nat, e: nat, counts: seq<nat>, ready: set<nat>)
    requires Pending(s, n, e, counts) && Heap(n, e, counts, ready) && e < n
    requires forall p | p in s :: p.0 < p.1
    ensures e in ready && forall j :: j in ready <==> e <= j < n && ReadyBy(s, j, e)
  {
    forall j | e <= j < n ensures j in ready <==> ReadyBy(s, j, e) {
      var waiting := Firsts(s, j) - UpTo(e);
      assert counts[j] == |waiting|;
      assert waiting == {} <==> ReadyBy(s, j, e);
    }
    assert ReadyBy(s, e, e);
  }

  lemma NextIsLeast(s: seq<Pair>, comps: seq<Component>, e: nat, counts: seq<nat>, ready: set<nat>, c: nat)
    requires e < |comps| && Disjoint(comps) && forall k | 0 <= k < |comps| :: comps[k] != []
    requires e in ready && forall j :: j in ready <==> e <= j < |comps| && ReadyBy(s, j, e)
    requires c in ready && forall r | r in ready :: comps[c][0] <= comps[r][0]
    ensures c == e <==> LeastAt(s, comps, e)
  {
    HeadsDiffer(comps);
  }

  lemma HeadsDiffer(comps: seq<Component>)
    requires Disjoint(comps) && forall k | 0 <= k < |comps| :: comps[k] != []
    ensures forall i, j | 0 <= i < j < |comps| :: comps[i][0] != comps[j][0]
  {
    forall i, j | 0 <= i < j < |comps| ensures comps[i][0] != comps[j][0] {
      HeadIn(comps[i]);
      HeadIn(comps[j]);
    }
  }

  /** The heap order is the canonical order. */
  lemma LeastAgrees(g: Graph<nat>, rows: seq<Row>, comps: seq<Component>, at: map<nat, nat>, s: seq<Pair>)
    requires forall c, d :: Edge(g, c, d) <==> Row(d, c) in rows
    requires Disjoint(comps) && Table(comps, at) && RowsForward(rows, at) && Outer(rows, at, s)
    requires forall k | 0 <= k < |comps| :: comps[k] != []
    ensures (forall e | 0 <= e < |comps| :: LeastAt(s, comps, e)) <==> LeastReadyFirst(g, comps)
  {
    hide Disjoint, Table, RowsForward, Outer, ReadyBy, ReadyAfter;
    forall e, j | 0 <= e < j < |comps| ensures ReadyBy(s, j, e) <==> ReadyAfter(g, comps[j], Members(comps[..e])) {
      ReadyAgrees(g, rows, comps, at, s, j, e);
    }
    if forall e | 0 <= e < |comps| :: LeastAt(s, comps, e) {
      forall e, j | 0 <= e < j < |comps| && ReadyAfter(g, comps[j], Members(comps[..e]))
        ensures comps[e][0] <= comps[j][0]
      {
        assert LeastAt(s, comps, e);
      }
    }
  }

  lemma ReadyAgrees(g: Graph<nat>, rows: seq<Row>, comps: seq<Component>, at: map<nat, nat>, s: seq<Pair>, j: nat, e: nat)
    requires forall c, d :: Edge(g, c, d) <==> Row(d, c) in rows
    requires Disjoint(comps) && Table(comps, at) && RowsForward(rows, at) && Outer(rows, at, s)
    requires e < j < |comps|
    ensures ReadyBy(s, j, e) <==> ReadyAfter(g, comps[j], Members(comps[..e]))
  {
    hide Disjoint, Table, Outer, Firsts;
    if ReadyBy(s, j, e) {
      forall u, v | u in comps[j] && Edge(g, u, v) ensures v in comps[j] || v in Members(comps[..e]) {
        assert Row(v, u) in rows;
        SameComponent(comps, at, j, u);
        SameComponent(comps, at, j, v);
        if at[v] != j {
          RowIsPair(rows, at, s, Row(v, u));
          PlacedBefore(comps, at, v, e);
        }
      }
    }
    if ReadyAfter(g, comps[j], Members(comps[..e])) {
      forall d | d in Firsts(s, j) ensures d in UpTo(e) {
        var r := PairIsRow(rows, at, s, d, j);
        assert Edge(g, r.consumer, r.dependency);
        SameComponent(comps, at, j, r.consumer);
        SameComponent(comps, at, j, r.dependency);
        var k := MemberOf(comps[..e], r.dependency);
        SameComponent(comps, at, k, r.dependency);
      }
    }
  }

  lemma RowIsPair(rows: seq<Row>, at: map<nat, nat>, s: seq<Pair>, r: Row)
    requires Outer(rows, at, s) && r in rows && r.dependency in at && r.consumer in at
    requires at[r.dependency] != at[r.consumer]
    ensures (at[r.dependency], at[r.consumer]) in s && at[r.dependency] in Firsts(s, at[r.consumer])
  {
    assert (at[r.dependency], at[r.consumer]) in s;
  }

  lemma PairIsRow(rows: seq<Row>, at: map<nat, nat>, s: seq<Pair>, d: nat, j: nat) returns (r: Row)
    requires Outer(rows, at, s) && d in Firsts(s, j)
    ensures d != j && r in rows && r.dependency in at && r.consumer in at && at[r.dependency] == d && at[r.consumer] == j
  {
    assert (d, j) in s;
    r :| r in rows && r.dependency in at && r.consumer in at && (d, j) == (at[r.dependency], at[r.consumer]);
  }

  lemma PlacedBefore(comps: seq<Component>, at: map<nat, nat>, v: nat, e: nat)
    requires Table(comps, at) && v in at && at[v] < e <= |comps|
    ensures v in Members(comps[..e])
  {
    assert comps[..e][at[v]] == comps[at[v]];
  }
}
