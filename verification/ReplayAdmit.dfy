/** Admission of the dependency half of a generated collision replay index. */
module ReplayAdmit {
  import opened Wrappers
  import opened Counting
  import opened Graphs
  import opened Components
  import opened ComponentOrder
  import opened ReplayIndex
  import opened ReplayAdmission
  import opened ReplayOrder

  /** The distinct component-level edges, from dependency to consumer. */
  ghost function ComponentEdges(rows: seq<Row>, comps: seq<Component>): set<Pair> {
    set r, i, j | r in rows && 0 <= i < |comps| && 0 <= j < |comps| && i != j
                  && r.dependency in comps[i] && r.consumer in comps[j] :: (i, j)
  }

  /** The counters of the compact index are 32 bits wide. */
  ghost predicate Fits(owners: seq<nat>, rows: seq<Row>, comps: seq<Component>) {
    |owners| <= U32_MAX && |ComponentEdges(rows, comps)| <= U32_MAX
  }

  /** The compact index says what the rows and the listing say. */
  ghost predicate Faithful(rows: seq<Row>, ix: Admitted) {
    && Disjoint(ix.sccs) && Table(ix.sccs, ix.ownerScc)
    && (forall r | r in rows :: r.dependency in ix.ownerScc && r.consumer in ix.ownerScc)
    && |ix.reverseOffsets| == |ix.sccs| + 1
    && (forall d | 0 <= d <= |ix.sccs| :: ix.reverseOffsets[d] <= |ix.reverseEdges|)
    && (forall d | 0 <= d < |ix.sccs| :: ix.reverseOffsets[d] <= ix.reverseOffsets[d + 1])
    && (forall d | 0 <= d < |ix.sccs| :: Ascending(Consumers(ix, d)))
    && (forall d, c: nat | 0 <= d < |ix.sccs| :: c in Consumers(ix, d) <==> (d, c) in ComponentEdges(rows, ix.sccs))
  }

  /** The slice of one component; empty where the offsets do not delimit one. */
  function Consumers(ix: Admitted, d: nat): seq<nat> {
    if d + 1 < |ix.reverseOffsets| && ix.reverseOffsets[d] <= ix.reverseOffsets[d + 1] <= |ix.reverseEdges| then
      ix.reverseEdges[ix.reverseOffsets[d]..ix.reverseOffsets[d + 1]]
    else []
  }

  /** Admission: the errors in the order the source finds them. */
  method Admit(owners: seq<nat>, rows: seq<Row>, comps: seq<Component>) returns (r: Result<Admitted, AdmissionError>)
    ensures r == Err(InvalidDependencyGraph) <==> !(SortedRows(rows) && RowsWithin(owners, rows))
    ensures r.Ok? <==> && SortedRows(rows) && RowsWithin(owners, rows)
                       && Canonical(GraphOf(owners, rows), comps) && Fits(owners, rows, comps)
    ensures r.Ok? ==> r.value.sccs == comps && Faithful(rows, r.value)
  {
    hide SortedRows, RowsWithin, Canonical, Faithful, WellShaped, Table, RowsForward, Inner, Outer, GraphOf, Cohesive,
         LeastReadyFirst, Slices, Within, Counted, Pending, Disjoint, Fits, SortedPairs, LeastAt;
    var ok := CheckRows(owners, rows);
    if !ok {
      return Err(InvalidDependencyGraph);
    }
    ghost var g := GraphOf(owners, rows);
    var at;
    ok, at := AssignOwners(owners, comps);
    if !ok {
      CanonicalIsShaped(owners, rows, comps);
      return Err(InvalidSccPartition);
    }
    Located(owners, rows, comps, at);
    if |owners| > U32_MAX {
      TooMany(owners, rows, comps);
      return Err(InvalidSccPartition);
    }
    var forward, reverse, pairs;
    ok, forward, reverse, pairs := SplitRows(rows, at);
    if !ok {
      CanonicalIsForward(owners, rows, comps, at);
      return Err(InvalidSccPartition);
    }
    var edges := SortDedup(pairs);
    EdgesAreComponentEdges(rows, comps, at, pairs, edges);
    if |edges| > U32_MAX {
      TooMany(owners, rows, comps);
      return Err(InvalidSccPartition);
    }
    var offsets, flat, counts := Compact(edges, |comps|);
    ok := CheckCohesion(comps, forward, reverse);
    CohesionDecides(owners, rows, comps, at, forward, reverse);
    if !ok {
      return Err(InvalidSccPartition);
    }
    CountsArePending(edges, |comps|, flat, counts);
    ok := Replay(edges, comps, offsets, flat, counts);
    ReplayDecides(owners, rows, comps, at, edges);
    if !ok {
      return Err(InvalidSccPartition);
    }
    var ix := Admitted(at, comps, offsets, flat);
    IndexIsFaithful(rows, ix, edges);
    FitsNow(owners, rows, comps);
    return Ok(ix);
  }

  lemma CanonicalIsShaped(owners: seq<nat>, rows: seq<Row>, comps: seq<Component>)
    requires RowsWithin(owners, rows)
    ensures Canonical(GraphOf(owners, rows), comps) ==> WellShaped(owners, comps)
  {
    EdgesAreRows(owners, rows);
  }

  lemma Located(owners: seq<nat>, rows: seq<Row>, comps: seq<Component>, at: map<nat, nat>)
    requires RowsWithin(owners, rows) && WellShaped(owners, comps) && Table(comps, at)
    ensures forall r | r in rows :: r.dependency in at && r.consumer in at
    ensures Disjoint(comps) && forall k | 0 <= k < |comps| :: comps[k] != []
  {
  }

  lemma TooMany(owners: seq<nat>, rows: seq<Row>, comps: seq<Component>)
    requires |owners| > U32_MAX || |ComponentEdges(rows, comps)| > U32_MAX
    ensures !Fits(owners, rows, comps)
  {
  }

  lemma FitsNow(owners: seq<nat>, rows: seq<Row>, comps: seq<Component>)
    requires |owners| <= U32_MAX && |ComponentEdges(rows, comps)| <= U32_MAX
    ensures Fits(owners, rows, comps)
  {
  }

  lemma CanonicalIsForward(owners: seq<nat>, rows: seq<Row>, comps: seq<Component>, at: map<nat, nat>)
    requires RowsWithin(owners, rows) && Table(comps, at)
    requires forall r | r in rows :: r.dependency in at && r.consumer in at
    ensures Canonical(GraphOf(owners, rows), comps) ==> RowsForward(rows, at)
  {
    hide GraphOf;
    EdgesAreRows(owners, rows);
    if Canonical(GraphOf(owners, rows), comps) {
      forall r | r in rows ensures at[r.dependency] <= at[r.consumer] {
        assert Row(r.dependency, r.consumer) == r;
        assert Edge(GraphOf(owners, rows), r.consumer, r.dependency);
      }
    }
  }

  lemma EdgesAreComponentEdges(rows: seq<Row>, comps: seq<Component>, at: map<nat, nat>, pairs: seq<Pair>, edges: seq<Pair>)
    requires Disjoint(comps) && Table(comps, at) && RowsForward(rows, at) && Outer(rows, at, pairs)
    requires SortedPairs(edges) && forall p :: p in edges <==> p in pairs
    ensures forall p :: p in edges <==> p in ComponentEdges(rows, comps)
    ensures |edges| == |ComponentEdges(rows, comps)|
    ensures Within(edges, |comps|) && Outer(rows, at, edges) && forall p | p in edges :: p.0 < p.1 < |comps|
  {
    hide Disjoint, Table, RowsForward, Outer, SortedPairs;
    SameOuter(rows, at, pairs, edges);
    forall p ensures p in edges <==> p in ComponentEdges(rows, comps) {
      PairIsEdge(rows, comps, at, edges, p);
    }
    DistinctSize(edges, ComponentEdges(rows, comps));
    forall p | p in edges ensures p.0 < p.1 < |comps| {
      PairIsForward(rows, comps, at, edges, p);
    }
    forall k | 0 <= k < |edges| ensures edges[k].0 < |comps| && edges[k].1 < |comps| {
      assert edges[k] in edges;
    }
  }

  lemma SameOuter(rows: seq<Row>, at: map<nat, nat>, pairs: seq<Pair>, edges: seq<Pair>)
    requires Outer(rows, at, pairs) && forall p :: p in edges <==> p in pairs
    ensures Outer(rows, at, edges)
  {
  }

  lemma PairIsForward(rows: seq<Row>, comps: seq<Component>, at: map<nat, nat>, edges: seq<Pair>, p: Pair)
    requires Table(comps, at) && RowsForward(rows, at) && Outer(rows, at, edges) && p in edges
    ensures p.0 < p.1 < |comps|
  {
    var r :| r in rows && r.dependency in at && r.consumer in at && p == (at[r.dependency], at[r.consumer]);
  }

  lemma PairIsEdge(rows: seq<Row>, comps: seq<Component>, at: map<nat, nat>, edges: seq<Pair>, p: Pair)
    requires Disjoint(comps) && Table(comps, at) && RowsForward(rows, at) && Outer(rows, at, edges)
    ensures p in edges <==> p in ComponentEdges(rows, comps)
  {
    hide Disjoint, Table;
    if p in edges {
      var r :| r in rows && r.dependency in at && r.consumer in at && p == (at[r.dependency], at[r.consumer]);
      TableAt(comps, at, r.dependency);
      TableAt(comps, at, r.consumer);
      var i, j := p.0, p.1;
      assert r.dependency in comps[i] && r.consumer in comps[j];
    }
    if p in ComponentEdges(rows, comps) {
      var r, i, j :| r in rows && 0 <= i < |comps| && 0 <= j < |comps| && i != j
                     && r.dependency in comps[i] && r.consumer in comps[j] && p == (i, j);
      SameComponent(comps, at, i, r.dependency);
      SameComponent(comps, at, j, r.consumer);
    }
  }

  lemma TableAt(comps: seq<Component>, at: map<nat, nat>, o: nat)
    requires Table(comps, at) && o in at
    ensures at[o] < |comps| && o in comps[at[o]]
  {
  }

  lemma {:induction false} DistinctSize(s: seq<Pair>, all: set<Pair>)
    requires SortedPairs(s) && forall p :: p in s <==> p in all
    ensures |s| == |all|
  {
    if s == [] {
      assert all == {};
    } else {
      var last := s[|s| - 1];
      var rest := s[..|s| - 1];
      assert s == rest + [last];
      assert last !in rest;
      assert last in s;
      DistinctSize(rest, all - {last});
    }
  }

  lemma CountsArePending(s: seq<Pair>, n: nat, flat: seq<nat>, counts: seq<nat>)
    requires Counted(s, |s|, n, flat, counts)
    ensures Pending(s, n, 0, counts)
  {
    assert s[..|s|] == s;
    forall c | 0 <= c < n ensures counts[c] == |Firsts(s, c) - UpTo(0)| {
      assert Firsts(s, c) - UpTo(0) == Firsts(s, c);
    }
  }

  lemma CohesionDecides(owners: seq<nat>, rows: seq<Row>, comps: seq<Component>, at: map<nat, nat>,
                        forward: Graph<nat>, reverse: Graph<nat>)
    requires RowsWithin(owners, rows) && WellShaped(owners, comps) && Table(comps, at) && RowsForward(rows, at)
    requires Inner(rows, at, forward, false) && Inner(rows, at, reverse, true)
    ensures Cohesive(comps, forward, reverse) <==> Classes(GraphOf(owners, rows), comps)
    ensures Canonical(GraphOf(owners, rows), comps) ==> Classes(GraphOf(owners, rows), comps)
  {
    hide GraphOf, RowsWithin, Table, RowsForward, Inner, Cohesive;
    var g := GraphOf(owners, rows);
    EdgesAreRows(owners, rows);
    if Cohesive(comps, forward, reverse) {
      CohesiveAreClasses(g, rows, comps, at, forward, reverse);
    }
    if Classes(g, comps) {
      ClassesAreCohesive(g, rows, comps, at, forward, reverse);
    }
  }

  lemma ReplayDecides(owners: seq<nat>, rows: seq<Row>, comps: seq<Component>, at: map<nat, nat>, edges: seq<Pair>)
    requires RowsWithin(owners, rows) && WellShaped(owners, comps) && Table(comps, at) && RowsForward(rows, at)
    requires Outer(rows, at, edges) && Classes(GraphOf(owners, rows), comps)
    ensures (forall e | 0 <= e < |comps| :: LeastAt(edges, comps, e)) <==> Canonical(GraphOf(owners, rows), comps)
  {
    hide GraphOf, RowsWithin, RowsForward, Outer, LeastAt, LeastReadyFirst, Disjoint, Classes, Table;
    var g := GraphOf(owners, rows);
    EdgesAreRows(owners, rows);
    LeastAgrees(g, rows, comps, at, edges);
    assert Members(comps) == Vertices(g);
    ForwardIsFirst(g, rows, comps, at);
  }

  lemma ForwardIsFirst(g: Graph<nat>, rows: seq<Row>, comps: seq<Component>, at: map<nat, nat>)
    requires forall c, d :: Edge(g, c, d) <==> Row(d, c) in rows
    requires Disjoint(comps) && Table(comps, at) && RowsForward(rows, at)
    ensures DependencyFirst(g, comps)
  {
    hide Disjoint, Table;
    forall i, j, u, v | 0 <= i < |comps| && 0 <= j < |comps| && u in comps[i] && v in comps[j] && Edge(g, u, v)
      ensures j <= i
    {
      SameComponent(comps, at, i, u);
      SameComponent(comps, at, j, v);
      assert Row(v, u) in rows;
    }
  }

  lemma IndexIsFaithful(rows: seq<Row>, ix: Admitted, edges: seq<Pair>)
    requires Disjoint(ix.sccs) && Table(ix.sccs, ix.ownerScc) && RowsForward(rows, ix.ownerScc)
    requires Slices(edges, |ix.sccs|, ix.reverseOffsets, ix.reverseEdges)
    requires forall p :: p in edges <==> p in ComponentEdges(rows, ix.sccs)
    ensures Faithful(rows, ix)
  {
    hide Disjoint, Table, ComponentEdges;
  }

  // ------------------------------------------------------------------ corollaries

  /** Whatever listing is admitted for the same rows, it is the same listing. */
  lemma OneAdmissibleListing(owners: seq<nat>, rows: seq<Row>, a: seq<Component>, b: seq<Component>)
    requires Canonical(GraphOf(owners, rows), a) && Canonical(GraphOf(owners, rows), b)
    ensures a == b
  {
    CanonicalUnique(GraphOf(owners, rows), a, b);
  }

  /** The listing the generator computes is admitted, and no other listing is. */
  method GenerateAndAdmit(owners: seq<nat>, rows: seq<Row>, claimed: seq<Component>)
      returns (generated: seq<Component>, r: Result<Admitted, AdmissionError>)
    requires SortedRows(rows) && RowsWithin(owners, rows)
    ensures Canonical(GraphOf(owners, rows), generated)
    ensures r.Ok? <==> claimed == generated && Fits(owners, rows, generated)
  {
    generated := DependencyFirstSccs(GraphOf(owners, rows), owners);
    r := Admit(owners, rows, claimed);
    if Canonical(GraphOf(owners, rows), claimed) {
      OneAdmissibleListing(owners, rows, claimed, generated);
    }
  }
}
