/** The sparse collision scheduler over an admitted index, and the full-scan oracle it must agree with. */
module ReplayScheduler {
  import opened Wrappers
  import opened Counting
  import opened Graphs
  import opened Components
  import opened ComponentOrder
  import opened ReplayIndex
  import opened ReplayAdmission
  import opened ReplayOrder
  import opened ReplayAdmit

  datatype ScheduleError = UnknownSeed(owner: nat)

  // ------------------------------------------------------------------ meaning

  /** Replaying an owner replays its whole component and everything that consumes it. */
  ghost predicate ClosedUnderReplay(comps: seq<Component>, rows: seq<Row>, s: set<nat>) {
    && (forall k, x, y | 0 <= k < |comps| && x in comps[k] && y in comps[k] && x in s :: y in s)
    && (forall r | r in rows && r.dependency in s :: r.consumer in s)
  }

  ghost predicate LeastReplay(comps: seq<Component>, rows: seq<Row>, seeds: set<nat>, s: set<nat>) {
    && seeds <= s && ClosedUnderReplay(comps, rows, s)
    && forall t: set<nat> | seeds <= t && ClosedUnderReplay(comps, rows, t) :: s <= t
  }

  // ------------------------------------------------------------------ oracle

  ghost predicate Bounded(comps: seq<Component>, rows: seq<Row>, seeds: set<nat>, s: set<nat>) {
    && seeds <= s && s <= seeds + Members(comps) + ConsumerSet(rows)
    && forall t: set<nat> | seeds <= t && ClosedUnderReplay(comps, rows, t) :: s <= t
  }

  ghost function ConsumerSet(rows: seq<Row>): set<nat> {
    set r | r in rows :: r.consumer
  }

  /** One scan over all components. */
  method ScanComponents(comps: seq<Component>, before: set<nat>, ghost rows: seq<Row>, ghost seeds: set<nat>)
      returns (affected: set<nat>)
    requires Bounded(comps, rows, seeds, before)
    ensures Bounded(comps, rows, seeds, affected) && before <= affected
    ensures affected == before ==> forall k, x, y | 0 <= k < |comps| && x in comps[k] && y in comps[k] && x in before :: y in before
  {
    affected := before;
    for k := 0 to |comps|
      invariant Bounded(comps, rows, seeds, affected) && before <= affected
      invariant affected == before ==> forall i, x, y | 0 <= i < k && x in comps[i] && y in comps[i] && x in before :: y in before
    {
      if exists owner :: owner in comps[k] && owner in affected {
        var more := affected + set o | o in comps[k];
        forall t: set<nat> | seeds <= t && ClosedUnderReplay(comps, rows, t) ensures more <= t {
          assert affected <= t;
        }
        forall o | o in comps[k] ensures o in Members(comps) {
        }
        affected := more;
      }
    }
  }

  /** One scan over all edges. */
  method ScanEdges(rows: seq<Row>, before: set<nat>, ghost comps: seq<Component>, ghost seeds: set<nat>)
      returns (affected: set<nat>)
    requires Bounded(comps, rows, seeds, before)
    ensures Bounded(comps, rows, seeds, affected) && before <= affected
    ensures affected == before ==> forall r | r in rows && r.dependency in before :: r.consumer in before
  {
    affected := before;
    for i := 0 to |rows|
      invariant Bounded(comps, rows, seeds, affected) && before <= affected
      invariant affected == before ==> forall j | 0 <= j < i && rows[j].dependency in before :: rows[j].consumer in before
    {
      if rows[i].dependency in affected {
        var more := affected + {rows[i].consumer};
        forall t: set<nat> | seeds <= t && ClosedUnderReplay(comps, rows, t) ensures more <= t {
          assert affected <= t && rows[i] in rows;
        }
        assert rows[i].consumer in ConsumerSet(rows);
        affected := more;
      }
    }
  }

  /** Scan everything until nothing is added: the least set that contains the seed and is closed. */
  method FullScanOracle(comps: seq<Component>, rows: seq<Row>, seed: nat) returns (affected: set<nat>)
    ensures LeastReplay(comps, rows, {seed}, affected)
  {
    affected := {seed};
    ghost var all := {seed} + Members(comps) + ConsumerSet(rows);
    var settled := false;
    while !settled
      invariant Bounded(comps, rows, {seed}, affected)
      invariant settled ==> ClosedUnderReplay(comps, rows, affected)
      decreases !settled, |all| - |affected|
    {
      var before := affected;
      affected := ScanComponents(comps, affected, rows, {seed});
      affected := ScanEdges(rows, affected, comps, {seed});
      settled := |affected| == |before|;
      SmallerSize(before, affected);
      SmallerSize(affected, all);
      if settled {
        SameSize(before, affected);
      }
    }
  }

  // ------------------------------------------------------------------ sparse walk

  /** The component graph of the index: dependency to consumers. */
  ghost function Spread(ix: Admitted): Graph<nat> {
    map d: nat | d in UpTo(|ix.sccs|) :: Consumers(ix, d)
  }

  ghost predicate Fed(ix: Admitted, roots: set<nat>, c: nat) {
    exists root :: root in roots && Reaches(Spread(ix), root, c)
  }

  /** Edges leaving the first `n` popped components. */
  ghost function Probes(ix: Admitted, popped: seq<nat>): nat {
    if popped == [] then 0 else Probes(ix, popped[..|popped| - 1]) + |Consumers(ix, popped[|popped| - 1])|
  }

  /** Push the consumers that are not affected yet. */
  method PushConsumers(consumers: seq<nat>, pending0: seq<nat>) returns (pending: seq<nat>)
    requires Distinct(pending0)
    ensures Distinct(pending) && |pending0| <= |pending| && pending[..|pending0|] == pending0
    ensures forall x :: x in pending <==> x in pending0 || x in consumers
  {
    pending := pending0;
    for i := 0 to |consumers|
      invariant Distinct(pending) && |pending0| <= |pending| && pending[..|pending0|] == pending0
      invariant forall x :: x in pending <==> x in pending0 || x in consumers[..i]
    {
      assert consumers[..i + 1] == consumers[..i] + [consumers[i]];
      if consumers[i] !in pending {
        pending := pending + [consumers[i]];
      }
    }
    assert consumers[..|consumers|] == consumers;
  }

  /** The components of the seeds, or the first seed the index does not know. */
  method ProbeSeeds(ix: Admitted, seeds: seq<nat>) returns (r: Result<seq<nat>, ScheduleError>)
    ensures r.Ok? <==> forall s | s in seeds :: s in ix.ownerScc
    ensures r.Err? ==> exists i :: 0 <= i < |seeds| && r.error == UnknownSeed(seeds[i]) && seeds[i] !in ix.ownerScc
                                   && forall j | 0 <= j < i :: seeds[j] in ix.ownerScc
    ensures r.Ok? ==> Distinct(r.value) && forall c :: c in r.value <==> exists s :: s in seeds && ix.ownerScc[s] == c
  {
    var pending: seq<nat> := [];
    for i := 0 to |seeds|
      invariant forall j | 0 <= j < i :: seeds[j] in ix.ownerScc
      invariant Distinct(pending)
      invariant forall c :: c in pending <==> exists j :: 0 <= j < i && ix.ownerScc[seeds[j]] == c
    {
      if seeds[i] !in ix.ownerScc {
        assert seeds[i] in seeds;
        return Err(UnknownSeed(seeds[i]));
      }
      var scc := ix.ownerScc[seeds[i]];
      if scc !in pending {
        pending := pending + [scc];
      }
    }
    return Ok(pending);
  }

  /** What the walk has popped, probed and queued. */
  ghost predicate Walking(ix: Admitted, roots: seq<nat>, pending: seq<nat>, cursor: nat, probes: nat) {
    && cursor <= |pending| && Distinct(pending) && (forall c | c in pending :: c < |ix.sccs|)
    && (forall c | c in pending :: Fed(ix, SetOf(roots), c)) && (forall c | c in roots :: c in pending)
    && (forall d, c | d in pending[..cursor] && c in Consumers(ix, d) :: c in pending)
    && probes == Probes(ix, pending[..cursor])
  }

  ghost predicate ConsumersKnown(ix: Admitted) {
    forall d, c | 0 <= d < |ix.sccs| && c in Consumers(ix, d) :: c < |ix.sccs|
  }

  /** Breadth first over the compact edges.  Exactly the affected components are popped, once each. */
  method Walk(ix: Admitted, roots: seq<nat>) returns (pending: seq<nat>, probes: nat)
    requires Distinct(roots) && (forall c | c in roots :: c < |ix.sccs|) && ConsumersKnown(ix)
    ensures Distinct(pending) && forall c :: c in pending <==> Fed(ix, SetOf(roots), c)
    ensures probes == Probes(ix, pending) && forall c | c in pending :: c < |ix.sccs|
  {
    hide Probes, Consumers, Walking, ConsumersKnown;
    pending := roots;
    var cursor := 0;
    probes := 0;
    StartWalk(ix, roots);
    while cursor < |pending|
      invariant Walking(ix, roots, pending, cursor, probes)
      decreases |ix.sccs| - cursor
    {
      WalkIsShort(ix, roots, pending, cursor, probes);
      pending, probes := Pop(ix, roots, pending, cursor, probes);
      cursor := cursor + 1;
    }
    EndWalk(ix, roots, pending, cursor, probes);
  }

  lemma StartWalk(ix: Admitted, roots: seq<nat>)
    requires Distinct(roots) && forall c | c in roots :: c < |ix.sccs|
    ensures Walking(ix, roots, roots, 0, 0)
  {
    hide Probes;
    forall c | c in roots ensures Fed(ix, SetOf(roots), c) {
      ReachesSelf(Spread(ix), c);
    }
    assert roots[..0] == [];
    NoProbes(ix);
  }

  lemma WalkIsShort(ix: Admitted, roots: seq<nat>, pending: seq<nat>, cursor: nat, probes: nat)
    requires Walking(ix, roots, pending, cursor, probes)
    ensures |pending| <= |ix.sccs|
  {
    hide Probes, Fed;
    DistinctBelow(pending, |ix.sccs|);
  }

  /** Pop one component and queue its consumers. */
  method Pop(ix: Admitted, ghost roots: seq<nat>, before: seq<nat>, cursor: nat, probes0: nat)
      returns (pending: seq<nat>, probes: nat)
    requires ConsumersKnown(ix) && Walking(ix, roots, before, cursor, probes0) && cursor < |before|
    ensures Walking(ix, roots, pending, cursor + 1, probes)
  {
    hide Probes, Consumers, Fed;
    var dependency := before[cursor];
    assert dependency in before;
    var consumers := Consumers(ix, dependency);
    assert before[..cursor + 1] == before[..cursor] + [dependency];
    OneMoreProbe(ix, before, cursor);
    probes := probes0 + |consumers|;
    pending := PushConsumers(consumers, before);
    assert pending[..cursor + 1] == before[..cursor + 1];
    forall c | c in consumers ensures Fed(ix, SetOf(roots), c) {
      FedConsumer(ix, SetOf(roots), dependency, c);
    }
  }

  lemma EndWalk(ix: Admitted, roots: seq<nat>, pending: seq<nat>, cursor: nat, probes: nat)
    requires Walking(ix, roots, pending, cursor, probes) && cursor >= |pending|
    ensures Distinct(pending) && forall c :: c in pending <==> Fed(ix, SetOf(roots), c)
    ensures probes == Probes(ix, pending) && forall c | c in pending :: c < |ix.sccs|
  {
    hide Probes, Fed;
    assert pending[..cursor] == pending;
    AllFed(ix, SetOf(roots), pending);
  }

  lemma NoProbes(ix: Admitted)
    ensures Probes(ix, []) == 0
  {
  }

  lemma OneMoreProbe(ix: Admitted, pending: seq<nat>, cursor: nat)
    requires cursor < |pending|
    ensures Probes(ix, pending[..cursor + 1]) == Probes(ix, pending[..cursor]) + |Consumers(ix, pending[cursor])|
  {
    assert pending[..cursor + 1][..cursor] == pending[..cursor];
  }

  lemma FedConsumer(ix: Admitted, from: set<nat>, d: nat, c: nat)
    requires Fed(ix, from, d) && d < |ix.sccs| && c in Consumers(ix, d)
    ensures Fed(ix, from, c)
  {
    var root :| root in from && Reaches(Spread(ix), root, d);
    assert Edge(Spread(ix), d, c);
    ReachesEdge(Spread(ix), d, c);
    ReachesTransitive(Spread(ix), root, d, c);
  }

  lemma AllFed(ix: Admitted, from: set<nat>, pending: seq<nat>)
    requires forall c | c in from :: c in pending
    requires forall d, c | d in pending && c in Consumers(ix, d) :: c in pending
    ensures forall c | Fed(ix, from, c) :: c in pending
  {
    var s := SetOf(pending);
    forall c | Fed(ix, from, c) ensures c in pending {
      var root :| root in from && Reaches(Spread(ix), root, c);
      assert Closed(Spread(ix), s);
      ClosedContainsReachable(Spread(ix), s, root, c);
    }
  }

  // ------------------------------------------------------------------ schedule

  /** Emission order: by component, then by owner. */
  ghost predicate ReplayOrdered(ix: Admitted, owners: seq<nat>) {
    && (forall o | o in owners :: o in ix.ownerScc)
    && (forall i, j | 0 <= i < j < |owners| :: EmittedBefore(ix, owners[i], owners[j]))
  }

  ghost predicate EmittedBefore(ix: Admitted, a: nat, b: nat)
    requires a in ix.ownerScc && b in ix.ownerScc
  {
    ix.ownerScc[a] < ix.ownerScc[b] || (ix.ownerScc[a] == ix.ownerScc[b] && a < b)
  }

  method EmitOwners(ix: Admitted, sccs: seq<nat>, ghost rows: seq<Row>) returns (owners: seq<nat>)
    requires Faithful(rows, ix) && Ascending(sccs) && forall c | c in sccs :: c < |ix.sccs|
    requires forall k | 0 <= k < |ix.sccs| :: Ascending(ix.sccs[k])
    ensures ReplayOrdered(ix, owners)
    ensures forall o :: o in owners <==> o in ix.ownerScc && ix.ownerScc[o] in sccs
  {
    hide Faithful, Ascending;
    owners := [];
    for i := 0 to |sccs|
      invariant ReplayOrdered(ix, owners)
      invariant forall o :: o in owners <==> o in ix.ownerScc && ix.ownerScc[o] in sccs[..i]
    {
      assert sccs[i] in sccs;
      assert sccs[..i + 1] == sccs[..i] + [sccs[i]];
      PushComponent(ix, rows, sccs, i, owners);
      owners := owners + ix.sccs[sccs[i]];
    }
    assert sccs[..|sccs|] == sccs;
  }

  lemma PushComponent(ix: Admitted, rows: seq<Row>, sccs: seq<nat>, i: nat, owners: seq<nat>)
    requires Faithful(rows, ix) && Ascending(sccs) && i < |sccs| && sccs[i] < |ix.sccs| && Ascending(ix.sccs[sccs[i]])
    requires ReplayOrdered(ix, owners)
    requires forall o :: o in owners <==> o in ix.ownerScc && ix.ownerScc[o] in sccs[..i]
    ensures ReplayOrdered(ix, owners + ix.sccs[sccs[i]])
    ensures forall o :: o in owners + ix.sccs[sccs[i]] <==> o in ix.ownerScc && ix.ownerScc[o] in sccs[..i + 1]
  {
    hide Faithful;
    FaithfulTable(rows, ix);
    var k, more := sccs[i], owners + ix.sccs[sccs[i]];
    assert sccs[..i + 1] == sccs[..i] + [k];
    forall o ensures o in ix.sccs[k] <==> o in ix.ownerScc && ix.ownerScc[o] == k {
      SameComponent(ix.sccs, ix.ownerScc, k, o);
    }
    forall a, b | 0 <= a < b < |more| ensures EmittedBefore(ix, more[a], more[b]) {
      if b < |owners| {
        assert EmittedBefore(ix, owners[a], owners[b]);
      } else if a < |owners| {
        assert owners[a] in owners && more[b] in ix.sccs[k];
      } else {
        assert more[a] == ix.sccs[k][a - |owners|] && more[b] == ix.sccs[k][b - |owners|];
        assert more[a] in ix.sccs[k] && more[b] in ix.sccs[k];
      }
    }
  }

  lemma FaithfulTable(rows: seq<Row>, ix: Admitted)
    requires Faithful(rows, ix)
    ensures Disjoint(ix.sccs) && Table(ix.sccs, ix.ownerScc)
    ensures ConsumersKnown(ix)
    ensures forall o | o in ix.ownerScc :: ix.ownerScc[o] < |ix.sccs|
  {
    forall d, c | 0 <= d < |ix.sccs| && c in Consumers(ix, d) ensures c < |ix.sccs| {
      assert (d, c) in ComponentEdges(rows, ix.sccs);
    }
  }

  /** The sparse scheduler. */
  method ScheduleSparse(ix: Admitted, seeds: seq<nat>, ghost rows: seq<Row>)
      returns (r: Result<seq<nat>, ScheduleError>, pops: nat, probes: nat)
    requires Faithful(rows, ix) && forall k | 0 <= k < |ix.sccs| :: ix.sccs[k] != [] && Ascending(ix.sccs[k])
    ensures r.Ok? <==> forall s | s in seeds :: s in ix.ownerScc
    ensures r.Err? ==> exists i :: 0 <= i < |seeds| && r.error == UnknownSeed(seeds[i]) && seeds[i] !in ix.ownerScc
                                   && forall j | 0 <= j < i :: seeds[j] in ix.ownerScc
    ensures r.Ok? ==> ReplayOrdered(ix, r.value)
    ensures r.Ok? ==> LeastReplay(ix.sccs, rows, SetOf(seeds), SetOf(r.value))
    ensures r.Ok? ==> pops == |AffectedSccs(ix, r.value)|
    ensures r.Ok? ==> probes == |AffectedEdges(ix, rows, r.value)|
  {
    hide Faithful, ReplayOrdered, LeastReplay, AffectedSccs, AffectedEdges, Fed, Probes, Ascending;
    FaithfulTable(rows, ix);
    pops, probes := 0, 0;
    var roots := ProbeSeeds(ix, seeds);
    if roots.Err? {
      return Err(roots.error), pops, probes;
    }
    var pending;
    pending, probes := Walk(ix, roots.value);
    pops := |pending|;
    var affected := SortDistinct(pending);
    var owners := EmitOwners(ix, affected, rows);
    FedIsLeast(ix, rows, seeds, roots.value, owners);
    WorkIsSparse(ix, rows, pending, owners);
    return Ok(owners), pops, probes;
  }

  ghost function AffectedSccs(ix: Admitted, owners: seq<nat>): set<nat> {
    set o | o in owners && o in ix.ownerScc :: ix.ownerScc[o]
  }

  /** The component edges that leave the affected components. */
  ghost function AffectedEdges(ix: Admitted, rows: seq<Row>, owners: seq<nat>): set<Pair> {
    set p | p in ComponentEdges(rows, ix.sccs) && p.0 in AffectedSccs(ix, owners)
  }

  /** The owners of all components fed by the seeds' components are the least replay. */
  lemma FedIsLeast(ix: Admitted, rows: seq<Row>, seeds: seq<nat>, roots: seq<nat>, owners: seq<nat>)
    requires Faithful(rows, ix) && forall s | s in seeds :: s in ix.ownerScc
    requires forall c :: c in roots <==> exists s :: s in seeds && ix.ownerScc[s] == c
    requires forall o :: o in owners <==> o in ix.ownerScc && Fed(ix, SetOf(roots), ix.ownerScc[o])
    ensures LeastReplay(ix.sccs, rows, SetOf(seeds), SetOf(owners))
  {
    hide Faithful, Fed;
    var from, start, result := SetOf(roots), SetOf(seeds), SetOf(owners);
    forall s | s in start ensures s in result {
      RootIsFed(ix, from, ix.ownerScc[s]);
    }
    FedIsClosed(ix, rows, from, result);
    forall t: set<nat> | start <= t && ClosedUnderReplay(ix.sccs, rows, t) ensures result <= t {
      forall d | d in from ensures exists o :: o in t && o in ix.ownerScc && ix.ownerScc[o] == d {
        var s :| s in seeds && ix.ownerScc[s] == d;
        assert s in start;
      }
      forall o | o in result ensures o in t {
        FedStaysInside(ix, rows, from, t, ix.ownerScc[o]);
      }
    }
  }

  lemma RootIsFed(ix: Admitted, from: set<nat>, c: nat)
    requires c in from
    ensures Fed(ix, from, c)
  {
    ReachesSelf(Spread(ix), c);
  }

  lemma FedIsClosed(ix: Admitted, rows: seq<Row>, from: set<nat>, result: set<nat>)
    requires Faithful(rows, ix)
    requires forall o :: o in result <==> o in ix.ownerScc && Fed(ix, from, ix.ownerScc[o])
    ensures ClosedUnderReplay(ix.sccs, rows, result)
  {
    hide Fed, Faithful, Consumers;
    FaithfulTable(rows, ix);
    forall k, x, y | 0 <= k < |ix.sccs| && x in ix.sccs[k] && y in ix.sccs[k] && x in result ensures y in result {
      SameComponent(ix.sccs, ix.ownerScc, k, x);
      SameComponent(ix.sccs, ix.ownerScc, k, y);
    }
    forall r | r in rows && r.dependency in result ensures r.consumer in result {
      RowFeeds(ix, rows, r);
      if ix.ownerScc[r.dependency] != ix.ownerScc[r.consumer] {
        FedConsumer(ix, from, ix.ownerScc[r.dependency], ix.ownerScc[r.consumer]);
      }
    }
  }

  lemma RowFeeds(ix: Admitted, rows: seq<Row>, r: Row)
    requires Faithful(rows, ix) && r in rows
    ensures r.dependency in ix.ownerScc && r.consumer in ix.ownerScc && ix.ownerScc[r.dependency] < |ix.sccs|
    ensures ix.ownerScc[r.dependency] != ix.ownerScc[r.consumer] ==>
              ix.ownerScc[r.consumer] in Consumers(ix, ix.ownerScc[r.dependency])
  {
    hide Consumers, Disjoint;
    var i, j := ix.ownerScc[r.dependency], ix.ownerScc[r.consumer];
    if i != j {
      assert r.dependency in ix.sccs[i] && r.consumer in ix.sccs[j];
      assert (i, j) in ComponentEdges(rows, ix.sccs);
    }
  }

  /** A closed set that holds one owner of each root component holds every fed component. */
  lemma FedStaysInside(ix: Admitted, rows: seq<Row>, from: set<nat>, t: set<nat>, c: nat)
    requires Faithful(rows, ix) && ClosedUnderReplay(ix.sccs, rows, t) && Fed(ix, from, c)
    requires forall d | d in from :: exists o :: o in t && o in ix.ownerScc && ix.ownerScc[o] == d
    ensures forall o | o in ix.ownerScc && ix.ownerScc[o] == c :: o in t
  {
    hide Faithful, Consumers, Reaches, Disjoint, ClosedUnderReplay;
    FaithfulTable(rows, ix);
    var inside := set d | d in UpTo(|ix.sccs|) && forall o | o in ix.sccs[d] :: o in t;
    forall d: nat, e: nat | d in inside && Edge(Spread(ix), d, e) ensures e in inside {
      EdgeStaysInside(ix, rows, t, d, e);
    }
    var root :| root in from && Reaches(Spread(ix), root, c);
    RootIsInside(ix, rows, t, root);
    ClosedContainsReachable(Spread(ix), inside, root, c);
    forall o | o in ix.ownerScc && ix.ownerScc[o] == c ensures o in t {
      TableAt(ix.sccs, ix.ownerScc, o);
    }
  }

  lemma RootIsInside(ix: Admitted, rows: seq<Row>, t: set<nat>, root: nat)
    requires Faithful(rows, ix) && ClosedUnderReplay(ix.sccs, rows, t)
    requires exists o :: o in t && o in ix.ownerScc && ix.ownerScc[o] == root
    ensures root < |ix.sccs| && forall o | o in ix.sccs[root] :: o in t
  {
    hide Faithful, Disjoint;
    FaithfulTable(rows, ix);
    var first :| first in t && first in ix.ownerScc && ix.ownerScc[first] == root;
    TableAt(ix.sccs, ix.ownerScc, first);
  }

  lemma EdgeStaysInside(ix: Admitted, rows: seq<Row>, t: set<nat>, d: nat, e: nat)
    requires Faithful(rows, ix) && ClosedUnderReplay(ix.sccs, rows, t) && d < |ix.sccs| && e in Consumers(ix, d)
    requires forall o | o in ix.sccs[d] :: o in t
    ensures e < |ix.sccs| && forall o | o in ix.sccs[e] :: o in t
  {
    hide Faithful, Consumers;
    EdgeHasRow(ix, rows, d, e);
  }

  lemma EdgeHasRow(ix: Admitted, rows: seq<Row>, d: nat, e: nat)
    requires Faithful(rows, ix) && d < |ix.sccs| && e in Consumers(ix, d)
    ensures e < |ix.sccs| && exists r :: r in rows && r.dependency in ix.sccs[d] && r.consumer in ix.sccs[e]
  {
    hide Consumers, Table, Disjoint;
    assert (d, e) in ComponentEdges(rows, ix.sccs);
  }

  /** The walk pops each affected component once and probes each edge that leaves one once. */
  lemma WorkIsSparse(ix: Admitted, rows: seq<Row>, pending: seq<nat>, owners: seq<nat>)
    requires Faithful(rows, ix) && Distinct(pending) && forall c | c in pending :: c < |ix.sccs|
    requires forall k | 0 <= k < |ix.sccs| :: ix.sccs[k] != []
    requires forall o :: o in owners <==> o in ix.ownerScc && ix.ownerScc[o] in pending
    ensures |pending| == |AffectedSccs(ix, owners)| && Probes(ix, pending) == |AffectedEdges(ix, rows, owners)|
  {
    hide Faithful, Probes;
    FaithfulTable(rows, ix);
    DistinctCount(pending);
    var popped := SetOf(pending);
    forall c | c in popped ensures c in AffectedSccs(ix, owners) {
      var o := ix.sccs[c][0];
      HeadIn(ix.sccs[c]);
      SameComponent(ix.sccs, ix.ownerScc, c, o);
    }
    assert popped == AffectedSccs(ix, owners);
    ProbesAreEdges(ix, rows, pending);
    assert AffectedEdges(ix, rows, owners) == LeavingEdges(ix, rows, popped);
  }

  ghost function LeavingEdges(ix: Admitted, rows: seq<Row>, from: set<nat>): set<Pair> {
    set p | p in ComponentEdges(rows, ix.sccs) && p.0 in from
  }

  lemma {:induction false} ProbesAreEdges(ix: Admitted, rows: seq<Row>, popped: seq<nat>)
    requires Faithful(rows, ix) && Distinct(popped) && forall c | c in popped :: c < |ix.sccs|
    ensures Probes(ix, popped) == |LeavingEdges(ix, rows, SetOf(popped))|
  {
    hide Faithful, ComponentEdges, Consumers;
    if popped == [] {
      assert LeavingEdges(ix, rows, SetOf(popped)) == {};
    } else {
      var last, rest := popped[|popped| - 1], popped[..|popped| - 1];
      assert popped == rest + [last];
      assert last !in rest && last in popped;
      assert forall c | c in rest :: c in popped;
      ProbesAreEdges(ix, rows, rest);
      var out := LeavingEdges(ix, rows, {last});
      SliceSize(ix, rows, last);
      assert LeavingEdges(ix, rows, SetOf(popped)) == LeavingEdges(ix, rows, SetOf(rest)) + out;
      assert LeavingEdges(ix, rows, SetOf(rest)) !! out;
    }
  }

  lemma SliceSize(ix: Admitted, rows: seq<Row>, d: nat)
    requires Faithful(rows, ix) && d < |ix.sccs|
    ensures |Consumers(ix, d)| == |LeavingEdges(ix, rows, {d})|
  {
    hide Consumers, ComponentEdges, Table, Disjoint;
    var consumers := Consumers(ix, d);
    var pairs := seq(|consumers|, i requires 0 <= i < |consumers| => (d, consumers[i]));
    forall p ensures p in pairs <==> p in LeavingEdges(ix, rows, {d}) {
      if p in LeavingEdges(ix, rows, {d}) {
        var i :| 0 <= i < |consumers| && consumers[i] == p.1;
        assert pairs[i] == p;
      }
    }
    DistinctSize(pairs, LeavingEdges(ix, rows, {d}));
  }

  // ------------------------------------------------------------------ agreement

  /** On a canonical listing the least replay of some seeds is every owner that depends on one. */
  lemma LeastIsDependents(owners: seq<nat>, rows: seq<Row>, comps: seq<Component>, seeds: set<nat>, s: set<nat>)
    requires RowsWithin(owners, rows) && Canonical(GraphOf(owners, rows), comps) && LeastReplay(comps, rows, seeds, s)
    ensures forall o :: o in s <==> Dependent(GraphOf(owners, rows), seeds, o)
  {
    hide GraphOf, Canonical, Reaches, RowsWithin, LeastReplay;
    EdgesAreRows(owners, rows);
    ReplayedDepends(GraphOf(owners, rows), rows, comps, seeds, s);
    forall o, seed | seed in seeds && Reaches(GraphOf(owners, rows), o, seed) ensures o in s {
      DependentIsReplayed(GraphOf(owners, rows), rows, comps, seeds, s, o, seed);
    }
  }

  ghost predicate Dependent(g: Graph<nat>, seeds: set<nat>, o: nat) {
    exists seed :: seed in seeds && Reaches(g, o, seed)
  }

  ghost function Dependents(g: Graph<nat>, seeds: set<nat>): set<nat> {
    set o | o in Vertices(g) + seeds && Dependent(g, seeds, o)
  }

  lemma ReplayedDepends(g: Graph<nat>, rows: seq<Row>, comps: seq<Component>, seeds: set<nat>, s: set<nat>)
    requires (forall c, d :: Edge(g, c, d) <==> Row(d, c) in rows) && Canonical(g, comps)
    requires LeastReplay(comps, rows, seeds, s)
    ensures forall o | o in s :: Dependent(g, seeds, o)
  {
    hide Canonical, Reaches, Vertices, ClosedUnderReplay, Dependent;
    CanonicalParts(g, comps);
    DependentsAreClosed(g, rows, comps, seeds);
    SeedsDepend(g, seeds);
    assert s <= Dependents(g, seeds);
  }

  lemma CanonicalParts(g: Graph<nat>, comps: seq<Component>)
    requires Canonical(g, comps)
    ensures Classes(g, comps) && Members(comps) == Vertices(g)
  {
  }

  lemma SeedsDepend(g: Graph<nat>, seeds: set<nat>)
    ensures forall seed | seed in seeds :: Dependent(g, seeds, seed)
  {
    forall seed | seed in seeds ensures Dependent(g, seeds, seed) {
      ReachesSelf(g, seed);
    }
  }

  lemma DependentIsReplayed(g: Graph<nat>, rows: seq<Row>, comps: seq<Component>, seeds: set<nat>, s: set<nat>,
                            o: nat, seed: nat)
    requires forall c, d :: Edge(g, c, d) <==> Row(d, c) in rows
    requires LeastReplay(comps, rows, seeds, s) && seed in seeds && Reaches(g, o, seed)
    ensures o in s
  {
    forall a, b | b in s && Edge(g, a, b) ensures a in s {
      assert Row(b, a) in rows;
    }
    BackwardClosedContains(g, s, o, seed);
  }

  lemma DependentsAreClosed(g: Graph<nat>, rows: seq<Row>, comps: seq<Component>, seeds: set<nat>)
    requires (forall c, d :: Edge(g, c, d) <==> Row(d, c) in rows) && Classes(g, comps)
    requires Members(comps) == Vertices(g)
    ensures ClosedUnderReplay(comps, rows, Dependents(g, seeds))
  {
    hide Reaches, Vertices;
    var t := Dependents(g, seeds);
    forall k, x, y | 0 <= k < |comps| && x in comps[k] && y in comps[k] && x in t ensures y in t {
      assert MutuallyReachable(g, x, y);
      DependentChain(g, seeds, y, x);
      assert y in Members(comps);
    }
    forall r | r in rows && r.dependency in t ensures r.consumer in t {
      assert Row(r.dependency, r.consumer) == r;
      ReachesEdge(g, r.consumer, r.dependency);
      DependentChain(g, seeds, r.consumer, r.dependency);
      SourceIsVertex(g, r.consumer, r.dependency);
    }
  }

  lemma DependentChain(g: Graph<nat>, seeds: set<nat>, y: nat, x: nat)
    requires Reaches(g, y, x) && Dependent(g, seeds, x)
    ensures Dependent(g, seeds, y)
  {
    var seed :| seed in seeds && Reaches(g, x, seed);
    ReachesTransitive(g, y, x, seed);
  }

  lemma SourceIsVertex(g: Graph<nat>, a: nat, b: nat)
    requires Edge(g, a, b)
    ensures a in Vertices(g)
  {
  }

  lemma LeastIsUnique(comps: seq<Component>, rows: seq<Row>, seeds: set<nat>, s: set<nat>, t: set<nat>)
    requires LeastReplay(comps, rows, seeds, s) && LeastReplay(comps, rows, seeds, t)
    ensures s == t
  {
  }

  /** Admission, the sparse scheduler and the oracle together: on an admitted index the scheduler
      emits what the oracle finds, which is every owner that depends on the seed. */
  method SchedulerMatchesOracle(owners: seq<nat>, rows: seq<Row>, comps: seq<Component>, seed: nat)
      returns (admitted: bool, emitted: seq<nat>, scanned: set<nat>)
    requires seed in owners
    ensures admitted ==> Canonical(GraphOf(owners, rows), comps)
    ensures admitted ==> scanned == SetOf(emitted)
    ensures admitted ==> forall o :: o in emitted <==> Reaches(GraphOf(owners, rows), o, seed)
  {
    hide Canonical, GraphOf, Reaches, Faithful, ReplayOrdered, AffectedSccs, AffectedEdges, LeastReplay, RowsWithin, Fits;
    var r := Admit(owners, rows, comps);
    emitted, scanned := [], {};
    admitted := r.Ok?;
    if admitted {
      CanonicalTable(owners, rows, comps, r.value);
      var out, pops, probes := ScheduleSparse(r.value, [seed], rows);
      assert seed in [seed];
      emitted := out.value;
      scanned := FullScanOracle(comps, rows, seed);
      assert SetOf([seed]) == {seed};
      LeastIsUnique(comps, rows, {seed}, SetOf(emitted), scanned);
      LeastIsDependents(owners, rows, comps, {seed}, scanned);
      forall o ensures o in emitted <==> Reaches(GraphOf(owners, rows), o, seed) {
        assert o in scanned <==> o in emitted;
        assert seed in {seed} && (Dependent(GraphOf(owners, rows), {seed}, o) <==> Reaches(GraphOf(owners, rows), o, seed));
      }
    }
  }

  lemma CanonicalTable(owners: seq<nat>, rows: seq<Row>, comps: seq<Component>, ix: Admitted)
    requires RowsWithin(owners, rows) && Canonical(GraphOf(owners, rows), comps) && ix.sccs == comps && Faithful(rows, ix)
    ensures forall k | 0 <= k < |comps| :: comps[k] != [] && Ascending(comps[k])
    ensures forall o :: o in ix.ownerScc <==> o in owners
  {
    hide GraphOf;
    EdgesAreRows(owners, rows);
  }
}
