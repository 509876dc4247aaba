/** Admission of a generated collision replay index, and the sparse scheduler that walks it.

    Owners are named by their rank in the canonical owner order.  An edge row says that `consumer`
    depends on `dependency`; components are listed dependency first. */
module ReplayIndex {
  import opened Counting
  import opened Graphs
  import opened Components
  import opened ComponentOrder

  datatype Row = Row(dependency: nat, consumer: nat)

  datatype AdmissionError = InvalidDependencyGraph | InvalidSccPartition

  const U32_MAX: nat := 0xFFFF_FFFF

  /** The compact runtime index: the component of each owner, the owners of each component, and
      the consumers of each component as one flat array with offsets. */
  datatype Admitted = Admitted(
    ownerScc: map<nat, nat>,
    sccs: seq<Component>,
    reverseOffsets: seq<nat>,
    reverseEdges: seq<nat>)

  ghost predicate RowLess(a: Row, b: Row) {
    a.dependency < b.dependency || (a.dependency == b.dependency && a.consumer < b.consumer)
  }

  ghost predicate SortedRows(rows: seq<Row>) {
    forall i, j | 0 <= i < j < |rows| :: RowLess(rows[i], rows[j])
  }

  function DependenciesOf(rows: seq<Row>, consumer: nat): seq<nat> {
    if rows == [] then []
    else (if rows[0].consumer == consumer then [rows[0].dependency] else []) + DependenciesOf(rows[1..], consumer)
  }

  /** The dependency graph: consumer to dependency. */
  function GraphOf(owners: seq<nat>, rows: seq<Row>): Graph<nat> {
    map o | o in owners :: DependenciesOf(rows, o)
  }

  lemma {:induction false} DependenciesAreRows(rows: seq<Row>, consumer: nat, d: nat)
    ensures d in DependenciesOf(rows, consumer) <==> Row(d, consumer) in rows
  {
    if rows != [] {
      DependenciesAreRows(rows[1..], consumer, d);
      assert rows == [rows[0]] + rows[1..];
    }
  }

  ghost predicate RowsWithin(owners: seq<nat>, rows: seq<Row>) {
    forall r | r in rows :: r.dependency != r.consumer && r.dependency in owners && r.consumer in owners
  }

  lemma EdgesAreRows(owners: seq<nat>, rows: seq<Row>)
    requires RowsWithin(owners, rows)
    ensures forall c, d :: Edge(GraphOf(owners, rows), c, d) <==> Row(d, c) in rows
    ensures forall o :: o in Vertices(GraphOf(owners, rows)) <==> o in owners
  {
    var g := GraphOf(owners, rows);
    forall c: nat, d: nat ensures Edge(g, c, d) <==> Row(d, c) in rows {
      DependenciesAreRows(rows, c, d);
    }
    forall o | o in Vertices(g) ensures o in owners {
      if o !in g {
        var a, b :| a in g && b in g[a] && b == o;
        assert Edge(g, a, b);
      }
    }
  }

  // ------------------------------------------------------------------ row checks

  method CheckRows(owners: seq<nat>, rows: seq<Row>) returns (ok: bool)
    ensures ok <==> SortedRows(rows) && RowsWithin(owners, rows)
  {
    for i := 0 to |rows|
      invariant SortedRows(rows[..i]) && RowsWithin(owners, rows[..i])
    {
      var r := rows[i];
      assert rows[..i + 1] == rows[..i] + [r];
      var ordered := i == 0 || rows[i - 1].dependency < r.dependency
                     || (rows[i - 1].dependency == r.dependency && rows[i - 1].consumer < r.consumer);
      if !ordered || r.dependency == r.consumer || r.dependency !in owners || r.consumer !in owners {
        assert r in rows;
        assert i > 0 && !ordered ==> !RowLess(rows[i - 1], rows[i]);
        return false;
      }
      forall j | 0 <= j < i ensures RowLess(rows[j], r) {
        assert j < i - 1 ==> RowLess(rows[..i][j], rows[..i][i - 1]);
      }
    }
    assert rows[..|rows|] == rows;
    return true;
  }

  // ------------------------------------------------------------------ component table

  ghost predicate WellShaped(owners: seq<nat>, comps: seq<Component>) {
    && (forall k | 0 <= k < |comps| :: comps[k] != [] && Ascending(comps[k]))
    && Disjoint(comps)
    && (forall o :: o in Members(comps) <==> o in owners)
  }

  ghost predicate Table(comps: seq<Component>, at: map<nat, nat>) {
    && (forall o :: o in at <==> o in Members(comps))
    && (forall o | o in at :: at[o] < |comps| && o in comps[at[o]])
  }

  /** Assign every owner its component, refusing strangers, repeats and gaps. */
  method AssignOwners(owners: seq<nat>, comps: seq<Component>) returns (ok: bool, at: map<nat, nat>)
    ensures ok <==> WellShaped(owners, comps)
    ensures ok ==> Table(comps, at)
  {
    at := map[];
    for k := 0 to |comps|
      invariant Table(comps[..k], at) && Disjoint(comps[..k])
      invariant forall i | 0 <= i < k :: comps[i] != [] && Ascending(comps[i])
      invariant forall o | o in at :: o in owners
    {
      hide Table, Disjoint, WellShaped;
      ok, at := AssignComponent(owners, comps, k, at);
      if !ok {
        return;
      }
    }
    assert comps[..|comps|] == comps;
    ok := forall o | o in owners :: o in at;
  }

  method AssignComponent(owners: seq<nat>, comps: seq<Component>, k: nat, before: map<nat, nat>)
      returns (ok: bool, at: map<nat, nat>)
    requires k < |comps| && Table(comps[..k], before) && Disjoint(comps[..k])
    requires forall o | o in before :: o in owners
    ensures ok ==> comps[k] != [] && Ascending(comps[k]) && Table(comps[..k + 1], at) && Disjoint(comps[..k + 1])
    ensures ok ==> forall o | o in at :: o in owners
    ensures !ok ==> !WellShaped(owners, comps)
  {
    hide Table, Disjoint, Members;
    at := before;
    var c := comps[k];
    var sorted := IsAscending(c);
    if c == [] || !sorted {
      return false, at;
    }
    for j := 0 to |c|
      invariant forall o :: o in at <==> o in before || o in c[..j]
      invariant forall o | o in at :: at[o] == if o in before then before[o] else k
      invariant forall o | o in c[..j] :: o !in before && o in owners
    {
      var owner := c[j];
      assert c[..j + 1] == c[..j] + [owner];
      assert forall m | 0 <= m < j :: c[m] < owner;
      if owner !in owners || owner in at {
        StrangerOrRepeat(owners, comps, k, j, before);
        return false, at;
      }
      at := at[owner := k];
    }
    assert c[..|c|] == c;
    assert comps[..k + 1] == comps[..k] + [c];
    StillDisjoint(comps[..k], c, before);
    StillTable(comps[..k], c, before, at);
    return true, at;
  }

  lemma StillTable(comps: seq<Component>, c: Component, before: map<nat, nat>, at: map<nat, nat>)
    requires Table(comps, before) && forall o | o in c :: o !in before
    requires forall o :: o in at <==> o in before || o in c
    requires forall o | o in at :: at[o] == if o in before then before[o] else |comps|
    ensures Table(comps + [c], at)
  {
    MembersOfPush(comps, c);
  }

  method IsAscending(c: seq<nat>) returns (ok: bool)
    ensures ok <==> Ascending(c)
  {
    for i := 0 to |c|
      invariant Ascending(c[..i])
    {
      if i > 0 && c[i - 1] >= c[i] {
        return false;
      }
      assert i > 0 ==> c[..i][i - 1] == c[i - 1];
    }
    assert c[..|c|] == c;
    return true;
  }

  lemma StrangerOrRepeat(owners: seq<nat>, comps: seq<Component>, k: nat, j: nat, before: map<nat, nat>)
    requires k < |comps| && j < |comps[k]| && Ascending(comps[k])
    requires Table(comps[..k], before)
    requires comps[k][j] !in owners || comps[k][j] in before
    ensures !WellShaped(owners, comps)
  {
    var owner := comps[k][j];
    assert owner in comps[k];
    if owner in before {
      assert comps[..k][before[owner]] == comps[before[owner]];
    } else {
      assert owner in Members(comps);
    }
  }

  lemma StillDisjoint(comps: seq<Component>, c: Component, at: map<nat, nat>)
    requires Disjoint(comps) && Table(comps, at) && forall o | o in c :: o !in at
    ensures Disjoint(comps + [c])
  {
    var all := comps + [c];
    forall i, j, x | 0 <= i < |all| && 0 <= j < |all| && x in all[i] && x in all[j] ensures i == j {
      if i < |comps| {
        assert x in comps[i] && x in Members(comps);
      }
      if j < |comps| {
        assert x in comps[j] && x in Members(comps);
      }
    }
  }
}
