/** Emission of the components: the condensation in dependency-first order, smallest ready first. */
module ComponentOrder {
  import opened Counting
  import opened Graphs
  import opened FinishOrder
  import opened Components

  /** In-place order of one component. */
  method SortDistinct(s: seq<nat>) returns (t: seq<nat>)
    requires Distinct(s)
    ensures Ascending(t) && forall x :: x in t <==> x in s
  {
    t := [];
    for i := 0 to |s|
      invariant Ascending(t) && forall x :: x in t <==> x in s[..i]
    {
      assert forall j | 0 <= j < i :: s[..i][j] == s[j] != s[i];
      t := InsertAscending(t, s[i]);
      assert s[..i + 1] == s[..i] + [s[i]];
    }
    assert s[..|s|] == s;
  }

  method InsertAscending(s: seq<nat>, x: nat) returns (t: seq<nat>)
    requires Ascending(s) && x !in s
    ensures Ascending(t) && forall y :: y in t <==> y in s || y == x
  {
    var k := 0;
    while k < |s| && s[k] < x
      invariant 0 <= k <= |s| && forall j | 0 <= j < k :: s[j] < x
    {
      k := k + 1;
    }
    assert forall j | k <= j < |s| :: x < s[j];
    assert s == s[..k] + s[k..];
    t := s[..k] + [x] + s[k..];
  }

  /** After every flood, all consumers of the flooded components have been flooded. */
  ghost predicate ConsumersEarlier(g: Graph<nat>, comps: seq<Component>) {
    forall k | 0 <= k <= |comps| :: BackwardClosed(g, Members(comps[..k]))
  }

  lemma MembersOfPush(comps: seq<Component>, c: Component)
    ensures forall x :: x in Members(comps + [c]) <==> x in Members(comps) || x in c
  {
    var all := comps + [c];
    forall x | x in Members(comps) || x in c ensures x in Members(all) {
      if x in Members(comps) {
        var k := MemberOf(comps, x);
        assert all[k] == comps[k];
      } else {
        assert all[|comps|] == c;
      }
    }
  }

  ghost predicate Flooded(g: Graph<nat>, comps: seq<Component>) {
    && (forall k | 0 <= k < |comps| :: comps[k] != [] && Ascending(comps[k]))
    && Disjoint(comps) && Classes(g, comps) && ConsumersEarlier(g, comps)
  }

  lemma PushClass(g: Graph<nat>, comps: seq<Component>, root: nat, c: Component)
    requires Flooded(g, comps) && c != [] && Ascending(c)
    requires forall x :: x in c <==> MutuallyReachable(g, root, x)
    requires forall x | x in c :: x !in Members(comps)
    requires BackwardClosed(g, Members(comps + [c]))
    ensures Flooded(g, comps + [c])
  {
    var all := comps + [c];
    forall i, j, x | 0 <= i < |all| && 0 <= j < |all| && x in all[i] && x in all[j] ensures i == j {
      if i < |comps| {
        assert x in comps[i] && x in Members(comps);
      }
      if j < |comps| {
        assert x in comps[j] && x in Members(comps);
      }
    }
    forall x, y | x in c ensures y in c <==> MutuallyReachable(g, x, y) {
      if y in c {
        ReachesTransitive(g, x, root, y);
        ReachesTransitive(g, y, root, x);
      }
      if MutuallyReachable(g, x, y) {
        ReachesTransitive(g, root, x, y);
        ReachesTransitive(g, y, x, root);
      }
    }
    forall k, x, y | 0 <= k < |all| && x in all[k] ensures y in all[k] <==> MutuallyReachable(g, x, y) {
      if k < |comps| {
        assert all[k] == comps[k];
      }
    }
    forall k | 0 <= k <= |all| ensures BackwardClosed(g, Members(all[..k])) {
      if k <= |comps| {
        assert all[..k] == comps[..k];
      } else {
        assert all[..k] == all;
      }
    }
  }

  /** The second pass as a whole. */
  method Classify(g: Graph<nat>, starts: seq<nat>) returns (comps: seq<Component>)
    requires forall n :: n in starts <==> n in g
    ensures Flooded(g, comps) && Members(comps) == Vertices(g)
  {
    hide Finished, Flooded, Members, Vertices, BackwardClosed, Reaches, Distinct, Ascending;
    ghost var open;
    var order;
    order, open := FinishPass(g, starts);
    FinishedIsDistinct(g, order, open);
    var reverse := Reverse(g, starts);
    comps := [];
    var seen: set<nat> := {};
    NothingFlooded(g);
    var i := |order|;
    while i > 0
      invariant 0 <= i <= |order|
      invariant Flooded(g, comps) && seen == Members(comps) && seen <= Vertices(g)
      invariant BackwardClosed(g, seen)
      invariant forall k | i <= k < |order| :: order[k] in seen
    {
      i := i - 1;
      if order[i] !in seen {
        ghost var before := seen;
        ReachesSelf(g, order[i]);
        var component;
        component, seen := Flood(g, reverse, order, i, seen, open);
        var sorted := SortDistinct(component);
        assert order[i] in sorted;
        MembersOfPush(comps, sorted);
        assert seen == Members(comps + [sorted]);
        PushClass(g, comps, order[i], sorted);
        comps := comps + [sorted];
      }
    }
    forall n | n in Vertices(g) ensures n in seen {
      var k :| 0 <= k < |order| && order[k] == n;
    }
  }

  lemma FinishedIsDistinct(g: Graph<nat>, order: seq<nat>, open: map<nat, set<nat>>)
    requires Finished(g, order, open)
    ensures Distinct(order)
  {
  }

  lemma NothingFlooded(g: Graph<nat>)
    ensures Flooded(g, []) && Members([]) == {} && BackwardClosed(g, {})
  {
  }

  // ------------------------------------------------------------------ condensation

  /** The components `c` depends on, other than itself. */
  ghost function Needs(g: Graph<nat>, comps: seq<Component>, c: nat): set<nat>
    requires c < |comps|
  {
    set d | 0 <= d < |comps| && d != c && DependsOn(g, comps[c], comps[d])
  }

  ghost predicate DependsOn(g: Graph<nat>, c: Component, d: Component) {
    exists u, v :: u in c && v in d && Edge(g, u, v)
  }

  /** A component only needs components flooded after it. */
  lemma NeedsAreLater(g: Graph<nat>, comps: seq<Component>, c: nat, d: nat)
    requires Flooded(g, comps) && c < |comps| && d in Needs(g, comps, c)
    ensures c < d
  {
    var u, v :| u in comps[c] && v in comps[d] && Edge(g, u, v);
    assert comps[..d + 1][d] == comps[d];
    assert v in Members(comps[..d + 1]);
    assert BackwardClosed(g, Members(comps[..d + 1]));
    var k := MemberOf(comps[..d + 1], u);
    assert comps[k] == comps[..d + 1][k];
  }

  /** The component that holds each node. */
  method ComponentIndex(comps: seq<Component>) returns (at: map<nat, nat>)
    requires Disjoint(comps)
    ensures forall x :: x in at <==> x in Members(comps)
    ensures forall x | x in at :: at[x] < |comps| && x in comps[at[x]]
  {
    at := map[];
    for i := 0 to |comps|
      invariant forall x :: x in at <==> x in Members(comps[..i])
      invariant forall x | x in at :: at[x] < |comps| && x in comps[at[x]]
    {
      MembersOfPush(comps[..i], comps[i]);
      assert comps[..i + 1] == comps[..i] + [comps[i]];
      for j := 0 to |comps[i]|
        invariant forall x :: x in at <==> x in Members(comps[..i]) || x in comps[i][..j]
        invariant forall x | x in at :: at[x] < |comps| && x in comps[at[x]]
      {
        assert comps[i][..j + 1] == comps[i][..j] + [comps[i][j]];
        at := at[comps[i][j] := i];
      }
      assert comps[i][..|comps[i]|] == comps[i];
    }
    assert comps[..|comps|] == comps;
  }

  /** The components with a successor of `u`. */
  ghost function Touched(g: Graph<nat>, comps: seq<Component>, u: nat): set<nat> {
    set d | 0 <= d < |comps| && DependsOn(g, [u], comps[d])
  }

  ghost predicate Indexed(g: Graph<nat>, comps: seq<Component>, at: map<nat, nat>) {
    && Disjoint(comps)
    && (forall x :: x in at <==> x in Vertices(g))
    && (forall x | x in at :: at[x] < |comps| && x in comps[at[x]])
  }

  lemma EdgeTouches(g: Graph<nat>, comps: seq<Component>, at: map<nat, nat>, u: nat, v: nat)
    requires Indexed(g, comps, at) && Edge(g, u, v)
    ensures v in at && at[v] in Touched(g, comps, u)
    ensures forall d | 0 <= d < |comps| && v in comps[d] :: d == at[v]
  {
    assert v in Vertices(g);
    assert u in [u];
    assert DependsOn(g, [u], comps[at[v]]);
  }

  method TouchedBy(g: Graph<nat>, comps: seq<Component>, at: map<nat, nat>, u: nat) returns (touched: set<nat>)
    requires Indexed(g, comps, at)
    ensures touched == Touched(g, comps, u)
  {
    hide Indexed;
    touched := {};
    var targets := Successors(g, u);
    for j := 0 to |targets|
      invariant forall d | d in touched :: d in Touched(g, comps, u)
      invariant forall i | 0 <= i < j :: targets[i] in at && at[targets[i]] in touched
    {
      var v := targets[j];
      assert Edge(g, u, v);
      EdgeTouches(g, comps, at, u, v);
      touched := touched + {at[v]};
    }
    forall d | d in Touched(g, comps, u) ensures d in touched {
      var x, v :| x in [u] && v in comps[d] && Edge(g, x, v);
      var i :| 0 <= i < |targets| && targets[i] == v;
      EdgeTouches(g, comps, at, u, v);
    }
  }

  /** The out-edges of one component in the condensation. */
  method Dependencies(g: Graph<nat>, comps: seq<Component>, at: map<nat, nat>, c: nat) returns (needs: set<nat>)
    requires c < |comps| && Indexed(g, comps, at)
    ensures needs == Needs(g, comps, c)
  {
    hide Indexed, Touched, Needs;
    needs := {};
    for i := 0 to |comps[c]|
      invariant needs <= Needs(g, comps, c)
      invariant forall k | 0 <= k < i :: Touched(g, comps, comps[c][k]) - {c} <= needs
    {
      var touched := TouchedBy(g, comps, at, comps[c][i]);
      TouchedIsNeeded(g, comps, c, i);
      needs := needs + (touched - {c});
    }
    NeededIsTouched(g, comps, c, needs);
  }

  lemma TouchedIsNeeded(g: Graph<nat>, comps: seq<Component>, c: nat, i: nat)
    requires c < |comps| && i < |comps[c]|
    ensures Touched(g, comps, comps[c][i]) - {c} <= Needs(g, comps, c)
  {
    forall d | d in Touched(g, comps, comps[c][i]) - {c} ensures d in Needs(g, comps, c) {
      var u, v :| u in [comps[c][i]] && v in comps[d] && Edge(g, u, v);
      assert u in comps[c];
    }
  }

  lemma NeededIsTouched(g: Graph<nat>, comps: seq<Component>, c: nat, needs: set<nat>)
    requires c < |comps|
    requires forall k | 0 <= k < |comps[c]| :: Touched(g, comps, comps[c][k]) - {c} <= needs
    ensures Needs(g, comps, c) <= needs
  {
    forall d | d in Needs(g, comps, c) ensures d in needs {
      var u, v :| u in comps[c] && v in comps[d] && Edge(g, u, v);
      var k :| 0 <= k < |comps[c]| && comps[c][k] == u;
      assert u in [u];
      assert d in Touched(g, comps, comps[c][k]);
    }
  }

  /** The condensation, component by component. */
  method AllNeeds(g: Graph<nat>, comps: seq<Component>) returns (left: map<nat, set<nat>>)
    requires Disjoint(comps) && Members(comps) == Vertices(g)
    ensures left.Keys == UpTo(|comps|)
    ensures forall c | c in left :: c < |comps| && left[c] == Needs(g, comps, c)
  {
    var at := ComponentIndex(comps);
    left := map[];
    for c := 0 to |comps|
      invariant left.Keys == UpTo(c)
      invariant forall k | k in left :: k < |comps| && left[k] == Needs(g, comps, k)
    {
      var needs := Dependencies(g, comps, at, c);
      left := left[c := needs];
    }
  }

  ghost function Indices(s: seq<nat>): set<nat> {
    set i | 0 <= i < |s| :: s[i]
  }

  /** Some unemitted component always has all it needs. */
  lemma SomeReady(g: Graph<nat>, comps: seq<Component>, emitted: set<nat>) returns (c: nat)
    requires Flooded(g, comps)
    requires exists k: nat :: k < |comps| && k !in emitted
    ensures c < |comps| && c !in emitted && Needs(g, comps, c) <= emitted
  {
    var k: nat :| k < |comps| && k !in emitted;
    c := |comps| - 1;
    while c in emitted
      invariant k <= c < |comps|
      invariant forall d | c < d < |comps| :: d in emitted
      decreases c
    {
      c := c - 1;
    }
    forall d | d in Needs(g, comps, c) ensures d in emitted {
      NeedsAreLater(g, comps, c, d);
    }
  }

  /** The ready component with the least first member. */
  method LeastReady(comps: seq<Component>, ready: set<nat>) returns (c: nat)
    requires ready != {} && forall r | r in ready :: r < |comps| && comps[r] != []
    ensures c in ready && forall r | r in ready :: comps[c][0] <= comps[r][0]
  {
    c :| c in ready;
    var rest := ready - {c};
    while rest != {}
      invariant c in ready && rest <= ready
      invariant forall r | r in ready - rest :: comps[c][0] <= comps[r][0]
      decreases rest
    {
      var r :| r in rest;
      if comps[r][0] < comps[c][0] {
        c := r;
      }
      rest := rest - {r};
    }
  }

  ghost function Listed(comps: seq<Component>, emitted: seq<nat>): seq<Component> {
    seq(|emitted|, i requires 0 <= i < |emitted| => if emitted[i] < |comps| then comps[emitted[i]] else [])
  }

  /** Every emitted component had all it needs and was least among those that did. */
  ghost predicate EmittedWell(g: Graph<nat>, comps: seq<Component>, emitted: seq<nat>) {
    && Distinct(emitted)
    && (forall i | 0 <= i < |emitted| :: emitted[i] < |comps| && comps[emitted[i]] != [])
    && (forall i | 0 <= i < |emitted| :: Needs(g, comps, emitted[i]) <= Indices(emitted[..i]))
    && (forall i, r | 0 <= i < |emitted| && 0 <= r < |comps| && r !in emitted[..i] && comps[r] != []
                      && Needs(g, comps, r) <= Indices(emitted[..i]) :: comps[emitted[i]][0] <= comps[r][0])
  }

  /** What is left to emit, and what each component still waits for. */
  ghost predicate Waits(g: Graph<nat>, comps: seq<Component>, left: map<nat, set<nat>>, emitted: seq<nat>) {
    && (forall c :: c in left <==> 0 <= c < |comps| && c !in Indices(emitted))
    && (forall c | c in left :: left[c] == Needs(g, comps, c) - Indices(emitted))
  }

  method NextReady(g: Graph<nat>, comps: seq<Component>, left: map<nat, set<nat>>, ghost emitted: seq<nat>) returns (c: nat)
    requires Flooded(g, comps) && EmittedWell(g, comps, emitted) && Waits(g, comps, left, emitted)
    requires left.Keys != {}
    ensures c in left && c < |comps| && EmittedWell(g, comps, emitted + [c])
    ensures Indices(emitted + [c]) == Indices(emitted) + {c}
  {
    hide Flooded, EmittedWell, Indices, Needs;
    AllNonEmpty(g, comps);
    var ready := set c | c in left && left[c] == {};
    ghost var k :| k in left;
    ghost var some := SomeReady(g, comps, Indices(emitted));
    assert some in ready;
    c := LeastReady(comps, ready);
    forall r | r in ready ensures Needs(g, comps, r) <= Indices(emitted) {
      NothingMissing(Needs(g, comps, r), Indices(emitted));
    }
    PushEmitted(g, comps, emitted, c, ready);
  }

  lemma NothingMissing(a: set<nat>, b: set<nat>)
    requires a - b == {}
    ensures a <= b
  {
    forall x | x in a ensures x in b {
      assert x in b || x in a - b;
    }
  }

  lemma AllNonEmpty(g: Graph<nat>, comps: seq<Component>)
    requires Flooded(g, comps)
    ensures Disjoint(comps) && forall k | 0 <= k < |comps| :: comps[k] != []
  {
  }

  /** Emit smallest ready first. */
  method Emit(g: Graph<nat>, comps: seq<Component>) returns (sorted: seq<Component>, ghost emitted: seq<nat>)
    requires Flooded(g, comps) && Members(comps) == Vertices(g)
    ensures EmittedWell(g, comps, emitted) && forall c: nat | c < |comps| :: c in Indices(emitted)
    ensures sorted == Listed(comps, emitted)
  {
    hide Flooded, EmittedWell, Needs, Indices, Waits, UpTo;
    AllNonEmpty(g, comps);
    var left := AllNeeds(g, comps);
    sorted, emitted := [], [];
    NothingEmitted(g, comps, left);
    while left.Keys != {}
      invariant EmittedWell(g, comps, emitted) && sorted == Listed(comps, emitted)
      invariant Waits(g, comps, left, emitted)
      decreases left.Keys
    {
      var c := NextReady(g, comps, left, emitted);
      ghost var before, done := left, emitted;
      left := map d | d in left && d != c :: left[d] - {c};
      StillWaits(g, comps, before, done, c, left);
      emitted := emitted + [c];
      sorted := sorted + [comps[c]];
    }
    NothingWaits(g, comps, left, emitted);
  }

  lemma StillWaits(g: Graph<nat>, comps: seq<Component>, left: map<nat, set<nat>>, emitted: seq<nat>, c: nat, after: map<nat, set<nat>>)
    requires Waits(g, comps, left, emitted) && Indices(emitted + [c]) == Indices(emitted) + {c}
    requires after == map d | d in left && d != c :: left[d] - {c}
    ensures Waits(g, comps, after, emitted + [c])
  {
    hide Needs, Indices;
  }

  lemma NothingWaits(g: Graph<nat>, comps: seq<Component>, left: map<nat, set<nat>>, emitted: seq<nat>)
    requires Waits(g, comps, left, emitted) && left.Keys == {}
    ensures forall c: nat | c < |comps| :: c in Indices(emitted)
  {
    hide Needs, Indices;
    forall c: nat | c < |comps| ensures c in Indices(emitted) {
      assert c !in left;
    }
  }

  lemma NothingEmitted(g: Graph<nat>, comps: seq<Component>, left: map<nat, set<nat>>)
    requires left.Keys == UpTo(|comps|)
    requires forall c | c in left :: c < |comps| && left[c] == Needs(g, comps, c)
    ensures EmittedWell(g, comps, []) && Waits(g, comps, left, []) && Listed(comps, []) == []
  {
  }

  lemma PushEmitted(g: Graph<nat>, comps: seq<Component>, emitted: seq<nat>, c: nat, ready: set<nat>)
    requires EmittedWell(g, comps, emitted) && c < |comps| && c !in Indices(emitted) && comps[c] != []
    requires Needs(g, comps, c) <= Indices(emitted)
    requires forall r | 0 <= r < |comps| && r !in Indices(emitted) && Needs(g, comps, r) <= Indices(emitted) :: r in ready
    requires forall r | r in ready :: r < |comps| && comps[r] != [] && comps[c][0] <= comps[r][0]
    ensures EmittedWell(g, comps, emitted + [c])
    ensures Indices(emitted + [c]) == Indices(emitted) + {c}
  {
    var more := emitted + [c];
    assert forall i | 0 <= i < |emitted| :: more[i] == emitted[i] && more[..i] == emitted[..i];
    assert more[..|emitted|] == emitted && more[|emitted|] == c;
    forall x | x in Indices(emitted) + {c} ensures x in Indices(more) {
      if x in Indices(emitted) {
        var i :| 0 <= i < |emitted| && emitted[i] == x;
        assert more[i] == x;
      }
    }
    forall x ensures x in emitted <==> x in Indices(emitted) {
    }
  }

  // ------------------------------------------------------------------ result

  /** The whole search: the canonical listing of the components. */
  method DependencyFirstSccs(g: Graph<nat>, starts: seq<nat>) returns (result: seq<Component>)
    requires forall n :: n in starts <==> n in g
    ensures Canonical(g, result)
  {
    var comps := Classify(g, starts);
    ghost var emitted;
    result, emitted := Emit(g, comps);
    EmissionIsCanonical(g, comps, emitted);
  }

  lemma EmissionIsCanonical(g: Graph<nat>, comps: seq<Component>, emitted: seq<nat>)
    requires Flooded(g, comps) && Members(comps) == Vertices(g)
    requires EmittedWell(g, comps, emitted) && forall c: nat | c < |comps| :: c in Indices(emitted)
    ensures Canonical(g, Listed(comps, emitted))
  {
    hide Flooded, EmittedWell, Partition;
    EmissionIsDistinct(g, comps, emitted);
    EmissionIsPartition(g, comps, emitted);
    EmissionIsOrdered(g, comps, emitted);
    EmissionIsLeast(g, comps, emitted);
  }

  /** A listing of all components, each once. */
  ghost predicate Relisting(comps: seq<Component>, emitted: seq<nat>) {
    && Distinct(emitted)
    && (forall i | 0 <= i < |emitted| :: emitted[i] < |comps|)
    && (forall c: nat | c < |comps| :: c in emitted)
  }

  lemma EmissionIsDistinct(g: Graph<nat>, comps: seq<Component>, emitted: seq<nat>)
    requires EmittedWell(g, comps, emitted) && forall c: nat | c < |comps| :: c in Indices(emitted)
    ensures Relisting(comps, emitted)
  {
    forall c: nat | c < |comps| ensures c in emitted {
      assert c in Indices(emitted);
    }
  }

  lemma ListedMembers(comps: seq<Component>, emitted: seq<nat>)
    requires Relisting(comps, emitted)
    ensures Members(Listed(comps, emitted)) == Members(comps)
  {
    var result := Listed(comps, emitted);
    forall x | x in Members(comps) ensures x in Members(result) {
      var c := MemberOf(comps, x);
      assert c in emitted;
      var i :| 0 <= i < |emitted| && emitted[i] == c;
      assert result[i] == comps[c];
    }
    forall x | x in Members(result) ensures x in Members(comps) {
      var i := MemberOf(result, x);
      assert result[i] == comps[emitted[i]];
    }
  }

  lemma EmissionIsPartition(g: Graph<nat>, comps: seq<Component>, emitted: seq<nat>)
    requires Flooded(g, comps) && Members(comps) == Vertices(g)
    requires Relisting(comps, emitted)
    ensures Partition(g, Listed(comps, emitted))
  {
    hide Members, ConsumersEarlier, MutuallyReachable;
    ListedMembers(comps, emitted);
    var result := Listed(comps, emitted);
    assert forall i | 0 <= i < |result| :: result[i] == comps[emitted[i]];
    assert Disjoint(result);
    assert Classes(g, result);
  }

  lemma EmissionIsOrdered(g: Graph<nat>, comps: seq<Component>, emitted: seq<nat>)
    requires EmittedWell(g, comps, emitted)
    ensures DependencyFirst(g, Listed(comps, emitted))
  {
    var result := Listed(comps, emitted);
    forall i, j, u, v | 0 <= i < |result| && 0 <= j < |result| && u in result[i] && v in result[j] && Edge(g, u, v)
      ensures j <= i
    {
      assert Needs(g, comps, emitted[i]) <= Indices(emitted[..i]);
      EdgeIsOrdered(g, comps, emitted, i, j, u, v);
    }
  }

  lemma EdgeIsOrdered(g: Graph<nat>, comps: seq<Component>, emitted: seq<nat>, i: nat, j: nat, u: nat, v: nat)
    requires Distinct(emitted) && i < |emitted| && j < |emitted| && emitted[i] < |comps| && emitted[j] < |comps|
    requires Needs(g, comps, emitted[i]) <= Indices(emitted[..i])
    requires u in comps[emitted[i]] && v in comps[emitted[j]] && Edge(g, u, v)
    ensures j <= i
  {
    if emitted[j] != emitted[i] {
      assert DependsOn(g, comps[emitted[i]], comps[emitted[j]]);
      assert emitted[j] in Needs(g, comps, emitted[i]);
      var k :| 0 <= k < i && emitted[..i][k] == emitted[j];
      assert emitted[k] == emitted[j];
    } else {
      assert i == j;
    }
  }

  lemma EmissionIsLeast(g: Graph<nat>, comps: seq<Component>, emitted: seq<nat>)
    requires Flooded(g, comps) && EmittedWell(g, comps, emitted)
    ensures LeastReadyFirst(g, Listed(comps, emitted))
  {
    var result := Listed(comps, emitted);
    forall i, j | 0 <= i < j < |result| && result[j] != [] && ReadyAfter(g, result[j], Members(result[..i]))
      ensures result[i][0] <= result[j][0]
    {
      ReadyNeeds(g, comps, emitted, i, j);
      assert emitted[j] !in emitted[..i];
    }
  }

  lemma ReadyNeeds(g: Graph<nat>, comps: seq<Component>, emitted: seq<nat>, i: nat, j: nat)
    requires Disjoint(comps) && i < j < |emitted| && forall k | 0 <= k < |emitted| :: emitted[k] < |comps|
    requires ReadyAfter(g, comps[emitted[j]], Members(Listed(comps, emitted)[..i]))
    ensures Needs(g, comps, emitted[j]) <= Indices(emitted[..i])
  {
    var result := Listed(comps, emitted);
    forall d | d in Needs(g, comps, emitted[j]) ensures d in Indices(emitted[..i]) {
      var u, v :| u in comps[emitted[j]] && v in comps[d] && Edge(g, u, v);
      assert v in Members(result[..i]);
      var k := MemberOf(result[..i], v);
      assert result[..i][k] == comps[emitted[k]];
      assert emitted[k] == d && emitted[..i][k] == d;
    }
  }
}
