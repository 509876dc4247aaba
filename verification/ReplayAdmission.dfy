/** The component half of index admission: exactly the canonical listing is let in. */
module ReplayAdmission {
  import opened Counting
  import opened Graphs
  import opened ReplayIndex

  type Pair = (nat, nat)

  ghost predicate RowsForward(rows: seq<Row>, at: map<nat, nat>) {
    forall r | r in rows :: r.dependency in at && r.consumer in at && at[r.dependency] <= at[r.consumer]
  }

  /** `h` keeps the edges of the rows inside one component, in the direction `flip` selects. */
  ghost predicate Inner(rows: seq<Row>, at: map<nat, nat>, h: Graph<nat>, flip: bool) {
    forall a, b :: Edge(h, a, b) <==>
      (if flip then Row(a, b) else Row(b, a)) in rows && a in at && b in at && at[a] == at[b]
  }

  /** The component-level edges, from dependency to consumer. */
  ghost predicate Outer(rows: seq<Row>, at: map<nat, nat>, pairs: seq<Pair>) {
    && (forall r | r in rows && r.dependency in at && r.consumer in at && at[r.dependency] != at[r.consumer] ::
          (at[r.dependency], at[r.consumer]) in pairs)
    && (forall p | p in pairs :: p.0 != p.1 &&
          exists r :: r in rows && r.dependency in at && r.consumer in at && p == (at[r.dependency], at[r.consumer]))
  }

  function Push(g: Graph<nat>, from: nat, to: nat): (r: Graph<nat>)
    ensures forall a, b :: Edge(r, a, b) <==> Edge(g, a, b) || (a == from && b == to)
  {
    var r := g[from := (if from in g then g[from] else []) + [to]];
    assert forall a, b :: Edge(r, a, b) <==> Edge(g, a, b) || (a == from && b == to);
    r
  }

  ghost predicate Split(rows: seq<Row>, at: map<nat, nat>, forward: Graph<nat>, reverse: Graph<nat>, pairs: seq<Pair>) {
    RowsForward(rows, at) && Inner(rows, at, forward, false) && Inner(rows, at, reverse, true) && Outer(rows, at, pairs)
  }

  lemma NothingSplit(at: map<nat, nat>)
    ensures Split([], at, map[], map[], [])
  {
  }

  lemma IsSplit(rows: seq<Row>, at: map<nat, nat>, forward: Graph<nat>, reverse: Graph<nat>, pairs: seq<Pair>)
    requires Split(rows, at, forward, reverse, pairs)
    ensures RowsForward(rows, at)
    ensures Inner(rows, at, forward, false) && Inner(rows, at, reverse, true) && Outer(rows, at, pairs)
  {
  }

  /** Split the rows into edges inside a component and edges between components. */
  method SplitRows(rows: seq<Row>, at: map<nat, nat>)
      returns (ok: bool, forward: Graph<nat>, reverse: Graph<nat>, pairs: seq<Pair>)
    requires forall r | r in rows :: r.dependency in at && r.consumer in at
    ensures ok <==> RowsForward(rows, at)
    ensures ok ==> Inner(rows, at, forward, false) && Inner(rows, at, reverse, true) && Outer(rows, at, pairs)
  {
    hide Split, Inner, Outer;
    forward, reverse, pairs := map[], map[], [];
    NothingSplit(at);
    for i := 0 to |rows|
      invariant Split(rows[..i], at, forward, reverse, pairs)
    {
      assert rows[i] in rows;
      if at[rows[i].dependency] > at[rows[i].consumer] {
        return false, forward, reverse, pairs;
      }
      forward, reverse, pairs := SplitRow(rows, i, at, forward, reverse, pairs);
    }
    assert rows[..|rows|] == rows;
    IsSplit(rows, at, forward, reverse, pairs);
    ok := true;
  }

  method SplitRow(rows: seq<Row>, i: nat, at: map<nat, nat>, forward0: Graph<nat>, reverse0: Graph<nat>, pairs0: seq<Pair>)
      returns (forward: Graph<nat>, reverse: Graph<nat>, pairs: seq<Pair>)
    requires i < |rows| && rows[i].dependency in at && rows[i].consumer in at
    requires at[rows[i].dependency] <= at[rows[i].consumer] && Split(rows[..i], at, forward0, reverse0, pairs0)
    ensures Split(rows[..i + 1], at, forward, reverse, pairs)
  {
    hide Inner, Outer;
    var r := rows[i];
    forward, reverse, pairs := forward0, reverse0, pairs0;
    var d, c := at[r.dependency], at[r.consumer];
    if d == c {
      PushInner(rows, i, at, forward, false, r.consumer, r.dependency);
      PushInner(rows, i, at, reverse, true, r.dependency, r.consumer);
      PushOuter(rows, i, at, pairs, pairs);
      forward := Push(forward, r.consumer, r.dependency);
      reverse := Push(reverse, r.dependency, r.consumer);
    } else {
      SkipInner(rows, i, at, forward, false);
      SkipInner(rows, i, at, reverse, true);
      PushOuter(rows, i, at, pairs, pairs + [(d, c)]);
      pairs := pairs + [(d, c)];
    }
    assert rows[..i + 1] == rows[..i] + [r];
  }

  lemma PushInner(rows: seq<Row>, i: nat, at: map<nat, nat>, h: Graph<nat>, flip: bool, from: nat, to: nat)
    requires i < |rows| && Inner(rows[..i], at, h, flip)
    requires rows[i] == if flip then Row(from, to) else Row(to, from)
    requires from in at && to in at && at[from] == at[to]
    ensures Inner(rows[..i + 1], at, Push(h, from, to), flip)
  {
    assert rows[..i + 1] == rows[..i] + [rows[i]];
  }

  lemma SkipInner(rows: seq<Row>, i: nat, at: map<nat, nat>, h: Graph<nat>, flip: bool)
    requires i < |rows| && Inner(rows[..i], at, h, flip)
    requires rows[i].dependency in at && rows[i].consumer in at && at[rows[i].dependency] != at[rows[i].consumer]
    ensures Inner(rows[..i + 1], at, h, flip)
  {
    assert rows[..i + 1] == rows[..i] + [rows[i]];
  }

  lemma PushOuter(rows: seq<Row>, i: nat, at: map<nat, nat>, pairs: seq<Pair>, more: seq<Pair>)
    requires i < |rows| && Outer(rows[..i], at, pairs)
    requires rows[i].dependency in at && rows[i].consumer in at
    requires more == if at[rows[i].dependency] == at[rows[i].consumer] then pairs
                     else pairs + [(at[rows[i].dependency], at[rows[i].consumer])]
    ensures Outer(rows[..i + 1], at, more)
  {
    assert rows[..i + 1] == rows[..i] + [rows[i]];
    forall p | p in more ensures p.0 != p.1 &&
      exists r :: r in rows[..i + 1] && r.dependency in at && r.consumer in at && p == (at[r.dependency], at[r.consumer])
    {
      if p in pairs {
        var r :| r in rows[..i] && r.dependency in at && r.consumer in at && p == (at[r.dependency], at[r.consumer]);
        assert r in rows[..i + 1];
      } else {
        assert rows[i] in rows[..i + 1];
      }
    }
  }

  // ------------------------------------------------------------------ component edges

  ghost predicate PairLess(a: Pair, b: Pair) {
    a.0 < b.0 || (a.0 == b.0 && a.1 < b.1)
  }

  ghost predicate SortedPairs(s: seq<Pair>) {
    forall i, j | 0 <= i < j < |s| :: PairLess(s[i], s[j])
  }

  /** Sort and drop duplicates. */
  method SortDedup(pairs: seq<Pair>) returns (s: seq<Pair>)
    ensures SortedPairs(s) && forall p :: p in s <==> p in pairs
  {
    s := [];
    for i := 0 to |pairs|
      invariant SortedPairs(s) && forall p :: p in s <==> p in pairs[..i]
    {
      var x := pairs[i];
      assert pairs[..i + 1] == pairs[..i] + [x];
      var k := 0;
      while k < |s| && (s[k].0 < x.0 || (s[k].0 == x.0 && s[k].1 < x.1))
        invariant 0 <= k <= |s| && forall j | 0 <= j < k :: PairLess(s[j], x)
      {
        k := k + 1;
      }
      if k == |s| || s[k] != x {
        s := InsertPair(s, k, x);
      }
    }
    assert pairs[..|pairs|] == pairs;
  }

  method InsertPair(s: seq<Pair>, k: nat, x: Pair) returns (r: seq<Pair>)
    requires k <= |s| && SortedPairs(s) && (forall j | 0 <= j < k :: PairLess(s[j], x))
    requires k < |s| ==> PairLess(x, s[k])
    ensures SortedPairs(r) && forall p :: p in r <==> p in s || p == x
  {
    r := s[..k] + [x] + s[k..];
    assert s == s[..k] + s[k..];
    assert forall j | k < j < |s| :: PairLess(s[k], s[j]);
  }

  function Firsts(s: seq<Pair>, consumer: nat): set<nat> {
    set p | p in s && p.1 == consumer :: p.0
  }

  /** Slice `d` of `flat` lists, in order and once each, the consumers of component `d`. */
  ghost predicate Slices(s: seq<Pair>, n: nat, offsets: seq<nat>, flat: seq<nat>) {
    && |offsets| == n + 1 && (forall d | 0 <= d <= n :: offsets[d] <= |flat|)
    && (forall d | 0 <= d < n :: offsets[d] <= offsets[d + 1])
    && (forall d, c: nat | 0 <= d < n :: c in flat[offsets[d]..offsets[d + 1]] <==> (d, c) in s)
    && (forall d | 0 <= d < n :: Ascending(flat[offsets[d]..offsets[d + 1]]))
  }

  /** The first `edge` component edges are in `flat` and counted at their consumers. */
  ghost predicate Counted(s: seq<Pair>, edge: nat, n: nat, flat: seq<nat>, counts: seq<nat>) {
    && edge <= |s| && |flat| == edge && |counts| == n
    && (forall k | 0 <= k < edge :: flat[k] == s[k].1)
    && (forall c | 0 <= c < n :: counts[c] == |Firsts(s[..edge], c)|)
  }

  ghost predicate Within(s: seq<Pair>, n: nat) {
    SortedPairs(s) && forall k | 0 <= k < |s| :: s[k].0 < n && s[k].1 < n
  }

  /** Edge `edge` is the first whose dependency is not below `d`. */
  ghost predicate StartsAt(s: seq<Pair>, d: nat, edge: nat) {
    edge <= |s| && (edge < |s| ==> s[edge].0 >= d) && forall k | 0 <= k < |s| :: k < edge <==> s[k].0 < d
  }

  /** The compact adjacency and, for each component, how many components it waits for. */
  method Compact(s: seq<Pair>, n: nat) returns (offsets: seq<nat>, flat: seq<nat>, counts: seq<nat>)
    requires Within(s, n)
    ensures Slices(s, n, offsets, flat) && |flat| == |s|
    ensures Counted(s, |s|, n, flat, counts)
  {
    hide Counted;
    offsets, flat := [], [];
    counts := seq(n, i => 0);
    NothingCounted(s, n, counts);
    var edge := 0;
    for d := 0 to n
      invariant |offsets| == d && StartsAt(s, d, edge) && Counted(s, edge, n, flat, counts)
      invariant forall e | 0 <= e < d :: offsets[e] <= edge && StartsAt(s, e, offsets[e])
      invariant forall e | 0 <= e < d - 1 :: offsets[e] <= offsets[e + 1]
    {
      offsets := offsets + [edge];
      edge, flat, counts := Run(s, n, d, edge, flat, counts);
    }
    offsets := offsets + [edge];
    assert edge == |s|;
    CountedLength(s, n, flat, counts);
    CompactSlices(s, n, offsets, flat);
  }

  lemma NothingCounted(s: seq<Pair>, n: nat, counts: seq<nat>)
    requires |counts| == n && forall c | 0 <= c < n :: counts[c] == 0
    ensures Counted(s, 0, n, [], counts)
  {
    forall c | 0 <= c < n ensures |Firsts(s[..0], c)| == 0 {
      assert Firsts(s[..0], c) == {};
    }
  }

  lemma CountedLength(s: seq<Pair>, n: nat, flat: seq<nat>, counts: seq<nat>)
    requires Counted(s, |s|, n, flat, counts)
    ensures |flat| == |s| && forall k | 0 <= k < |s| :: flat[k] == s[k].1
  {
  }

  /** All edges out of one component. */
  method Run(s: seq<Pair>, n: nat, d: nat, edge0: nat, flat0: seq<nat>, counts0: seq<nat>)
      returns (edge: nat, flat: seq<nat>, counts: seq<nat>)
    requires Within(s, n) && StartsAt(s, d, edge0) && Counted(s, edge0, n, flat0, counts0)
    ensures StartsAt(s, d + 1, edge) && edge0 <= edge && Counted(s, edge, n, flat, counts)
  {
    hide Counted;
    edge, flat, counts := edge0, flat0, counts0;
    while edge < |s| && s[edge].0 == d
      invariant edge0 <= edge <= |s| && Counted(s, edge, n, flat, counts)
      invariant forall k | 0 <= k < edge :: s[k].0 <= d
      invariant forall k | edge <= k < |s| :: s[k].0 >= d
    {
      edge, flat, counts := CountEdge(s, n, edge, flat, counts);
    }
  }

  method CountEdge(s: seq<Pair>, n: nat, edge0: nat, flat0: seq<nat>, counts0: seq<nat>)
      returns (edge: nat, flat: seq<nat>, counts: seq<nat>)
    requires Within(s, n) && edge0 < |s| && Counted(s, edge0, n, flat0, counts0)
    ensures edge == edge0 + 1 && Counted(s, edge, n, flat, counts)
  {
    var consumer := s[edge0].1;
    counts := counts0[consumer := counts0[consumer] + 1];
    flat := flat0 + [consumer];
    edge := edge0 + 1;
    forall c | 0 <= c < n ensures counts[c] == |Firsts(s[..edge], c)| {
      FirstsStep(s, edge0, c);
    }
  }

  lemma FirstsStep(s: seq<Pair>, edge: nat, c: nat)
    requires SortedPairs(s) && edge < |s|
    ensures |Firsts(s[..edge + 1], c)| == |Firsts(s[..edge], c)| + (if c == s[edge].1 then 1 else 0)
  {
    assert s[..edge + 1] == s[..edge] + [s[edge]];
    if c == s[edge].1 {
      assert s[edge].0 !in Firsts(s[..edge], c);
      assert Firsts(s[..edge + 1], c) == Firsts(s[..edge], c) + {s[edge].0};
    } else {
      assert Firsts(s[..edge + 1], c) == Firsts(s[..edge], c);
    }
  }

  lemma CompactSlices(s: seq<Pair>, n: nat, offsets: seq<nat>, flat: seq<nat>)
    requires SortedPairs(s) && |offsets| == n + 1 && |flat| == |s|
    requires forall k | 0 <= k < |s| :: flat[k] == s[k].1
    requires forall e | 0 <= e <= n :: offsets[e] <= |s| && StartsAt(s, e, offsets[e])
    requires forall d | 0 <= d < n :: offsets[d] <= offsets[d + 1]
    ensures Slices(s, n, offsets, flat)
  {
    hide StartsAt;
    forall d | 0 <= d < n ensures Ascending(flat[offsets[d]..offsets[d + 1]]) {
      SliceAscends(s, d, offsets[d], offsets[d + 1], flat);
    }
    forall d, c: nat | 0 <= d < n ensures c in flat[offsets[d]..offsets[d + 1]] <==> (d, c) in s {
      SliceOf(s, d, offsets[d], offsets[d + 1], flat, c);
    }
  }

  lemma SliceAscends(s: seq<Pair>, d: nat, from: nat, to: nat, flat: seq<nat>)
    requires SortedPairs(s) && StartsAt(s, d, from) && StartsAt(s, d + 1, to) && from <= to
    requires |flat| == |s| && forall k | 0 <= k < |s| :: flat[k] == s[k].1
    ensures Ascending(flat[from..to])
  {
    var slice := flat[from..to];
    forall i, j | 0 <= i < j < |slice| ensures slice[i] < slice[j] {
      assert PairLess(s[from + i], s[from + j]);
    }
  }

  lemma SliceOf(s: seq<Pair>, d: nat, from: nat, to: nat, flat: seq<nat>, c: nat)
    requires StartsAt(s, d, from) && StartsAt(s, d + 1, to) && from <= to
    requires |flat| == |s| && forall k | 0 <= k < |s| :: flat[k] == s[k].1
    ensures c in flat[from..to] <==> (d, c) in s
  {
    if c in flat[from..to] {
      var k :| 0 <= k < to - from && flat[from..to][k] == c;
      assert s[from + k] == (d, c);
    }
    if (d, c) in s {
      var k :| 0 <= k < |s| && s[k] == (d, c);
      assert flat[from..to][k - from] == c;
    }
  }
}
