/** The first pass of the component search: an iterative depth-first search with an explicit
    stack of (node, expanded) entries that lists nodes in the order they finish.

    A node is open from its expansion until it finishes.  The proof records, for every finished
    node, which nodes were open when it finished. */
module FinishOrder {
  import opened Counting
  import opened Graphs

  type Entry = (nat, bool)

  function Successors(g: Graph<nat>, n: nat): seq<nat> {
    if n in g then g[n] else []
  }

  /** The open nodes: those with an expanded entry on the stack. */
  ghost function Open(stack: seq<Entry>): set<nat> {
    set i | 0 <= i < |stack| && stack[i].1 :: stack[i].0
  }

  ghost predicate OpenOnce(stack: seq<Entry>) {
    forall i, j | 0 <= i < j < |stack| && stack[i].1 && stack[j].1 :: stack[i].0 != stack[j].0
  }

  /** Seen nodes are the finished and the open ones. */
  ghost predicate Partitioned(order: seq<nat>, seen: set<nat>, stack: seq<Entry>) {
    && Distinct(order) && OpenOnce(stack)
    && (forall n | n in order :: n !in Open(stack))
    && (forall n :: n in seen <==> n in order || n in Open(stack))
  }

  /** An open node reaches everything above it on the stack. */
  ghost predicate OpenPath(g: Graph<nat>, stack: seq<Entry>) {
    forall i, j | 0 <= i < j < |stack| && stack[i].1 :: Reaches(g, stack[i].0, stack[j].0)
  }

  /** The successors of an open node are seen or wait above it. */
  ghost predicate Scheduled(g: Graph<nat>, seen: set<nat>, stack: seq<Entry>) {
    forall i, v | 0 <= i < |stack| && stack[i].1 && Edge(g, stack[i].0, v) ::
      v in seen || exists j :: i < j < |stack| && stack[j] == (v, false)
  }

  /** Every edge out of a finished node leads to one finished before it or open at its finish. */
  ghost predicate EdgesCovered(g: Graph<nat>, order: seq<nat>, open: map<nat, set<nat>>) {
    && (forall n | n in order :: n in open)
    && (forall i, v | 0 <= i < |order| && Edge(g, order[i], v) :: v in order[..i + 1] || v in open[order[i]])
  }

  ghost predicate OpenReach(g: Graph<nat>, order: seq<nat>, open: map<nat, set<nat>>) {
    forall n, o | n in order && n in open && o in open[n] :: Reaches(g, o, n)
  }

  /** A node stays open until it finishes. */
  ghost predicate OpenUntilFinished(order: seq<nat>, stack: seq<Entry>, open: map<nat, set<nat>>) {
    && (forall n | n in order :: n in open)
    && (forall i, j, o | 0 <= i <= j < |order| && o in open[order[i]] :: o in order[..j + 1] || o in open[order[j]])
    && (forall n, o | n in order && o in open[n] :: o in order || o in Open(stack))
  }

  /** Openness nests: what was open below an open node was open too. */
  ghost predicate Nested(order: seq<nat>, stack: seq<Entry>, open: map<nat, set<nat>>) {
    && (forall n | n in order :: n in open)
    && (forall n, o | n in order && o in order && o in open[n] :: open[o] <= open[n])
    && (forall n, i | n in order && 0 <= i < |stack| && stack[i].1 && stack[i].0 in open[n] :: Open(stack[..i]) <= open[n])
  }

  ghost predicate Searching(g: Graph<nat>, order: seq<nat>, seen: set<nat>, stack: seq<Entry>, open: map<nat, set<nat>>) {
    && Partitioned(order, seen, stack) && OpenPath(g, stack) && Scheduled(g, seen, stack)
    && EdgesCovered(g, order, open) && OpenReach(g, order, open)
    && OpenUntilFinished(order, stack, open) && Nested(order, stack, open)
  }

  /** What the first pass leaves behind. */
  ghost predicate Finished(g: Graph<nat>, order: seq<nat>, open: map<nat, set<nat>>) {
    && Distinct(order) && EdgesCovered(g, order, open) && OpenReach(g, order, open)
    && OpenUntilFinished(order, [], open) && Nested(order, [], open)
  }

  // ------------------------------------------------------------------ stack steps

  lemma OpenOfPush(stack: seq<Entry>, e: Entry)
    ensures Open(stack + [e]) == Open(stack) + (if e.1 then {e.0} else {})
  {
    var s := stack + [e];
    forall n | n in Open(stack) + (if e.1 then {e.0} else {}) ensures n in Open(s) {
      if n in Open(stack) {
        var i :| 0 <= i < |stack| && stack[i].1 && stack[i].0 == n;
        assert s[i].1 && s[i].0 == n;
      } else {
        assert s[|stack|].1 && s[|stack|].0 == n;
      }
    }
  }

  lemma OpenOfWaiting(stack: seq<Entry>, extra: seq<Entry>)
    requires forall i | 0 <= i < |extra| :: !extra[i].1
    ensures Open(stack + extra) == Open(stack)
  {
    var s := stack + extra;
    forall n | n in Open(stack) ensures n in Open(s) {
      var i :| 0 <= i < |stack| && stack[i].1 && stack[i].0 == n;
      assert s[i].1 && s[i].0 == n;
    }
  }

  lemma NothingSearched(g: Graph<nat>)
    ensures Searching(g, [], {}, [], map[])
  {
  }

  lemma StartStep(g: Graph<nat>, order: seq<nat>, seen: set<nat>, start: nat, open: map<nat, set<nat>>)
    requires Searching(g, order, seen, [], open)
    ensures Searching(g, order, seen, [(start, false)], open)
  {
    assert Open([(start, false)]) == Open([]) == {};
  }

  /** Popping an entry whose node has been seen. */
  lemma SkipStep(g: Graph<nat>, order: seq<nat>, seen: set<nat>, rest: seq<Entry>, n: nat, open: map<nat, set<nat>>)
    requires Searching(g, order, seen, rest + [(n, false)], open) && n in seen
    ensures Searching(g, order, seen, rest, open)
  {
    var stack := rest + [(n, false)];
    OpenOfPush(rest, (n, false));
    assert forall i | 0 <= i < |rest| :: stack[i] == rest[i] && stack[..i] == rest[..i];
    forall i, v | 0 <= i < |rest| && rest[i].1 && Edge(g, rest[i].0, v)
      ensures v in seen || exists j :: i < j < |rest| && rest[j] == (v, false)
    {
      assert stack[i].1;
      if v !in seen {
        var j :| i < j < |stack| && stack[j] == (v, false);
        assert j < |rest|;
        assert rest[j] == (v, false);
      }
    }
  }

  /** Finishing the open node on top: everything still open is recorded for it. */
  lemma FinishStep(g: Graph<nat>, order: seq<nat>, seen: set<nat>, rest: seq<Entry>, n: nat, open: map<nat, set<nat>>)
    requires Searching(g, order, seen, rest + [(n, true)], open)
    ensures Searching(g, order + [n], seen, rest, open[n := Open(rest)])
  {
    hide Reaches, OpenUntilFinished, Nested;
    var stack := rest + [(n, true)];
    OpenOfPush(rest, (n, true));
    assert stack[|rest|] == (n, true);
    assert forall i | 0 <= i < |rest| :: stack[i] == rest[i] && stack[..i] == rest[..i];
    assert stack[..|rest|] == rest;
    var open' := open[n := Open(rest)];
    assert n !in order && n !in Open(rest);
    FinishKeepsEdges(g, order, seen, rest, n, open);
    FinishKeepsOpenness(g, order, seen, rest, n, open);
    FinishKeepsNesting(g, order, seen, rest, n, open);
    forall m, o | m in order + [n] && o in open'[m] ensures Reaches(g, o, m) {
      if m == n {
        var i :| 0 <= i < |rest| && rest[i].1 && rest[i].0 == o;
        assert stack[i].1;
      }
    }
    forall i, v | 0 <= i < |rest| && rest[i].1 && Edge(g, rest[i].0, v)
      ensures v in seen || exists j :: i < j < |rest| && rest[j] == (v, false)
    {
      assert stack[i].1;
      if v !in seen {
        var j :| i < j < |stack| && stack[j] == (v, false);
        assert rest[j] == (v, false);
      }
    }
  }

  lemma FinishKeepsEdges(g: Graph<nat>, order: seq<nat>, seen: set<nat>, rest: seq<Entry>, n: nat, open: map<nat, set<nat>>)
    requires Searching(g, order, seen, rest + [(n, true)], open)
    ensures EdgesCovered(g, order + [n], open[n := Open(rest)])
  {
    var stack := rest + [(n, true)];
    OpenOfPush(rest, (n, true));
    assert stack[|rest|] == (n, true);
    var open' := open[n := Open(rest)];
    var order' := order + [n];
    forall i, v | 0 <= i < |order'| && Edge(g, order'[i], v)
      ensures v in order'[..i + 1] || v in open'[order'[i]]
    {
      if i < |order| {
        assert order'[..i + 1] == order[..i + 1];
      } else {
        assert v in seen;
        assert order'[..i + 1] == order';
      }
    }
  }

  lemma FinishKeepsOpenness(g: Graph<nat>, order: seq<nat>, seen: set<nat>, rest: seq<Entry>, n: nat, open: map<nat, set<nat>>)
    requires Searching(g, order, seen, rest + [(n, true)], open)
    ensures OpenUntilFinished(order + [n], rest, open[n := Open(rest)])
  {
    hide Open, OpenPath, Scheduled, EdgesCovered, OpenReach, Nested, OpenOnce;
    var stack := rest + [(n, true)];
    OpenOfPush(rest, (n, true));
    var open' := open[n := Open(rest)];
    var order' := order + [n];
    forall i, j, o | 0 <= i <= j < |order'| && o in open'[order'[i]]
      ensures o in order'[..j + 1] || o in open'[order'[j]]
    {
      if j < |order| {
        assert order'[..j + 1] == order[..j + 1];
      } else {
        assert order'[..j + 1] == order';
        assert i < |order| ==> o in order || o in Open(stack);
      }
    }
  }

  lemma FinishKeepsNesting(g: Graph<nat>, order: seq<nat>, seen: set<nat>, rest: seq<Entry>, n: nat, open: map<nat, set<nat>>)
    requires Searching(g, order, seen, rest + [(n, true)], open)
    ensures Nested(order + [n], rest, open[n := Open(rest)])
  {
    var stack := rest + [(n, true)];
    OpenOfPush(rest, (n, true));
    assert stack[|rest|] == (n, true) && stack[..|rest|] == rest;
    var open' := open[n := Open(rest)];
    var order' := order + [n];
    forall m, i | m in order' && 0 <= i < |rest| && rest[i].1 && rest[i].0 in open'[m]
      ensures Open(rest[..i]) <= open'[m]
    {
      if m == n {
        OpenOfPrefix(rest, i);
      } else {
        assert stack[i].1 && stack[i].0 in open[m] && stack[..i] == rest[..i];
      }
    }
    forall m, o | m in order' && o in order' && o in open'[m] ensures open'[o] <= open'[m] {
      if o == n && m != n {
        assert stack[|rest|].0 in open[m];
      }
    }
  }

  lemma OpenOfPrefix(stack: seq<Entry>, i: nat)
    requires i <= |stack|
    ensures Open(stack[..i]) <= Open(stack)
  {
    forall x | x in Open(stack[..i]) ensures x in Open(stack) {
      var k :| 0 <= k < i && stack[..i][k].1 && stack[..i][k].0 == x;
      assert stack[k].1 && stack[k].0 == x;
    }
  }

  /** Expanding an unseen node: it becomes open and its unseen successors wait above it. */
  lemma ExpandStep(g: Graph<nat>, order: seq<nat>, seen: set<nat>, rest: seq<Entry>, n: nat, waiting: seq<Entry>, open: map<nat, set<nat>>)
    requires Searching(g, order, seen, rest + [(n, false)], open) && n !in seen
    requires forall i | 0 <= i < |waiting| :: !waiting[i].1 && Edge(g, n, waiting[i].0)
    requires forall v: nat | Edge(g, n, v) :: v in seen + {n} || (v, false) in waiting
    ensures Searching(g, order, seen + {n}, rest + [(n, true)] + waiting, open)
  {
    var old' := rest + [(n, false)];
    var stack := rest + [(n, true)] + waiting;
    OpenOfPush(rest, (n, false));
    OpenOfPush(rest, (n, true));
    OpenOfWaiting(rest + [(n, true)], waiting);
    assert stack[|rest|] == (n, true) && old'[|rest|] == (n, false);
    assert forall i | 0 <= i < |rest| :: stack[i] == rest[i] == old'[i] && stack[..i] == old'[..i];
    ExpandKeepsSchedule(g, order, seen, rest, n, waiting, open);
    ExpandKeepsPath(g, order, seen, rest, n, waiting, open);
    ExpandKeepsNesting(g, order, seen, rest, n, waiting, open);
  }

  lemma ExpandKeepsPath(g: Graph<nat>, order: seq<nat>, seen: set<nat>, rest: seq<Entry>, n: nat, waiting: seq<Entry>, open: map<nat, set<nat>>)
    requires Searching(g, order, seen, rest + [(n, false)], open) && n !in seen
    requires forall i | 0 <= i < |waiting| :: !waiting[i].1 && Edge(g, n, waiting[i].0)
    ensures OpenPath(g, rest + [(n, true)] + waiting)
  {
    var old' := rest + [(n, false)];
    var stack := rest + [(n, true)] + waiting;
    forall i, j | 0 <= i < j < |stack| && stack[i].1 ensures Reaches(g, stack[i].0, stack[j].0) {
      if i < |rest| {
        assert Reaches(g, old'[i].0, old'[if j < |rest| then j else |rest|].0);
        if j > |rest| {
          var w := waiting[j - |rest| - 1];
          ReachesEdge(g, n, w.0);
          ReachesTransitive(g, stack[i].0, n, w.0);
        }
      } else {
        ReachesEdge(g, n, stack[j].0);
      }
    }
  }

  lemma ExpandKeepsNesting(g: Graph<nat>, order: seq<nat>, seen: set<nat>, rest: seq<Entry>, n: nat, waiting: seq<Entry>, open: map<nat, set<nat>>)
    requires Searching(g, order, seen, rest + [(n, false)], open) && n !in seen
    requires forall i | 0 <= i < |waiting| :: !waiting[i].1 && Edge(g, n, waiting[i].0)
    ensures Nested(order, rest + [(n, true)] + waiting, open)
  {
    var old' := rest + [(n, false)];
    assert forall m | m in order :: n !in open[m];
    var stack := rest + [(n, true)] + waiting;
    forall m, i | m in order && 0 <= i < |stack| && stack[i].1 && stack[i].0 in open[m]
      ensures Open(stack[..i]) <= open[m]
    {
      assert i < |rest|;
      assert old'[i].1 && old'[..i] == rest[..i] == stack[..i];
    }
  }

  lemma ExpandKeepsSchedule(g: Graph<nat>, order: seq<nat>, seen: set<nat>, rest: seq<Entry>, n: nat, waiting: seq<Entry>, open: map<nat, set<nat>>)
    requires Searching(g, order, seen, rest + [(n, false)], open) && n !in seen
    requires forall i | 0 <= i < |waiting| :: !waiting[i].1 && Edge(g, n, waiting[i].0)
    requires forall v: nat | Edge(g, n, v) :: v in seen + {n} || (v, false) in waiting
    ensures Scheduled(g, seen + {n}, rest + [(n, true)] + waiting)
  {
    var old' := rest + [(n, false)];
    var stack := rest + [(n, true)] + waiting;
    forall i, v | 0 <= i < |stack| && stack[i].1 && Edge(g, stack[i].0, v)
      ensures v in seen + {n} || exists j :: i < j < |stack| && stack[j] == (v, false)
    {
      if v !in seen + {n} {
        if i < |rest| {
          assert old'[i].1;
          var j :| i < j < |old'| && old'[j] == (v, false);
          assert stack[j] == (v, false);
        } else {
          assert i == |rest|;
          var j :| 0 <= j < |waiting| && waiting[j] == (v, false);
          assert stack[|rest| + 1 + j] == (v, false);
        }
      }
    }
  }

  // ------------------------------------------------------------------ the pass

  /** Search from every key in turn.  `starts` lists the keys in ascending order. */
  method FinishPass(g: Graph<nat>, starts: seq<nat>) returns (order: seq<nat>, ghost open: map<nat, set<nat>>)
    requires forall n :: n in starts <==> n in g
    ensures Finished(g, order, open)
    ensures forall n :: n in order <==> n in Vertices(g)
  {
    order := [];
    open := map[];
    var seen: set<nat> := {};
    hide Searching;
    NothingSearched(g);
    for s := 0 to |starts|
      invariant Searching(g, order, seen, [], open)
      invariant seen <= Vertices(g)
      invariant forall i | 0 <= i < s :: starts[i] in seen
    {
      if starts[s] !in seen {
        order, seen, open := SearchFrom(g, starts[s], order, seen, open);
      }
    }
    EveryNodeFinishes(g, starts, order, seen, open);
  }

  lemma EveryNodeFinishes(g: Graph<nat>, starts: seq<nat>, order: seq<nat>, seen: set<nat>, open: map<nat, set<nat>>)
    requires forall n :: n in starts <==> n in g
    requires Searching(g, order, seen, [], open) && seen <= Vertices(g)
    requires forall i | 0 <= i < |starts| :: starts[i] in seen
    ensures Finished(g, order, open)
    ensures forall n :: n in order <==> n in Vertices(g)
  {
    assert Open([]) == {};
    forall n | n in Vertices(g) ensures n in order {
      if n !in g {
        var a :| a in g && n in g[a];
        assert a in order;
        var k :| 0 <= k < |order| && order[k] == a;
        assert Edge(g, order[k], n);
      }
    }
  }

  method SearchFrom(g: Graph<nat>, start: nat, order0: seq<nat>, seen0: set<nat>, ghost open0: map<nat, set<nat>>)
      returns (order: seq<nat>, seen: set<nat>, ghost open: map<nat, set<nat>>)
    requires start in Vertices(g) && seen0 <= Vertices(g)
    requires Searching(g, order0, seen0, [], open0)
    ensures Searching(g, order, seen, [], open)
    ensures seen0 + {start} <= seen <= Vertices(g)
  {
    hide Searching;
    order, seen, open := order0, seen0, open0;
    var stack: seq<Entry> := [(start, false)];
    StartStep(g, order, seen, start, open);
    while stack != []
      invariant Searching(g, order, seen, stack, open)
      invariant seen0 <= seen <= Vertices(g)
      invariant start in seen || stack == [(start, false)]
      invariant forall e | e in stack :: e.0 in Vertices(g)
      decreases Vertices(g) - seen, |stack|
    {
      var (node, expanded) := stack[|stack| - 1];
      var rest := stack[..|stack| - 1];
      assert stack == rest + [(node, expanded)];
      assert stack[|stack| - 1] in stack;
      assert forall e | e in rest :: e in stack;
      stack := rest;
      if expanded {
        FinishStep(g, order, seen, rest, node, open);
        order := order + [node];
        open := open[node := Open(rest)];
      } else if node in seen {
        SkipStep(g, order, seen, rest, node, open);
      } else {
        ghost var before := seen;
        seen := seen + {node};
        var waiting := Waiting(g, node, seen);
        ExpandStep(g, order, before, rest, node, waiting, open);
        stack := rest + [(node, true)] + waiting;
        forall e | e in waiting ensures e.0 in Vertices(g) {
          assert Edge(g, node, e.0);
        }
      }
    }
  }

  /** The unseen successors, last one deepest. */
  method Waiting(g: Graph<nat>, node: nat, seen: set<nat>) returns (waiting: seq<Entry>)
    ensures forall i | 0 <= i < |waiting| :: !waiting[i].1 && Edge(g, node, waiting[i].0)
    ensures forall v: nat | Edge(g, node, v) :: v in seen || (v, false) in waiting
  {
    waiting := [];
    var successors := Successors(g, node);
    var k := |successors|;
    while k > 0
      invariant 0 <= k <= |successors|
      invariant forall i | 0 <= i < |waiting| :: !waiting[i].1 && Edge(g, node, waiting[i].0)
      invariant forall i | k <= i < |successors| :: successors[i] in seen || (successors[i], false) in waiting
    {
      k := k - 1;
      if successors[k] !in seen {
        waiting := waiting + [(successors[k], false)];
      }
    }
  }
}
