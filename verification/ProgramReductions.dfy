/** Every candidate the shrinker tries is one local step that keeps the program well-formed and makes
    it lighter. */
module ProgramReductions {
  import opened Wrappers
  import opened ProgramTree

  // ------------------------------------------------------------------ flattening

  lemma FlattenedIsLighter(stmt: Node)
    requires Flattenable(stmt).Some?
    ensures Total(Flattenable(stmt).value) < Weight(stmt)
  {
    var args := stmt.args;
    var last := args[|args| - 1];
    assert args == args[..|args| - 1] + [last];
    TotalConcat(args[..|args| - 1], [last]);
    assert Total([last]) == Weight(last) + Total([last][1..]);
  }

  lemma FlattenedIsClosed(stmt: Node, scope: set<string>, declared: set<string>, inClass: bool)
    requires Flattenable(stmt).Some? && WellPlaced(stmt) && Closed(stmt, scope, declared, inClass)
    ensures forall s | s in Flattenable(stmt).value :: Closed(s, scope, declared, inClass) && WellPlaced(s) && IsExpr(s)
  {
    var last := stmt.args[|stmt.args| - 1];
    var body := last.body;
    ChildPlaced(stmt, |stmt.args| - 1);
    ChildPlaced(last, 0);
    assert Children(stmt)[|stmt.args| - 1] == last;
    assert Closed(Children(stmt)[|stmt.args| - 1], scope, declared, inClass);
    assert Children(last)[0] == body && Closed(body, Inside(last, scope), declared, inClass);
    forall s | s in body.stmts ensures Closed(s, scope, declared, inClass) && WellPlaced(s) && IsExpr(s) {
      var i :| 0 <= i < |body.stmts| && body.stmts[i] == s;
      assert Children(body)[i] == s;
      ChildPlaced(body, i);
      assert Closed(s, Inside(last, scope), declared, inClass);
      if last.param.Some? {
        assert !Mentions(s, last.param.value);
        Strengthen(s, scope, last.param.value, declared, inClass);
      }
    }
  }

  lemma FlattenKeeps(stmts: seq<Node>, k: nat)
    requires k < |stmts| && Flattenable(stmts[k]).Some?
    ensures Keeps(Block(stmts), Block(stmts[..k] + Flattenable(stmts[k]).value + stmts[k + 1..]))
  {
    hide Flattenable;
    var inner := Flattenable(stmts[k]).value;
    var n, more := Block(stmts), stmts[..k] + inner + stmts[k + 1..];
    FlattenWeight(stmts, k, inner);
    forall scope: set<string>, declared: set<string>, inClass: bool | WellPlaced(n) && Closed(n, scope, declared, inClass)
      ensures Closed(Block(more), scope, declared, inClass)
    {
      FlattenCloses(stmts, k, scope, declared, inClass);
    }
    if WellPlaced(n) {
      FlattenPlaces(stmts, k);
    }
  }

  lemma FlattenWeight(stmts: seq<Node>, k: nat, inner: seq<Node>)
    requires k < |stmts| && Flattenable(stmts[k]) == Some(inner)
    ensures Weight(Block(stmts[..k] + inner + stmts[k + 1..])) < Weight(Block(stmts))
  {
    hide Flattenable;
    FlattenedIsLighter(stmts[k]);
    TotalWithout(stmts, k);
    TotalConcat(stmts[..k], stmts[k + 1..]);
    TotalConcat(stmts[..k] + inner, stmts[k + 1..]);
    TotalConcat(stmts[..k], inner);
  }

  lemma FlattenCloses(stmts: seq<Node>, k: nat, scope: set<string>, declared: set<string>, inClass: bool)
    requires k < |stmts| && Flattenable(stmts[k]).Some? && WellPlaced(Block(stmts))
    requires Closed(Block(stmts), scope, declared, inClass)
    ensures Closed(Block(stmts[..k] + Flattenable(stmts[k]).value + stmts[k + 1..]), scope, declared, inClass)
  {
    hide Flattenable;
    var inner := Flattenable(stmts[k]).value;
    var n, c := Block(stmts), Block(stmts[..k] + inner + stmts[k + 1..]);
    assert forall i | 0 <= i < |stmts| :: Children(n)[i] == stmts[i];
    FlattenedIsClosed(stmts[k], scope, declared, inClass);
    forall i | 0 <= i < |Children(c)| ensures Closed(Children(c)[i], scope, declared, inClass) {
      if i < k {
        assert Children(c)[i] == Children(n)[i];
      } else if i < k + |inner| {
        assert Children(c)[i] == inner[i - k] && inner[i - k] in inner;
      } else {
        assert Children(c)[i] == Children(n)[i - |inner| + 1];
      }
    }
  }

  lemma FlattenPlaces(stmts: seq<Node>, k: nat)
    requires k < |stmts| && Flattenable(stmts[k]).Some? && WellPlaced(Block(stmts))
    ensures WellPlaced(Block(stmts[..k] + Flattenable(stmts[k]).value + stmts[k + 1..]))
  {
    var inner := Flattenable(stmts[k]).value;
    var last := stmts[k].args[|stmts[k].args| - 1];
    ChildPlaced(Block(stmts), k);
    ChildPlaced(stmts[k], |stmts[k].args| - 1);
    ChildPlaced(last, 0);
    var c := Block(stmts[..k] + inner + stmts[k + 1..]);
    forall i | 0 <= i < |c.stmts| ensures WellPlaced(c.stmts[i]) && !c.stmts[i].Block? {
      if i < k {
        ChildPlaced(Block(stmts), i);
      } else if i < k + |inner| {
        ChildPlaced(last.body, i - k);
      } else {
        ChildPlaced(Block(stmts), i - |inner| + 1);
      }
    }
  }

  lemma ChildPlaced(n: Node, i: nat)
    requires WellPlaced(n) && i < |Children(n)|
    ensures WellPlaced(Children(n)[i]) && (n.Block? ==> !Children(n)[i].Block?)
  {
  }

  // ------------------------------------------------------------------ one node

  lemma {:induction false} BlockStep(stmts: seq<Node>, i: nat, c: Node) returns (k: nat)
    requires i <= |stmts| && c in BlockSteps(stmts, i)
    ensures k < |stmts|
    ensures c == Block(Without(stmts, k))
            || (Flattenable(stmts[k]).Some? && c == Block(stmts[..k] + Flattenable(stmts[k]).value + stmts[k + 1..]))
    decreases |stmts| - i
  {
    hide Flattenable, Without;
    if c in BlockSteps(stmts, i + 1) {
      k := BlockStep(stmts, i + 1, c);
    } else {
      k := i;
    }
  }

  /** Every simplification of a node can stand in the node's place. */
  lemma SimplifyKeeps(n: Node, c: Node)
    requires c in Simplify(n)
    ensures Keeps(n, c)
  {
    hide Keeps, Flattenable, BlockSteps, Mentions, Without;
    match n {
      case Raw(_, _) => LeafKeeps(n, c);
      case Arrow(param, generic, body) => ArrowKeeps(param, generic, body, c);
      case ObjLit(_, _) => ObjectKeeps(n, c);
      case ArrLit(_) => ArrayKeeps(n, c);
      case Block(stmts) => BlockKeeps(stmts, c);
      case Call(_, _) =>
      case Ret(_) =>
    }
  }

  lemma LeafKeeps(n: Node, c: Node)
    requires n.Raw? && c in Simplify(n)
    ensures Keeps(n, c)
  {
    hide Keeps;
    var i :| 0 <= i < |n.alts| && c == Raw(n.alts[i], n.alts[i + 1..]);
    RawKeeps(n.leaf, n.alts, i);
  }

  lemma ObjectKeeps(n: Node, c: Node)
    requires n.ObjLit? && c in Simplify(n)
    ensures Keeps(n, c)
  {
    hide Keeps;
    var i :| 0 <= i < |n.values| && c == ObjLit(Without(n.keys, i), Without(n.values, i));
    ListKeeps(n, c, i);
  }

  lemma ArrayKeeps(n: Node, c: Node)
    requires n.ArrLit? && c in Simplify(n)
    ensures Keeps(n, c)
  {
    hide Keeps, Without;
    var i :| 0 <= i < |n.items| && c == ArrLit(Without(n.items, i));
    ListKeeps(n, c, i);
  }

  lemma BlockKeeps(stmts: seq<Node>, c: Node)
    requires c in BlockSteps(stmts, 0)
    ensures Keeps(Block(stmts), c)
  {
    hide Keeps, Flattenable, BlockSteps;
    var k := BlockStep(stmts, 0, c);
    if c == Block(Without(stmts, k)) {
      ListKeeps(Block(stmts), c, k);
    } else {
      FlattenKeeps(stmts, k);
    }
  }

  // ------------------------------------------------------------------ slots

  ghost predicate ValidPath(n: Node, path: seq<nat>)
    decreases |path|
  {
    path == [] || (path[0] < |Children(n)| && ValidPath(Children(n)[path[0]], path[1..]))
  }

  ghost function NodeAt(n: Node, path: seq<nat>): Node
    requires ValidPath(n, path)
    decreases |path|
  {
    if path == [] then n else NodeAt(Children(n)[path[0]], path[1..])
  }

  /** The tree with one slot replaced. */
  ghost function Replace(n: Node, path: seq<nat>, c: Node): Node
    requires ValidPath(n, path)
    decreases |path|
  {
    if path == [] then c else With(n, path[0], Replace(Children(n)[path[0]], path[1..], c))
  }

  /** All candidates for a subtree: the node's own, then each child's, depth first. */
  function Reduce(n: Node): seq<Node>
    decreases n, |Children(n)| + 1
  {
    Simplify(n) + ChildSteps(n, 0)
  }

  function ChildSteps(n: Node, i: nat): seq<Node>
    requires i <= |Children(n)|
    decreases n, |Children(n)| - i
  {
    if i == |Children(n)| then [] else Lift(n, i, Reduce(Children(n)[i])) + ChildSteps(n, i + 1)
  }

  function Lift(n: Node, i: nat, cs: seq<Node>): seq<Node>
    requires i < |Children(n)|
  {
    seq(|cs|, k requires 0 <= k < |cs| => With(n, i, cs[k]))
  }

  /** One slot was replaced by one of its simplifications. */
  ghost predicate StepAt(n: Node, path: seq<nat>, c: Node) {
    ValidPath(n, path) && exists s :: s in Simplify(NodeAt(n, path)) && c == Replace(n, path, s)
  }

  ghost predicate OneStep(n: Node, c: Node) {
    exists path :: StepAt(n, path, c)
  }

  lemma {:induction false} ChildStep(n: Node, i: nat, c: Node) returns (k: nat, d: Node)
    requires i <= |Children(n)| && c in ChildSteps(n, i)
    ensures i <= k < |Children(n)| && d in Reduce(Children(n)[k]) && c == With(n, k, d)
    decreases |Children(n)| - i
  {
    hide Reduce;
    var first := Lift(n, i, Reduce(Children(n)[i]));
    if c in first {
      var j :| 0 <= j < |first| && first[j] == c;
      k, d := i, Reduce(Children(n)[i])[j];
    } else {
      k, d := ChildStep(n, i + 1, c);
    }
  }

  lemma {:induction false} ChildStepIn(n: Node, i: nat, k: nat, d: Node)
    requires i <= k < |Children(n)| && d in Reduce(Children(n)[k])
    ensures With(n, k, d) in ChildSteps(n, i)
    decreases k - i
  {
    hide Reduce;
    if i == k {
      var first := Lift(n, i, Reduce(Children(n)[i]));
      var j :| 0 <= j < |Reduce(Children(n)[i])| && Reduce(Children(n)[i])[j] == d;
      assert first[j] == With(n, k, d);
    } else {
      ChildStepIn(n, i + 1, k, d);
    }
  }

  /** The candidates are exactly the one-slot steps. */
  lemma {:induction false} ReducedIsOneStep(n: Node, c: Node)
    requires c in Reduce(n)
    ensures OneStep(n, c)
    decreases n
  {
    hide Simplify, ChildSteps;
    if c in Simplify(n) {
      assert ValidPath(n, []) && NodeAt(n, []) == n && Replace(n, [], c) == c;
      assert StepAt(n, [], c);
    } else {
      var k, d := ChildStep(n, 0, c);
      ReducedIsOneStep(Children(n)[k], d);
      var path :| StepAt(Children(n)[k], path, d);
      var s :| s in Simplify(NodeAt(Children(n)[k], path)) && d == Replace(Children(n)[k], path, s);
      var longer := [k] + path;
      assert longer[0] == k && longer[1..] == path && ValidPath(n, longer);
      assert NodeAt(n, longer) == NodeAt(Children(n)[k], path) && Replace(n, longer, s) == c;
      assert StepAt(n, longer, c);
    }
  }

  lemma {:induction false} OneStepIsReduced(n: Node, path: seq<nat>, s: Node)
    requires ValidPath(n, path) && s in Simplify(NodeAt(n, path))
    ensures Replace(n, path, s) in Reduce(n)
    decreases |path|
  {
    hide Simplify, ChildSteps;
    if path != [] {
      OneStepIsReduced(Children(n)[path[0]], path[1..], s);
      ChildStepIn(n, 0, path[0], Replace(Children(n)[path[0]], path[1..], s));
    }
  }

  // ------------------------------------------------------------------ steps keep the tree

  lemma WithKeeps(n: Node, i: nat, d: Node)
    requires i < |Children(n)| && Keeps(Children(n)[i], d)
    ensures Keeps(n, With(n, i, d))
  {
    hide Weight, Total;
    var c := With(n, i, d);
    WeightSplits(n);
    WeightSplits(c);
    TotalUpdate(Children(n), i, d);
    if WellPlaced(n) {
      WithPlaces(n, i, d);
      forall scope: set<string>, declared: set<string>, inClass: bool | Closed(n, scope, declared, inClass)
        ensures Closed(c, scope, declared, inClass)
      {
        WithCloses(n, i, d, scope, declared, inClass);
      }
    }
  }

  lemma WithPlaces(n: Node, i: nat, d: Node)
    requires i < |Children(n)| && WellPlaced(n) && WellPlaced(d)
    requires (d.Ret? <==> Children(n)[i].Ret?) && (d.Block? <==> Children(n)[i].Block?)
    ensures WellPlaced(With(n, i, d))
  {
    var c := With(n, i, d);
    forall j | 0 <= j < |Children(c)| ensures WellPlaced(Children(c)[j]) {
      assert j != i ==> Children(c)[j] == Children(n)[j];
    }
  }

  lemma WithCloses(n: Node, i: nat, d: Node, scope: set<string>, declared: set<string>, inClass: bool)
    requires i < |Children(n)| && Closed(n, scope, declared, inClass) && Closed(d, Inside(n, scope), declared, inClass)
    ensures Closed(With(n, i, d), scope, declared, inClass)
  {
    var c := With(n, i, d);
    assert Inside(c, scope) == Inside(n, scope);
    forall j | 0 <= j < |Children(c)| ensures Closed(Children(c)[j], Inside(c, scope), declared, inClass) {
      assert j != i ==> Children(c)[j] == Children(n)[j];
    }
  }

  lemma {:induction false} ReduceKeeps(n: Node, c: Node)
    requires c in Reduce(n)
    ensures Keeps(n, c)
    decreases n
  {
    hide Keeps, Simplify, ChildSteps;
    if c in Simplify(n) {
      SimplifyKeeps(n, c);
    } else {
      var k, d := ChildStep(n, 0, c);
      ReduceKeeps(Children(n)[k], d);
      WithKeeps(n, k, d);
    }
  }

  // ------------------------------------------------------------------ whole programs

  /** The declarations the body still mentions. */
  function Kept(decls: seq<FuncDecl>, body: Node): (r: seq<FuncDecl>)
    ensures forall d :: d in r <==> d in decls && Mentions(body, d.name)
  {
    if decls == [] then []
    else (if Mentions(body, decls[0].name) then [decls[0]] else []) + Kept(decls[1..], body)
  }

  function Prune(p: Program): Program {
    p.(decls := Kept(p.decls, p.body))
  }

  function DropClass(p: Program): Option<Program> {
    if p.className.None? || HasThis(p.body) then None else Some(p.(className := None))
  }

  function DeclSteps(p: Program, i: nat): seq<Program>
    requires i <= |p.decls|
    decreases |p.decls| - i
  {
    if i == |p.decls| then [] else SigSteps(p, i) + DeclSteps(p, i + 1)
  }

  /** Drop one overload signature of one declaration. */
  function SigSteps(p: Program, i: nat): seq<Program>
    requires i < |p.decls|
  {
    var d := p.decls[i];
    if |d.sigs| <= 1 then []
    else seq(|d.sigs|, k requires 0 <= k < |d.sigs| => Prune(p.(decls := p.decls[i := FuncDecl(d.name, Without(d.sigs, k))])))
  }

  /** All one-step candidates, in the order they are tried. */
  function Reductions(p: Program): seq<Program> {
    var bodies := Reduce(p.body);
    (match DropClass(p) { case Some(q) => [Prune(q)] case None => [] })
    + DeclSteps(p, 0)
    + seq(|bodies|, k requires 0 <= k < |bodies| => Prune(p.(body := bodies[k])))
  }

  /** What changed, before unused declarations are pruned. */
  ghost predicate Changed(p: Program, q: Program) {
    || DropClass(p) == Some(q)
    || (exists i, k | 0 <= i < |p.decls| && 0 <= k < |p.decls[i].sigs| && |p.decls[i].sigs| > 1 ::
          q == p.(decls := p.decls[i := FuncDecl(p.decls[i].name, Without(p.decls[i].sigs, k))]))
    || (q == p.(body := q.body) && OneStep(p.body, q.body))
  }

  lemma {:induction false} DeclStep(p: Program, from: nat, c: Program) returns (i: nat, k: nat)
    requires from <= |p.decls| && c in DeclSteps(p, from)
    ensures i < |p.decls| && k < |p.decls[i].sigs| && |p.decls[i].sigs| > 1
    ensures c == Prune(p.(decls := p.decls[i := FuncDecl(p.decls[i].name, Without(p.decls[i].sigs, k))]))
    decreases |p.decls| - from
  {
    hide Prune, Without;
    if c in SigSteps(p, from) {
      var j :| 0 <= j < |SigSteps(p, from)| && SigSteps(p, from)[j] == c;
      i, k := from, j;
    } else {
      i, k := DeclStep(p, from + 1, c);
    }
  }

  /** A candidate is the program with one slot or the class wrapper changed, and unused declarations
      pruned. */
  lemma ReductionChanges(p: Program, c: Program) returns (q: Program)
    requires c in Reductions(p)
    ensures Changed(p, q) && c == Prune(q)
  {
    hide Prune, Without, OneStep, Reduce, DropClass;
    if DropClass(p).Some? && c == Prune(DropClass(p).value) {
      q := DropClass(p).value;
    } else if c in DeclSteps(p, 0) {
      var i, k := DeclStep(p, 0, c);
      q := p.(decls := p.decls[i := FuncDecl(p.decls[i].name, Without(p.decls[i].sigs, k))]);
    } else {
      var bodies := Reduce(p.body);
      var k :| 0 <= k < |bodies| && c == Prune(p.(body := bodies[k]));
      ReducedIsOneStep(p.body, bodies[k]);
      q := p.(body := bodies[k]);
    }
  }

  lemma {:induction false} Redeclare(n: Node, scope: set<string>, declared: set<string>, fewer: set<string>, inClass: bool)
    requires Closed(n, scope, declared, inClass) && forall f | f in declared && Mentions(n, f) :: f in fewer
    ensures Closed(n, scope, fewer, inClass)
  {
    forall i | 0 <= i < |Children(n)| ensures Closed(Children(n)[i], Inside(n, scope), fewer, inClass) {
      Redeclare(Children(n)[i], Inside(n, scope), declared, fewer, inClass);
    }
  }

  lemma {:induction false} LeaveClass(n: Node, scope: set<string>, declared: set<string>)
    requires Closed(n, scope, declared, true) && !HasThis(n)
    ensures Closed(n, scope, declared, false)
  {
    forall i | 0 <= i < |Children(n)| ensures Closed(Children(n)[i], Inside(n, scope), declared, false) {
      LeaveClass(Children(n)[i], Inside(n, scope), declared);
    }
  }

  lemma PruneKeeps(p: Program)
    requires WellFormed(p)
    ensures WellFormed(Prune(p))
  {
    forall f | f in Names(p.decls) && Mentions(p.body, f) ensures f in Names(Prune(p).decls) {
      var d :| d in p.decls && d.name == f;
      assert d in Kept(p.decls, p.body);
    }
    Redeclare(p.body, {}, Names(p.decls), Names(Prune(p).decls), p.className.Some?);
  }

  lemma {:induction false} KeptIsLighter(decls: seq<FuncDecl>, body: Node)
    ensures DeclWeight(Kept(decls, body)) <= DeclWeight(decls)
  {
    if decls != [] {
      KeptIsLighter(decls[1..], body);
      var rest := Kept(decls[1..], body);
      assert ([decls[0]] + rest)[1..] == rest && [] + rest == rest;
    }
  }

  lemma {:induction false} DeclUpdateIsLighter(decls: seq<FuncDecl>, i: nat, d: FuncDecl)
    requires i < |decls| && |d.sigs| < |decls[i].sigs|
    ensures DeclWeight(decls[i := d]) < DeclWeight(decls)
  {
    if i > 0 {
      DeclUpdateIsLighter(decls[1..], i - 1, d);
      assert decls[i := d][1..] == decls[1..][i - 1 := d];
    } else {
      assert decls[i := d][1..] == decls[1..];
    }
  }

  lemma SameNames(decls: seq<FuncDecl>, i: nat, d: FuncDecl)
    requires i < |decls| && d.name == decls[i].name
    ensures Names(decls[i := d]) == Names(decls)
  {
    var more := decls[i := d];
    forall name | name in Names(decls) ensures name in Names(more) {
      var e :| e in decls && e.name == name;
      var k :| 0 <= k < |decls| && decls[k] == e;
      assert more[k] in more && more[k].name == name;
    }
    forall name | name in Names(more) ensures name in Names(decls) {
      var e :| e in more && e.name == name;
      var k :| 0 <= k < |more| && more[k] == e;
      assert decls[k] in decls && decls[k].name == name;
    }
  }

  lemma ChangeKeeps(p: Program, q: Program)
    requires WellFormed(p) && Changed(p, q)
    ensures WellFormed(q) && ProgramWeight(q) < ProgramWeight(p)
  {
    hide Weight, Without, WellPlaced, Closed, Mentions;
    if DropClass(p) == Some(q) {
      LeaveClass(p.body, {}, Names(p.decls));
    } else if q == p.(body := q.body) && OneStep(p.body, q.body) {
      BodyKeeps(p, q);
    } else {
      var i, k :| 0 <= i < |p.decls| && 0 <= k < |p.decls[i].sigs| && |p.decls[i].sigs| > 1
                  && q == p.(decls := p.decls[i := FuncDecl(p.decls[i].name, Without(p.decls[i].sigs, k))]);
      WithoutLength(p.decls[i].sigs, k);
      DeclUpdateIsLighter(p.decls, i, q.decls[i]);
      SameNames(p.decls, i, q.decls[i]);
    }
  }

  lemma WithoutLength<T>(s: seq<T>, k: nat)
    requires k < |s|
    ensures |Without(s, k)| == |s| - 1
  {
  }

  lemma BodyKeeps(p: Program, q: Program)
    requires WellFormed(p) && q == p.(body := q.body) && OneStep(p.body, q.body)
    ensures WellFormed(q) && ProgramWeight(q) < ProgramWeight(p)
  {
    hide Weight, Simplify, WellPlaced, Closed;
    var path :| StepAt(p.body, path, q.body);
    var s :| s in Simplify(NodeAt(p.body, path)) && q.body == Replace(p.body, path, s);
    OneStepIsReduced(p.body, path, s);
    ReduceKeeps(p.body, q.body);
  }

  /** Candidates of a well-formed program are well-formed and strictly lighter. */
  lemma ReductionsAreSound(p: Program, c: Program)
    requires WellFormed(p) && c in Reductions(p)
    ensures WellFormed(c) && ProgramWeight(c) < ProgramWeight(p)
  {
    hide WellFormed, Reductions, Changed;
    var q := ReductionChanges(p, c);
    ChangeKeeps(p, q);
    PruneKeeps(q);
    KeptIsLighter(q.decls, q.body);
  }

  /** Conversely every step of the body is tried. */
  lemma BodyStepsAreTried(p: Program, path: seq<nat>, s: Node)
    requires ValidPath(p.body, path) && s in Simplify(NodeAt(p.body, path))
    ensures Prune(p.(body := Replace(p.body, path, s))) in Reductions(p)
  {
    hide Prune, Simplify, DropClass, Reduce;
    OneStepIsReduced(p.body, path, s);
    var bodies := Reduce(p.body);
    var k :| 0 <= k < |bodies| && bodies[k] == Replace(p.body, path, s);
    var pruned := seq(|bodies|, j requires 0 <= j < |bodies| => Prune(p.(body := bodies[j])));
    assert pruned[k] in pruned;
  }
}
