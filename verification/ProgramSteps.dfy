/** The shrinker's steps, described on the trees: each kind of removal is tried at every place, and
    nothing else is. */
module ProgramSteps {
  import opened Wrappers
  import opened ProgramTree
  import opened ProgramReductions

  // ------------------------------------------------------------------ one node

  /** A call whose last argument is a callback that does not use its parameter and returns nothing. */
  ghost predicate Splices(call: Node, inner: seq<Node>) {
    && call.Call? && call.args != []
    && var last := call.args[|call.args| - 1];
       && last.Arrow? && last.body == Block(inner)
       && (forall s | s in inner :: !s.Ret?)
       && (last.param.Some? ==> !Mentions(last.body, last.param.value))
  }

  /** `s` is `n` with one thing less. */
  ghost predicate Trims(n: Node, s: Node) {
    match n
    case Block(stmts) =>
      || (exists i | 0 <= i < |stmts| :: s == Block(stmts[..i] + stmts[i + 1..]))
      || (exists i, inner | 0 <= i < |stmts| && Splices(stmts[i], inner) :: s == Block(stmts[..i] + inner + stmts[i + 1..]))
    case Arrow(param, generic, body) =>
      || (generic && s == Arrow(param, false, body))
      || (param.Some? && !Mentions(body, param.value) && s == Arrow(None, generic, body))
      || (exists stmt :: body == Block([stmt]) && !stmt.Ret? && s == Arrow(param, generic, stmt))
    case ObjLit(keys, values) =>
      |keys| == |values| > 1
      && exists i | 0 <= i < |values| :: s == ObjLit(keys[..i] + keys[i + 1..], values[..i] + values[i + 1..])
    case ArrLit(items) =>
      |items| > 1 && exists i | 0 <= i < |items| :: s == ArrLit(items[..i] + items[i + 1..])
    case Raw(_, alts) => exists i | 0 <= i < |alts| :: s == Raw(alts[i], alts[i + 1..])
    case Call(_, _) => false
    case Ret(_) => false
  }

  lemma SplicesIsFlattenable(stmt: Node, inner: seq<Node>)
    ensures Splices(stmt, inner) <==> Flattenable(stmt) == Some(inner)
  {
  }

  lemma {:induction false} BlockStepIn(stmts: seq<Node>, from: nat, i: nat)
    requires from <= i < |stmts|
    ensures Block(stmts[..i] + stmts[i + 1..]) in BlockSteps(stmts, from)
    ensures Flattenable(stmts[i]).Some? ==>
              Block(stmts[..i] + Flattenable(stmts[i]).value + stmts[i + 1..]) in BlockSteps(stmts, from)
    decreases i - from
  {
    hide Flattenable;
    if from < i {
      BlockStepIn(stmts, from + 1, i);
    }
  }

  lemma BlockTrims(stmts: seq<Node>, s: Node)
    ensures s in BlockSteps(stmts, 0) <==> Trims(Block(stmts), s)
  {
    hide Flattenable, BlockSteps, Splices;
    if s in BlockSteps(stmts, 0) {
      var k := BlockStep(stmts, 0, s);
      if s != Block(Without(stmts, k)) {
        SplicesIsFlattenable(stmts[k], Flattenable(stmts[k]).value);
      }
    }
    if Trims(Block(stmts), s) {
      if i :| 0 <= i < |stmts| && s == Block(stmts[..i] + stmts[i + 1..]) {
        BlockStepIn(stmts, 0, i);
      } else {
        var i, inner :| 0 <= i < |stmts| && Splices(stmts[i], inner) && s == Block(stmts[..i] + inner + stmts[i + 1..]);
        SplicesIsFlattenable(stmts[i], inner);
        BlockStepIn(stmts, 0, i);
      }
    }
  }

  lemma ArrowTrims(n: Node, s: Node)
    requires n.Arrow?
    ensures s in Simplify(n) <==> Trims(n, s)
  {
    hide Mentions;
    if n.body.Block? && |n.body.stmts| == 1 {
      assert n.body == Block([n.body.stmts[0]]);
    }
  }

  lemma ListTrims(n: Node, s: Node)
    requires n.ObjLit? || n.ArrLit? || n.Raw?
    ensures s in Simplify(n) <==> Trims(n, s)
  {
    var all := Simplify(n);
    if Trims(n, s) {
      match n
      case ObjLit(keys, values) =>
        var i :| 0 <= i < |values| && s == ObjLit(keys[..i] + keys[i + 1..], values[..i] + values[i + 1..]);
        assert all[i] == s;
      case ArrLit(items) =>
        var i :| 0 <= i < |items| && s == ArrLit(items[..i] + items[i + 1..]);
        assert all[i] == s;
      case Raw(_, alts) =>
        var i :| 0 <= i < |alts| && s == Raw(alts[i], alts[i + 1..]);
        assert all[i] == s;
    }
  }

  /** The simplifications of a node are exactly its trims. */
  lemma SimplifyTrims(n: Node, s: Node)
    ensures s in Simplify(n) <==> Trims(n, s)
  {
    hide BlockSteps, Mentions, Splices;
    match n
    case Block(stmts) => BlockTrims(stmts, s);
    case Arrow(_, _, _) => ArrowTrims(n, s);
    case ObjLit(_, _) => ListTrims(n, s);
    case ArrLit(_) => ListTrims(n, s);
    case Raw(_, _) => ListTrims(n, s);
    case Call(_, _) =>
    case Ret(_) =>
  }

  // ------------------------------------------------------------------ places

  /** `c` is `n` except at the end of the path, where it has `s`: the node there is what differs. */
  ghost predicate DiffersAt(n: Node, path: seq<nat>, c: Node, s: Node)
    decreases |path|
  {
    if path == [] then c == s
    else
      && path[0] < |Children(n)| == |Children(c)| && SameLabel(n, c)
      && (forall i | 0 <= i < |Children(n)| && i != path[0] :: Children(c)[i] == Children(n)[i])
      && DiffersAt(Children(n)[path[0]], path[1..], Children(c)[path[0]], s)
  }

  /** The nodes agree in everything but their children. */
  ghost predicate SameLabel(n: Node, c: Node) {
    match n
    case Raw(leaf, alts) => c == n
    case Arrow(param, generic, _) => c.Arrow? && c.param == param && c.generic == generic
    case ObjLit(keys, _) => c.ObjLit? && c.keys == keys
    case ArrLit(_) => c.ArrLit?
    case Call(callee, _) => c.Call? && c.callee == callee
    case Ret(_) => c.Ret?
    case Block(_) => c.Block?
  }

  lemma {:induction false} ReplacedDiffers(n: Node, path: seq<nat>, s: Node)
    requires ValidPath(n, path)
    ensures DiffersAt(n, path, Replace(n, path, s), s)
    decreases |path|
  {
    if path != [] {
      var m, rest := Children(n)[path[0]], path[1..];
      ReplacedDiffers(m, rest, s);
      LabelStays(n, path[0], Replace(m, rest, s));
    }
  }

  lemma LabelStays(n: Node, i: nat, c: Node)
    requires i < |Children(n)|
    ensures SameLabel(n, With(n, i, c)) && Children(With(n, i, c)) == Children(n)[i := c]
  {
  }

  lemma {:induction false} DiffersIsReplaced(n: Node, path: seq<nat>, c: Node, s: Node)
    requires ValidPath(n, path) && DiffersAt(n, path, c, s)
    ensures c == Replace(n, path, s)
    decreases |path|
  {
    if path != [] {
      var i, m, rest := path[0], Children(n)[path[0]], path[1..];
      DiffersIsReplaced(m, rest, Children(c)[i], s);
      var r := With(n, i, Replace(m, rest, s));
      LabelStays(n, i, Replace(m, rest, s));
      assert Children(c) == Children(r);
      SameNode(n, c, r);
    }
  }

  lemma SameNode(n: Node, c: Node, r: Node)
    requires SameLabel(n, c) && SameLabel(n, r) && Children(c) == Children(r)
    ensures c == r
  {
    if n.Arrow? || n.Ret? {
      assert Children(c)[0] == Children(r)[0];
    }
  }

  /** A node spells a name in its own text: a leaf's identifiers, a parameter or the type parameter of
      a generic callback, a key, a callee, or the keyword of a return. */
  ghost predicate Spells(n: Node, name: string) {
    match n
    case Raw(leaf, _) => name in leaf.names
    case Arrow(param, generic, _) => param == Some(name) || (generic && name == "U")
    case ObjLit(keys, _) => name in keys
    case ArrLit(_) => false
    case Call(callee, _) => name == callee
    case Ret(_) => name == "return"
    case Block(_) => false
  }

  /** A name is mentioned exactly when some place of the tree spells it. */
  lemma MentionedSomewhere(n: Node, name: string)
    ensures Mentions(n, name) <==> exists path :: ValidPath(n, path) && Spells(NodeAt(n, path), name)
  {
    if Mentions(n, name) {
      var path := WhereMentioned(n, name);
      OwnNamesAreSpelt(NodeAt(n, path), name);
    }
    if path :| ValidPath(n, path) && Spells(NodeAt(n, path), name) {
      OwnNamesAreSpelt(NodeAt(n, path), name);
      MentionedThere(n, path, name);
    }
  }

  lemma OwnNamesAreSpelt(n: Node, name: string)
    ensures name in OwnNames(n) <==> Spells(n, name)
  {
  }

  lemma {:induction false} MentionedThere(n: Node, path: seq<nat>, name: string)
    requires ValidPath(n, path) && name in OwnNames(NodeAt(n, path))
    ensures Mentions(n, name)
    decreases |path|
  {
    if path != [] {
      MentionedThere(Children(n)[path[0]], path[1..], name);
    }
  }

  lemma {:induction false} WhereMentioned(n: Node, name: string) returns (path: seq<nat>)
    requires Mentions(n, name)
    ensures ValidPath(n, path) && name in OwnNames(NodeAt(n, path))
  {
    path := [];
    if name !in OwnNames(n) {
      var i :| 0 <= i < |Children(n)| && Mentions(Children(n)[i], name);
      var rest := WhereMentioned(Children(n)[i], name);
      Longer(n, i, rest);
      path := [i] + rest;
    }
  }

  lemma Longer(n: Node, i: nat, path: seq<nat>)
    requires i < |Children(n)| && ValidPath(Children(n)[i], path)
    ensures ValidPath(n, [i] + path) && NodeAt(n, [i] + path) == NodeAt(Children(n)[i], path)
  {
    assert ([i] + path)[1..] == path;
  }

  ghost predicate SelfAt(n: Node, path: seq<nat>) {
    ValidPath(n, path) && NodeAt(n, path).Raw? && NodeAt(n, path).leaf.self
  }

  /** `this` is used exactly when some leaf of the tree does. */
  lemma ThisSomewhere(n: Node)
    ensures HasThis(n) <==> exists path :: SelfAt(n, path)
  {
    if HasThis(n) {
      var path := WhereThis(n);
    }
    if path :| SelfAt(n, path) {
      ThisThere(n, path);
    }
  }

  lemma {:induction false} ThisThere(n: Node, path: seq<nat>)
    requires SelfAt(n, path)
    ensures HasThis(n)
    decreases |path|
  {
    if path != [] {
      ThisThere(Children(n)[path[0]], path[1..]);
    }
  }

  lemma {:induction false} WhereThis(n: Node) returns (path: seq<nat>)
    requires HasThis(n)
    ensures SelfAt(n, path)
  {
    path := [];
    if !(n.Raw? && n.leaf.self) {
      var i :| 0 <= i < |Children(n)| && HasThis(Children(n)[i]);
      var rest := WhereThis(Children(n)[i]);
      Longer(n, i, rest);
      path := [i] + rest;
    }
  }

  // ------------------------------------------------------------------ whole programs

  ghost predicate TrimmedAt(n: Node, path: seq<nat>, c: Node, s: Node) {
    ValidPath(n, path) && Trims(NodeAt(n, path), s) && DiffersAt(n, path, c, s)
  }

  lemma OneStepTrims(n: Node, c: Node)
    ensures OneStep(n, c) <==> exists path, s :: TrimmedAt(n, path, c, s)
  {
    hide Simplify, Trims, DiffersAt, Replace, NodeAt, ValidPath;
    if OneStep(n, c) {
      var path :| StepAt(n, path, c);
      var s :| s in Simplify(NodeAt(n, path)) && c == Replace(n, path, s);
      SimplifyTrims(NodeAt(n, path), s);
      ReplacedDiffers(n, path, s);
      assert TrimmedAt(n, path, c, s);
    }
    if path, s :| TrimmedAt(n, path, c, s) {
      SimplifyTrims(NodeAt(n, path), s);
      DiffersIsReplaced(n, path, c, s);
      assert StepAt(n, path, c);
    }
  }

  /** One thing less in the program: the class around a body without `this`, one of several signatures
      of a declaration, or a trim at one place of the body. */
  ghost predicate Shrinks(p: Program, q: Program) {
    || (p.className.Some? && !HasThis(p.body) && q == Program(p.decls, p.body, None))
    || (exists i, k | 0 <= i < |p.decls| && 0 <= k < |p.decls[i].sigs| && |p.decls[i].sigs| > 1 ::
          q == Program(p.decls[i := FuncDecl(p.decls[i].name, p.decls[i].sigs[..k] + p.decls[i].sigs[k + 1..])], p.body, p.className))
    || (q == Program(p.decls, q.body, p.className) && exists path, s :: TrimmedAt(p.body, path, q.body, s))
  }

  /** The declarations a body still mentions, in their order. */
  ghost predicate Pruned(q: Program, c: Program) {
    && c.body == q.body && c.className == q.className
    && exists kept: seq<bool> | |kept| == |q.decls| ::
         (forall i | 0 <= i < |kept| :: kept[i] <==> Mentions(q.body, q.decls[i].name)) && c.decls == Marked(q.decls, kept)
  }

  ghost function Marked<T>(s: seq<T>, kept: seq<bool>): seq<T>
    requires |s| == |kept|
  {
    if s == [] then [] else (if kept[0] then [s[0]] else []) + Marked(s[1..], kept[1..])
  }

  lemma {:induction false} KeptIsMarked(decls: seq<FuncDecl>, body: Node, kept: seq<bool>)
    requires |kept| == |decls| && forall i | 0 <= i < |kept| :: kept[i] <==> Mentions(body, decls[i].name)
    ensures Kept(decls, body) == Marked(decls, kept)
  {
    if decls != [] {
      KeptIsMarked(decls[1..], body, kept[1..]);
    }
  }

  lemma PruneIsPruned(q: Program, c: Program)
    ensures Pruned(q, c) <==> c == Prune(q)
  {
    hide Mentions;
    var kept := seq(|q.decls|, i requires 0 <= i < |q.decls| => Mentions(q.body, q.decls[i].name));
    KeptIsMarked(q.decls, q.body, kept);
    if Pruned(q, c) {
      var other: seq<bool> :| |other| == |q.decls|
        && (forall i | 0 <= i < |other| :: other[i] <==> Mentions(q.body, q.decls[i].name)) && c.decls == Marked(q.decls, other);
      assert other == kept;
    }
  }

  lemma DeclStepIn(p: Program, from: nat, i: nat, k: nat)
    requires from <= i < |p.decls| && k < |p.decls[i].sigs| && |p.decls[i].sigs| > 1
    ensures Prune(p.(decls := p.decls[i := FuncDecl(p.decls[i].name, Without(p.decls[i].sigs, k))])) in DeclSteps(p, from)
    decreases i - from
  {
    hide Prune, Without;
    if from < i {
      DeclStepIn(p, from + 1, i, k);
    } else {
      var c := Prune(p.(decls := p.decls[i := FuncDecl(p.decls[i].name, Without(p.decls[i].sigs, k))]));
      assert SigSteps(p, i)[k] == c;
    }
  }

  lemma ChangedShrinks(p: Program, q: Program)
    ensures Changed(p, q) <==> Shrinks(p, q)
  {
    hide Simplify, HasThis, OneStep, TrimmedAt;
    OneStepTrims(p.body, q.body);
    if p.className.Some? && !HasThis(p.body) {
      assert DropClass(p) == Some(Program(p.decls, p.body, None));
    }
    assert p.(body := q.body) == Program(p.decls, q.body, p.className);
    forall i, k | 0 <= i < |p.decls| && 0 <= k < |p.decls[i].sigs|
      ensures Without(p.decls[i].sigs, k) == p.decls[i].sigs[..k] + p.decls[i].sigs[k + 1..]
    {
    }
  }

  /** One thing less, and then pruned. */
  ghost predicate Step(p: Program, c: Program) {
    exists q :: Shrinks(p, q) && Pruned(q, c)
  }

  /** The candidates of a program are exactly its steps. */
  lemma ReductionsShrink(p: Program, c: Program)
    ensures c in Reductions(p) <==> Step(p, c)
  {
    hide Shrinks, Pruned, Changed, Prune, Reductions;
    if c in Reductions(p) {
      var q := ReductionChanges(p, c);
      ChangedShrinks(p, q);
      PruneIsPruned(q, c);
    }
    if q :| Shrinks(p, q) && Pruned(q, c) {
      ChangedShrinks(p, q);
      PruneIsPruned(q, c);
      ChangedIsReduced(p, q);
    }
  }

  lemma ChangedIsReduced(p: Program, q: Program)
    requires Changed(p, q)
    ensures Prune(q) in Reductions(p)
  {
    hide Prune, Without, Reduce, OneStep, HasThis;
    if DropClass(p) == Some(q) {
    } else if q == p.(body := q.body) && OneStep(p.body, q.body) {
      StepIsReduced(p, q);
    } else {
      var i, k :| 0 <= i < |p.decls| && 0 <= k < |p.decls[i].sigs| && |p.decls[i].sigs| > 1
                  && q == p.(decls := p.decls[i := FuncDecl(p.decls[i].name, Without(p.decls[i].sigs, k))]);
      DeclStepIn(p, 0, i, k);
    }
  }

  lemma StepIsReduced(p: Program, q: Program)
    requires q == p.(body := q.body) && OneStep(p.body, q.body)
    ensures Prune(q) in Reductions(p)
  {
    hide Prune, Reductions, Simplify;
    var path :| StepAt(p.body, path, q.body);
    var s :| s in Simplify(NodeAt(p.body, path)) && q.body == Replace(p.body, path, s);
    BodyStepsAreTried(p, path, s);
  }
}
