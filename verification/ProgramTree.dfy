/** Generated differential programs as trees, and the one-step reductions the shrinker tries. */
module ProgramTree {
  import opened Wrappers

  /** A leaf text by what it mentions: all identifiers, the callback parameters among them, `this`. */
  datatype Leaf = Leaf(text: string, names: set<string>, refs: set<string>, self: bool)

  datatype Node =
    | Raw(leaf: Leaf, alts: seq<Leaf>)
    | Arrow(param: Option<string>, generic: bool, body: Node)
    | ObjLit(keys: seq<string>, values: seq<Node>)
    | ArrLit(items: seq<Node>)
    | Call(callee: string, args: seq<Node>)
    | Ret(expr: Node)
    | Block(stmts: seq<Node>)

  datatype FuncDecl = FuncDecl(name: string, sigs: seq<string>)

  datatype Program = Program(decls: seq<FuncDecl>, body: Node, className: Option<string>)

  // ------------------------------------------------------------------ children

  function Children(n: Node): (cs: seq<Node>)
    ensures forall i | 0 <= i < |cs| :: cs[i] < n
  {
    match n {
      case Raw(_, _) => []
      case Arrow(_, _, body) => [body]
      case ObjLit(_, values) => values
      case ArrLit(items) => items
      case Call(_, args) => args
      case Ret(expr) => [expr]
      case Block(stmts) => stmts
    }
  }

  /** The node with child `i` replaced: what the slot's setter does. */
  function With(n: Node, i: nat, c: Node): (r: Node)
    requires i < |Children(n)|
    ensures Children(r) == Children(n)[i := c]
  {
    match n {
      case Arrow(p, g, _) => Arrow(p, g, c)
      case ObjLit(keys, values) => ObjLit(keys, values[i := c])
      case ArrLit(items) => ArrLit(items[i := c])
      case Call(callee, args) => Call(callee, args[i := c])
      case Ret(_) => Ret(c)
      case Block(stmts) => Block(stmts[i := c])
    }
  }

  // ------------------------------------------------------------------ what a tree mentions

  /** The identifiers of a node's own text, without its children. */
  function OwnNames(n: Node): set<string> {
    match n {
      case Raw(leaf, _) => leaf.names
      case Arrow(param, generic, _) => (if param.Some? then {param.value} else {}) + (if generic then {"U"} else {})
      case ObjLit(keys, _) => set k | k in keys
      case ArrLit(_) => {}
      case Call(callee, _) => {callee}
      case Ret(_) => {"return"}
      case Block(_) => {}
    }
  }

  predicate Mentions(n: Node, name: string) {
    name in OwnNames(n) || exists i | 0 <= i < |Children(n)| :: Mentions(Children(n)[i], name)
  }

  predicate HasThis(n: Node) {
    (n.Raw? && n.leaf.self) || exists i | 0 <= i < |Children(n)| :: HasThis(Children(n)[i])
  }

  // ------------------------------------------------------------------ well-formed trees

  /** Each alternative of a leaf mentions no more than the text it may replace. */
  ghost predicate Narrower(a: Leaf, b: Leaf) {
    a.names <= b.names && a.refs <= b.refs && (a.self ==> b.self)
  }

  ghost predicate GoodLeaf(leaf: Leaf, alts: seq<Leaf>) {
    && leaf.refs <= leaf.names && (forall i | 0 <= i < |alts| :: alts[i].refs <= alts[i].names)
    && (forall i | 0 <= i < |alts| :: Narrower(alts[i], leaf))
    && (forall i, j | 0 <= i < j < |alts| :: Narrower(alts[j], alts[i]))
  }

  predicate IsExpr(n: Node) {
    !n.Ret? && !n.Block?
  }

  /** Every child stands where it can be rendered. */
  ghost predicate WellPlaced(n: Node) {
    && (n.Raw? ==> GoodLeaf(n.leaf, n.alts))
    && (n.Arrow? ==> IsExpr(n.body) || n.body.Block?)
    && (n.ObjLit? ==> |n.keys| == |n.values|)
    && (n.ObjLit? || n.ArrLit? || n.Call? || n.Ret? ==> forall i | 0 <= i < |Children(n)| :: IsExpr(Children(n)[i]))
    && (n.Block? ==> forall i | 0 <= i < |n.stmts| :: !n.stmts[i].Block?)
    && (forall i | 0 <= i < |Children(n)| :: WellPlaced(Children(n)[i]))
  }

  function Inside(n: Node, scope: set<string>): set<string> {
    if n.Arrow? && n.param.Some? then scope + {n.param.value} else scope
  }

  /** Every parameter reference is bound, every call has a declaration, every `this` is in a class. */
  ghost predicate Closed(n: Node, scope: set<string>, declared: set<string>, inClass: bool) {
    && (n.Raw? ==> n.leaf.refs <= scope && (n.leaf.self ==> inClass))
    && (n.Call? ==> n.callee in declared)
    && (forall i | 0 <= i < |Children(n)| :: Closed(Children(n)[i], Inside(n, scope), declared, inClass))
  }

  function Names(decls: seq<FuncDecl>): set<string> {
    set d | d in decls :: d.name
  }

  ghost predicate WellFormed(p: Program) {
    p.body.Block? && WellPlaced(p.body) && Closed(p.body, {}, Names(p.decls), p.className.Some?)
  }

  // ------------------------------------------------------------------ weight

  function Weight(n: Node): (w: nat)
    ensures w >= 1
  {
    match n {
      case Raw(_, alts) => 1 + |alts|
      case Arrow(param, generic, body) => 1 + (if generic then 1 else 0) + (if param.Some? then 1 else 0) + Weight(body)
      case ObjLit(_, values) => 1 + Total(values)
      case ArrLit(items) => 1 + Total(items)
      case Call(_, args) => 1 + Total(args)
      case Ret(expr) => 1 + Weight(expr)
      case Block(stmts) => 1 + Total(stmts)
    }
  }

  function Total(ns: seq<Node>): nat {
    if ns == [] then 0 else Weight(ns[0]) + Total(ns[1..])
  }

  function OwnWeight(n: Node): nat {
    1 + (if n.Raw? then |n.alts| else 0)
      + (if n.Arrow? then (if n.generic then 1 else 0) + (if n.param.Some? then 1 else 0) else 0)
  }

  lemma WeightSplits(n: Node)
    ensures Weight(n) == OwnWeight(n) + Total(Children(n))
  {
    if n.Arrow? || n.Ret? {
      assert Children(n)[1..] == [];
    }
  }

  lemma {:induction false} TotalConcat(a: seq<Node>, b: seq<Node>)
    ensures Total(a + b) == Total(a) + Total(b)
  {
    if a == [] {
      assert a + b == b;
    } else {
      TotalConcat(a[1..], b);
      assert (a + b)[1..] == a[1..] + b;
    }
  }

  lemma TotalUpdate(ns: seq<Node>, i: nat, c: Node)
    requires i < |ns|
    ensures Total(ns[i := c]) == Total(ns) - Weight(ns[i]) + Weight(c)
  {
    hide Weight, Total;
    assert ns == ns[..i] + [ns[i]] + ns[i + 1..];
    assert ns[i := c] == ns[..i] + [c] + ns[i + 1..];
    TotalConcat(ns[..i] + [ns[i]], ns[i + 1..]);
    TotalConcat(ns[..i] + [c], ns[i + 1..]);
    TotalConcat(ns[..i], [ns[i]]);
    TotalConcat(ns[..i], [c]);
    TotalOne(ns[i]);
    TotalOne(c);
  }

  function DeclWeight(decls: seq<FuncDecl>): nat {
    if decls == [] then 0 else 1 + |decls[0].sigs| + DeclWeight(decls[1..])
  }

  function ProgramWeight(p: Program): nat {
    DeclWeight(p.decls) + Weight(p.body) + if p.className.Some? then 1 else 0
  }

  // ------------------------------------------------------------------ simplifications of one node

  /** The list without its element `i`. */
  function Without<T>(s: seq<T>, i: nat): seq<T>
    requires i < |s|
  {
    s[..i] + s[i + 1..]
  }

  /** The statements of a last callback argument whose parameter nothing mentions. */
  function Flattenable(stmt: Node): Option<seq<Node>> {
    if !stmt.Call? || stmt.args == [] then None
    else
      var last := stmt.args[|stmt.args| - 1];
      if !last.Arrow? || !last.body.Block? then None
      else if last.param.Some? && Mentions(last.body, last.param.value) then None
      else if exists s | s in last.body.stmts :: s.Ret? then None
      else Some(last.body.stmts)
  }

  function BlockSteps(stmts: seq<Node>, i: nat): seq<Node>
    requires i <= |stmts|
    decreases |stmts| - i
  {
    if i == |stmts| then []
    else
      [Block(Without(stmts, i))]
      + (match Flattenable(stmts[i]) {
           case Some(inner) => [Block(stmts[..i] + inner + stmts[i + 1..])]
           case None => []
         })
      + BlockSteps(stmts, i + 1)
  }

  function Simplify(n: Node): seq<Node> {
    match n {
      case Block(stmts) => BlockSteps(stmts, 0)
      case Arrow(param, generic, body) =>
        (if generic then [Arrow(param, false, body)] else [])
        + (if param.Some? && !Mentions(body, param.value) then [Arrow(None, generic, body)] else [])
        + (if body.Block? && |body.stmts| == 1 && !body.stmts[0].Ret? then [Arrow(param, generic, body.stmts[0])] else [])
      case ObjLit(keys, values) =>
        if |keys| == |values| > 1
        then seq(|values|, i requires 0 <= i < |values| => ObjLit(Without(keys, i), Without(values, i))) else []
      case ArrLit(items) =>
        if |items| > 1 then seq(|items|, i requires 0 <= i < |items| => ArrLit(Without(items, i))) else []
      case Raw(_, alts) => seq(|alts|, i requires 0 <= i < |alts| => Raw(alts[i], alts[i + 1..]))
      case Call(_, _) => []
      case Ret(_) => []
    }
  }

  /** What a replacement in a slot has to keep, whatever surrounds the slot. */
  ghost predicate Keeps(n: Node, c: Node) {
    && Weight(c) < Weight(n)
    && (c.Ret? <==> n.Ret?) && (c.Block? <==> n.Block?)
    && (WellPlaced(n) ==> WellPlaced(c))
    && (forall scope: set<string>, declared: set<string>, inClass: bool | WellPlaced(n) && Closed(n, scope, declared, inClass) ::
          Closed(c, scope, declared, inClass))
  }

  lemma TotalWithout(ns: seq<Node>, i: nat)
    requires i < |ns|
    ensures Total(Without(ns, i)) + Weight(ns[i]) == Total(ns)
  {
    hide Weight, Total;
    assert ns == ns[..i] + [ns[i]] + ns[i + 1..];
    TotalConcat(ns[..i] + [ns[i]], ns[i + 1..]);
    TotalConcat(ns[..i], [ns[i]]);
    TotalConcat(ns[..i], ns[i + 1..]);
    TotalOne(ns[i]);
  }

  lemma TotalOne(n: Node)
    ensures Total([n]) == Weight(n)
  {
    assert [n][1..] == [];
  }

  /** A binding nothing mentions can go. */
  lemma {:induction false} Strengthen(n: Node, scope: set<string>, p: string, declared: set<string>, inClass: bool)
    requires WellPlaced(n) && Closed(n, scope + {p}, declared, inClass) && !Mentions(n, p)
    ensures Closed(n, scope, declared, inClass)
  {
    forall i | 0 <= i < |Children(n)| ensures Closed(Children(n)[i], Inside(n, scope), declared, inClass) {
      if n.Arrow? && n.param.Some? {
        assert n.param.value != p;
        assert scope + {p} + {n.param.value} == scope + {n.param.value} + {p};
      }
      assert Inside(n, scope + {p}) == Inside(n, scope) + {p};
      Strengthen(Children(n)[i], Inside(n, scope), p, declared, inClass);
    }
  }

  lemma RawKeeps(leaf: Leaf, alts: seq<Leaf>, i: nat)
    requires i < |alts|
    ensures Keeps(Raw(leaf, alts), Raw(alts[i], alts[i + 1..]))
  {
    var rest := alts[i + 1..];
    assert forall j | 0 <= j < |rest| :: rest[j] == alts[i + 1 + j];
  }

  lemma ListKeeps(n: Node, c: Node, i: nat)
    requires i < |Children(n)| && Children(c) == Without(Children(n), i)
    requires (n.ArrLit? && c.ArrLit?) || (n.Block? && c.Block?)
             || (n.ObjLit? && c.ObjLit? && (|n.keys| == |n.values| ==> |c.keys| == |c.values|))
    ensures Keeps(n, c)
  {
    hide Weight, Total;
    TotalWithout(Children(n), i);
    WeightSplits(n);
    WeightSplits(c);
    var cs := Without(Children(n), i);
    assert forall j | 0 <= j < |cs| :: cs[j] == Children(n)[if j < i then j else j + 1];
  }

  lemma ArrowKeeps(param: Option<string>, generic: bool, body: Node, c: Node)
    requires c in Simplify(Arrow(param, generic, body))
    ensures Keeps(Arrow(param, generic, body), c)
  {
    var n := Arrow(param, generic, body);
    if c == Arrow(param, false, body) && generic {
      SameBody(n, c);
    } else if c == Arrow(None, generic, body) && param.Some? && !Mentions(body, param.value) {
      forall scope: set<string>, declared: set<string>, inClass: bool | WellPlaced(n) && Closed(n, scope, declared, inClass)
        ensures Closed(c, scope, declared, inClass)
      {
        assert Children(n)[0] == body && Children(c)[0] == body;
        Strengthen(body, scope, param.value, declared, inClass);
      }
      SameWeight(n, c);
    } else {
      UnwrapKeeps(param, generic, body);
    }
  }

  lemma SameWeight(n: Node, c: Node)
    requires n.Arrow? && c.Arrow? && c.body == n.body && c.generic == n.generic && n.param.Some? && c.param.None?
    ensures Weight(c) < Weight(n) && (WellPlaced(n) ==> WellPlaced(c))
  {
    assert Children(n) == [n.body] == Children(c);
  }

  lemma SameBody(n: Node, c: Node)
    requires n.Arrow? && n.generic && c == Arrow(n.param, false, n.body)
    ensures Keeps(n, c)
  {
    assert Children(n) == [n.body] == Children(c);
  }

  lemma UnwrapKeeps(param: Option<string>, generic: bool, body: Node)
    requires body.Block? && |body.stmts| == 1 && !body.stmts[0].Ret?
    ensures Keeps(Arrow(param, generic, body), Arrow(param, generic, body.stmts[0]))
  {
    var n, s := Arrow(param, generic, body), body.stmts[0];
    var c := Arrow(param, generic, s);
    assert Children(n) == [body] && Children(c) == [s] && Children(body) == [s];
    assert Total([s]) == Weight(s) + Total([s][1..]) && Total([body]) == Weight(body) + Total([body][1..]);
    forall scope: set<string>, declared: set<string>, inClass: bool | WellPlaced(n) && Closed(n, scope, declared, inClass)
      ensures Closed(c, scope, declared, inClass)
    {
      assert Closed(Children(n)[0], Inside(n, scope), declared, inClass);
      assert Closed(Children(body)[0], Inside(body, Inside(n, scope)), declared, inClass);
    }
    if WellPlaced(n) {
      assert WellPlaced(Children(n)[0]);
      assert WellPlaced(Children(body)[0]);
    }
  }
}
