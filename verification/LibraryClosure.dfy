/** The reference-lib closure: a recursive resolver with errors, the worklist that validates its
    recorded graph, and the second walk of the package verifier.  All three agree. */
module LibraryClosure {
  import opened Counting
  import opened Graphs

  datatype ReferenceEdge = ReferenceEdge(lib: string, file: string)

  /** What loading one file and parsing its reference-lib lines gives. */
  datatype Loaded = Missing | Malformed | Parsed(libs: seq<string>)

  datatype ProfileError =
    | UnsafeName(file: string)
    | MissingFile(file: string)
    | MalformedFile(file: string)
    | UnknownLib(file: string, lib: string)
    | DuplicateTarget(file: string, target: string)
    | Cyclic(cycle: seq<string>)

  datatype Outcome = Resolved | Rejected(error: ProfileError)

  /** The inputs of a resolution. */
  datatype Library = Library(root: string, libMap: map<string, string>, load: string -> Loaded, safe: string -> bool)
  {
    /** Every file a resolution can touch. */
    function Universe(): set<string> {
      {root} + libMap.Values
    }

    function Known(libs: seq<string>): (targets: seq<string>)
      ensures forall t | t in targets :: t in libMap.Values
      ensures forall t :: t in targets <==> exists i :: 0 <= i < |libs| && libs[i] in libMap && libMap[libs[i]] == t
    {
      if libs == [] then []
      else
        var rest := Known(libs[1..]);
        assert forall i | 0 <= i < |libs| - 1 :: libs[1..][i] == libs[i + 1];
        if libs[0] in libMap then [libMap[libs[0]]] + rest else rest
    }

    /** The references of a file that the library map knows. */
    function Points(file: string): (targets: seq<string>)
      ensures forall t | t in targets :: t in libMap.Values
    {
      match load(file) {
        case Parsed(libs) => Known(libs)
        case Missing => []
        case Malformed => []
      }
    }

    function Graph(): Graph<string> {
      map f | f in Universe() :: Points(f)
    }

    /** A file that can be resolved once its targets are. */
    predicate Good(file: string) {
      && safe(file) && load(file).Parsed?
      && var libs := load(file).libs;
         && (forall i | 0 <= i < |libs| :: libs[i] in libMap && safe(libMap[libs[i]]))
         && (forall i, j | 0 <= i < j < |libs| :: libMap[libs[i]] != libMap[libs[j]])
    }

    /** The ordered references of a good file. */
    function References(file: string): (edges: seq<ReferenceEdge>)
      requires Good(file)
      ensures |edges| == |load(file).libs|
      ensures forall i | 0 <= i < |edges| :: edges[i].lib == load(file).libs[i] && edges[i].file == libMap[edges[i].lib]
    {
      var libs := load(file).libs;
      seq(|libs|, i requires 0 <= i < |libs| => ReferenceEdge(libs[i], libMap[libs[i]]))
    }

    /** Nothing reachable is bad and nothing reachable is on a cycle. */
    ghost predicate Resolvable() {
      forall f | Reaches(Graph(), root, f) :: Good(f) && !OnCycle(Graph(), f)
    }

    /** An error names something that really is wrong with a reachable file. */
    ghost predicate Explains(e: ProfileError) {
      match e {
        case UnsafeName(f) => Reaches(Graph(), root, f) && !safe(f)
        case MissingFile(f) => Reaches(Graph(), root, f) && load(f).Missing?
        case MalformedFile(f) => Reaches(Graph(), root, f) && load(f).Malformed?
        case UnknownLib(f, l) => Reaches(Graph(), root, f) && load(f).Parsed? && l in load(f).libs && l !in libMap
        case DuplicateTarget(f, t) => Reaches(Graph(), root, f) && RepeatsTarget(f, t)
        case Cyclic(c) => |c| > 1 && IsPath(Graph(), c) && c[0] == c[|c| - 1] && Reaches(Graph(), root, c[0])
      }
    }

    ghost predicate RepeatsTarget(f: string, t: string) {
      && load(f).Parsed?
      && var libs := load(f).libs;
         exists i, j | 0 <= i < j < |libs| && libs[i] in libMap && libs[j] in libMap ::
           libMap[libs[i]] == t && libMap[libs[j]] == t
    }

    lemma ReferenceIsEdge(file: string, i: nat)
      requires file in Universe() && load(file).Parsed? && i < |load(file).libs| && load(file).libs[i] in libMap
      ensures Edge(Graph(), file, libMap[load(file).libs[i]])
      ensures libMap[load(file).libs[i]] in Universe()
    {
      var t := libMap[load(file).libs[i]];
      assert t in Known(load(file).libs);
    }

    lemma FollowedIsGood(file: string, done: set<string>)
      requires safe(file) && load(file).Parsed?
      requires forall i | 0 <= i < |load(file).libs| :: load(file).libs[i] in libMap && safe(libMap[load(file).libs[i]])
      requires forall i | 0 <= i < |load(file).libs| :: libMap[load(file).libs[i]] in done
      requires forall i, j | 0 <= i < j < |load(file).libs| :: libMap[load(file).libs[i]] != libMap[load(file).libs[j]]
      ensures Good(file) && forall t | t in Points(file) :: t in done
    {
    }

    lemma ExplainedIsUnresolvable(e: ProfileError)
      requires Explains(e)
      ensures !Resolvable()
    {
      match e {
        case Cyclic(c) =>
          var tail := c[1..];
          forall i | 0 <= i < |tail| - 1 ensures Edge(Graph(), tail[i], tail[i + 1]) {
            assert Edge(Graph(), c[i + 1], c[i + 2]);
          }
          assert Edge(Graph(), c[0], c[1]) && IsPath(Graph(), tail) && tail[0] == c[1] && tail[|tail| - 1] == c[0];
          assert OnCycle(Graph(), c[0]);
        case UnsafeName(f) => assert !Good(f);
        case MissingFile(f) => assert !Good(f);
        case MalformedFile(f) => assert !Good(f);
        case UnknownLib(f, l) => assert !Good(f);
        case DuplicateTarget(f, t) => assert !Good(f);
      }
    }
  }

  /** A set with no edge out of it and no cycle in it grows by a node whose successors are in it. */
  lemma AcyclicGrows(g: Graph<string>, done: set<string>, n: string)
    requires Closed(g, done) && n !in done && forall x | x in done :: !OnCycle(g, x)
    requires forall t | Edge(g, n, t) :: t in done
    ensures Closed(g, done + {n}) && forall x | x in done + {n} :: !OnCycle(g, x)
  {
    if OnCycle(g, n) {
      var b :| Edge(g, n, b) && Reaches(g, b, n);
      ClosedContainsReachable(g, done, b, n);
    }
  }

  /** Meeting a node of the current trail closes a cycle. */
  lemma TrailCycle(g: Graph<string>, trail: seq<string>, n: string, i: nat)
    requires IsPath(g, trail + [n]) && i < |trail| && trail[i] == n
    ensures IsPath(g, trail[i..] + [n]) && Reaches(g, trail[0], n) && OnCycle(g, n)
  {
    var whole, cycle := trail + [n], trail[i..] + [n];
    assert forall j | 0 <= j < |cycle| :: cycle[j] == whole[i + j];
    forall j | 0 <= j < |cycle| - 1 ensures Edge(g, cycle[j], cycle[j + 1]) {
      assert Edge(g, whole[i + j], whole[i + j + 1]);
    }
    assert IsPath(g, cycle);
    PathBetween(g, whole, i);
    PathBetween(g, cycle, 1);
    assert Edge(g, cycle[0], cycle[1]);
  }

  /** One more step of a trail. */
  lemma TrailGrows(g: Graph<string>, trail: seq<string>, n: string, t: string)
    requires IsPath(g, trail + [n]) && Edge(g, n, t)
    ensures IsPath(g, trail + [n] + [t])
  {
    var whole := trail + [n] + [t];
    forall j | 0 <= j < |whole| - 1 ensures Edge(g, whole[j], whole[j + 1]) {
      if j < |trail| {
        assert whole[j] == (trail + [n])[j] && whole[j + 1] == (trail + [n])[j + 1];
      }
    }
  }

  lemma {:induction false} DistinctWithin(s: seq<string>, all: set<string>)
    requires Distinct(s) && SetOf(s) <= all
    ensures |s| <= |all|
  {
    if s != [] {
      var last, rest := s[|s| - 1], s[..|s| - 1];
      assert last in s && last !in rest;
      assert forall x | x in rest :: x in s;
      DistinctWithin(rest, all - {last});
    }
  }

  // ------------------------------------------------------------------ resolver

  /** Resolved files are good, recorded in full, listed after their targets, reachable and on no cycle. */
  ghost predicate WellRecorded(library: Library, resolved: seq<string>, graph: map<string, seq<ReferenceEdge>>) {
    && Distinct(resolved) && SetOf(resolved) == graph.Keys
    && (forall f | f in graph :: library.Good(f) && graph[f] == library.References(f))
    && (forall i | 0 <= i < |resolved| :: SetOf(library.Points(resolved[i])) <= SetOf(resolved[..i]))
    && (forall f | f in graph :: !OnCycle(library.Graph(), f))
    && (forall f | f in graph :: f in library.Universe() && Reaches(library.Graph(), library.root, f))
  }

  lemma RecordedIsClosed(library: Library, resolved: seq<string>, graph: map<string, seq<ReferenceEdge>>)
    requires WellRecorded(library, resolved, graph)
    ensures Closed(library.Graph(), graph.Keys)
  {
    forall a, b | a in graph && Edge(library.Graph(), a, b) ensures b in graph {
      assert a in SetOf(resolved);
      var i :| 0 <= i < |resolved| && resolved[i] == a;
      assert b in SetOf(library.Points(resolved[i]));
      assert b in resolved;
    }
  }

  lemma RecordStep(library: Library, resolved: seq<string>, graph: map<string, seq<ReferenceEdge>>, file: string)
    requires WellRecorded(library, resolved, graph) && library.Good(file) && file !in graph
    requires file in library.Universe() && Reaches(library.Graph(), library.root, file)
    requires forall t | t in library.Points(file) :: t in graph
    ensures WellRecorded(library, resolved + [file], graph[file := library.References(file)])
  {
    hide OnCycle, Reaches, Library.Good, Library.Points, Library.References, Library.Graph, Library.Universe;
    NoCycleThrough(library, resolved, graph, file);
    TargetsStayFirst(library, resolved, file);
    assert file !in SetOf(resolved);
    assert SetOf(resolved + [file]) == SetOf(resolved) + {file};
  }

  lemma NoCycleThrough(library: Library, resolved: seq<string>, graph: map<string, seq<ReferenceEdge>>, file: string)
    requires WellRecorded(library, resolved, graph) && file !in graph
    requires forall t | t in library.Points(file) :: t in graph
    ensures !OnCycle(library.Graph(), file)
  {
    hide OnCycle, Reaches, Library.Points;
    RecordedIsClosed(library, resolved, graph);
    AcyclicGrows(library.Graph(), graph.Keys, file);
  }

  lemma TargetsStayFirst(library: Library, resolved: seq<string>, file: string)
    requires forall i | 0 <= i < |resolved| :: SetOf(library.Points(resolved[i])) <= SetOf(resolved[..i])
    requires forall t | t in library.Points(file) :: t in SetOf(resolved)
    ensures forall i | 0 <= i < |resolved + [file]| ::
      SetOf(library.Points((resolved + [file])[i])) <= SetOf((resolved + [file])[..i])
  {
    hide Library.Points;
    var more := resolved + [file];
    forall i | 0 <= i < |more| ensures SetOf(library.Points(more[i])) <= SetOf(more[..i]) {
      assert more[..i] == resolved[..i];
      if i == |resolved| {
        assert resolved[..i] == resolved;
      }
    }
  }

  class Resolver {
    const library: Library
    /** The files on the current path. */
    var visiting: seq<string>
    /** The resolved files, in insertion order. */
    var resolved: seq<string>
    var graph: map<string, seq<ReferenceEdge>>

    constructor (library: Library)
      ensures this.library == library && visiting == [] && Valid() && resolved == []
    {
      this.library := library;
      visiting, resolved, graph := [], [], map[];
    }

    ghost predicate Valid()
      reads this
    {
      && WellRecorded(library, resolved, graph)
      && Distinct(visiting) && (forall f | f in visiting :: f in library.Universe() && f !in graph)
    }

    /** The walk arrived at `f` along the current path. */
    ghost predicate Arrived(f: string)
      reads this
    {
      IsPath(library.Graph(), visiting + [f]) && (visiting + [f])[0] == library.root && f in library.Universe()
    }

    lemma ArrivedReaches(f: string)
      requires Arrived(f)
      ensures Reaches(library.Graph(), library.root, f)
    {
      PathBetween(library.Graph(), visiting + [f], |visiting|);
    }

    /** Insert a file whose targets have been inserted. */
    method Insert(file: string)
      requires Valid() && Arrived(file) && library.Good(file) && file !in graph && file !in visiting
      requires forall t | t in library.Points(file) :: t in graph
      modifies this`resolved, this`graph
      ensures Valid() && resolved == old(resolved) + [file]
      ensures graph == old(graph)[file := library.References(file)]
    {
      hide WellRecorded, Reaches, Library.Good, Library.Points, Library.References;
      ArrivedReaches(file);
      RecordStep(library, resolved, graph, file);
      graph := graph[file := library.References(file)];
      resolved := resolved + [file];
    }

    method Visit(file: string) returns (r: Outcome)
      requires Valid() && Arrived(file)
      modifies this`visiting, this`resolved, this`graph
      ensures visiting == old(visiting) && Valid()
      ensures old(resolved) <= resolved && old(graph.Keys) <= graph.Keys
      ensures r.Resolved? ==> file in graph
      ensures r.Rejected? ==> library.Explains(r.error)
      decreases |library.Universe()| - |visiting|, 0
    {
      hide OnCycle, Reaches, Library.Good, Library.Points, Valid;
      ArrivedReaches(file);
      if !library.safe(file) {
        return Rejected(UnsafeName(file));
      }
      if file in visiting {
        var i :| 0 <= i < |visiting| && visiting[i] == file;
        TrailCycle(library.Graph(), visiting, file, i);
        return Rejected(Cyclic(visiting[i..] + [file]));
      }
      if file in graph {
        return Resolved;
      }
      EnterIsBounded(file);
      Push(file);
      r := Enter(file);
      Pop();
      assert visiting == old(visiting);
      if r.Resolved? {
        Insert(file);
      }
    }

    method Push(file: string)
      requires Valid() && file in library.Universe() && file !in visiting && file !in graph
      modifies this`visiting
      ensures Valid() && visiting == old(visiting) + [file]
    {
      visiting := visiting + [file];
    }

    method Pop()
      requires Valid() && visiting != []
      modifies this`visiting
      ensures Valid() && visiting == old(visiting)[..|old(visiting)| - 1] && old(visiting)[|old(visiting)| - 1] !in visiting
      ensures old(visiting)[|old(visiting)| - 1] !in graph
    {
      assert visiting[|visiting| - 1] in visiting;
      visiting := visiting[..|visiting| - 1];
    }

    lemma EnterIsBounded(file: string)
      requires Valid() && file !in visiting && file in library.Universe()
      ensures |visiting| < |library.Universe()|
    {
      assert file !in SetOf(visiting);
      DistinctWithin(visiting + [file], library.Universe());
    }

    /** Load the file on top of the path and visit what it references, in order. */
    method Enter(file: string) returns (r: Outcome)
      requires Valid() && visiting != [] && visiting[|visiting| - 1] == file && library.safe(file)
      requires IsPath(library.Graph(), visiting) && visiting[0] == library.root
      modifies this`visiting, this`resolved, this`graph
      ensures visiting == old(visiting) && Valid()
      ensures old(resolved) <= resolved && old(graph.Keys) <= graph.Keys
      ensures r.Resolved? ==> library.Good(file) && forall t | t in library.Points(file) :: t in graph
      ensures r.Rejected? ==> library.Explains(r.error)
      decreases |library.Universe()| - |visiting|, 2
    {
      hide OnCycle, Reaches, Library.Good, Library.Points, Valid;
      PathBetween(library.Graph(), visiting, |visiting| - 1);
      match library.load(file) {
        case Missing => return Rejected(MissingFile(file));
        case Malformed => return Rejected(MalformedFile(file));
        case Parsed(libs) =>
          for i := 0 to |libs|
            invariant visiting == old(visiting) && Valid()
            invariant old(resolved) <= resolved && old(graph.Keys) <= graph.Keys
            invariant forall j | 0 <= j < i :: libs[j] in library.libMap && library.safe(library.libMap[libs[j]])
            invariant forall j | 0 <= j < i :: library.libMap[libs[j]] in graph
            invariant forall j, k | 0 <= j < k < i :: library.libMap[libs[j]] != library.libMap[libs[k]]
          {
            r := Follow(file, libs, i);
            if r.Rejected? {
              return;
            }
          }
          library.FollowedIsGood(file, graph.Keys);
          return Resolved;
      }
    }

    /** Resolve one reference. */
    method Follow(file: string, libs: seq<string>, i: nat) returns (r: Outcome)
      requires Valid() && visiting != [] && visiting[|visiting| - 1] == file
      requires IsPath(library.Graph(), visiting) && visiting[0] == library.root
      requires library.load(file) == Parsed(libs) && i < |libs|
      requires forall j | 0 <= j < i :: libs[j] in library.libMap
      modifies this`visiting, this`resolved, this`graph
      ensures visiting == old(visiting) && Valid()
      ensures old(resolved) <= resolved && old(graph.Keys) <= graph.Keys
      ensures r.Resolved? ==> libs[i] in library.libMap && library.safe(library.libMap[libs[i]]) && library.libMap[libs[i]] in graph
      ensures r.Resolved? ==> forall j | 0 <= j < i :: library.libMap[libs[j]] != library.libMap[libs[i]]
      ensures r.Rejected? ==> library.Explains(r.error)
      decreases |library.Universe()| - |visiting|, 1
    {
      hide OnCycle, Reaches, Library.Good, Valid;
      PathBetween(library.Graph(), visiting, |visiting| - 1);
      if libs[i] !in library.libMap {
        return Rejected(UnknownLib(file, libs[i]));
      }
      var target := library.libMap[libs[i]];
      TopIsKnown(file);
      library.ReferenceIsEdge(file, i);
      if !library.safe(target) {
        ReachesEdge(library.Graph(), file, target);
        ReachesTransitive(library.Graph(), library.root, file, target);
        return Rejected(UnsafeName(target));
      }
      if exists j :: 0 <= j < i && library.libMap[libs[j]] == target {
        return Rejected(DuplicateTarget(file, target));
      }
      assert visiting[..|visiting| - 1] + [file] == visiting;
      TrailGrows(library.Graph(), visiting[..|visiting| - 1], file, target);
      r := Visit(target);
    }

    lemma TopIsKnown(file: string)
      requires Valid() && visiting != [] && visiting[|visiting| - 1] == file
      ensures file in library.Universe()
    {
      assert file in visiting;
    }
  }

  /** Every file is listed after everything it references. */
  ghost predicate TargetsFirst(graph: map<string, seq<ReferenceEdge>>, order: seq<string>) {
    && (forall f | f in order :: f in graph)
    && (forall i, e | 0 <= i < |order| && e in graph[order[i]] :: e.file in order[..i])
  }

  /** Resolution succeeds exactly on resolvable libraries; it records exactly what is reachable, each
      file once and after its targets. */
  method ResolveClosure(library: Library) returns (r: Outcome, order: seq<string>, graph: map<string, seq<ReferenceEdge>>)
    ensures r.Resolved? <==> library.Resolvable()
    ensures r.Rejected? ==> library.Explains(r.error)
    ensures r.Resolved? ==> forall f :: f in graph <==> Reaches(library.Graph(), library.root, f)
    ensures r.Resolved? ==> Distinct(order) && SetOf(order) == graph.Keys && TargetsFirst(graph, order)
    ensures r.Resolved? ==> forall f | f in graph :: library.Good(f) && graph[f] == library.References(f)
  {
    var walk := new Resolver(library);
    assert IsPath(library.Graph(), walk.visiting + [library.root]);
    r := walk.Visit(library.root);
    order, graph := walk.resolved, walk.graph;
    if r.Rejected? {
      library.ExplainedIsUnresolvable(r.error);
      return;
    }
    RecordedIsClosed(library, order, graph);
    forall f | Reaches(library.Graph(), library.root, f) ensures f in graph {
      ClosedContainsReachable(library.Graph(), graph.Keys, library.root, f);
    }
    forall i, e | 0 <= i < |order| && e in graph[order[i]] ensures e.file in order[..i] {
      EdgeIsPoint(library, order[i], e);
      assert e.file in SetOf(library.Points(order[i]));
    }
  }

  lemma EdgeIsPoint(library: Library, f: string, e: ReferenceEdge)
    requires library.Good(f) && e in library.References(f)
    ensures e.file in library.Points(f)
  {
  }

  // ------------------------------------------------------------------ the two checks of a recorded graph

  function TargetsOf(edges: seq<ReferenceEdge>): (r: seq<string>)
    ensures |r| == |edges| && forall i | 0 <= i < |r| :: r[i] == edges[i].file
  {
    seq(|edges|, i requires 0 <= i < |edges| => edges[i].file)
  }

  function RecordedGraph(graph: map<string, seq<ReferenceEdge>>): Graph<string> {
    map f | f in graph :: TargetsOf(graph[f])
  }

  /** The worklist check: known targets, and everything recorded is reachable. */
  method ValidateRecordGraph(root: string, names: set<string>, graph: map<string, seq<ReferenceEdge>>) returns (ok: bool)
    ensures ok <==> && names == graph.Keys && Closed(RecordedGraph(graph), names)
                    && forall f :: f in names <==> Reaches(RecordedGraph(graph), root, f)
  {
    if names != graph.Keys {
      return false;
    }
    var known := forall f | f in graph :: forall e | e in graph[f] :: e.file in names;
    assert known <==> Closed(RecordedGraph(graph), names) by {
      if known {
        forall a, b | a in names && Edge(RecordedGraph(graph), a, b) ensures b in names {
          var i :| 0 <= i < |graph[a]| && graph[a][i].file == b;
          assert graph[a][i] in graph[a];
        }
      }
      if Closed(RecordedGraph(graph), names) {
        forall f, e | f in graph && e in graph[f] ensures e.file in names {
          var i :| 0 <= i < |graph[f]| && graph[f][i] == e;
          assert TargetsOf(graph[f])[i] == e.file;
          assert Edge(RecordedGraph(graph), f, e.file);
        }
      }
    }
    if !known {
      return false;
    }
    var reachable := Worklist(RecordedGraph(graph), root);
    return reachable == names;
  }

  /** The package verifier's walk. */
  class PackageWalk {
    const graph: Graph<string>
    const root: string
    var visiting: set<string>
    var reachable: set<string>

    constructor (graph: Graph<string>, root: string)
      ensures this.graph == graph && this.root == root && visiting == {} && reachable == {}
    {
      this.graph, this.root := graph, root;
      visiting, reachable := {}, {};
    }

    ghost predicate Valid(trail: seq<string>)
      reads this
    {
      && Closed(graph, graph.Keys) && visiting <= graph.Keys && visiting == SetOf(trail) && visiting !! reachable
      && Closed(graph, reachable) && (forall f | f in reachable :: !OnCycle(graph, f))
      && (forall f | f in reachable :: Reaches(graph, root, f))
    }

    method Visit(name: string, ghost trail: seq<string>) returns (ok: bool)
      requires Valid(trail) && name in graph && IsPath(graph, trail + [name]) && (trail + [name])[0] == root
      modifies this`visiting, this`reachable
      ensures ok ==> Valid(trail) && name in reachable && old(reachable) <= reachable
      ensures !ok ==> exists f :: Reaches(graph, root, f) && OnCycle(graph, f)
      decreases graph.Keys - visiting
    {
      hide OnCycle, Reaches, IsPath;
      PathTo(trail, name);
      if name in visiting {
        ghost var i :| 0 <= i < |trail| && trail[i] == name;
        TrailCycle(graph, trail, name, i);
        return false;
      }
      if name in reachable {
        return true;
      }
      visiting := visiting + {name};
      for i := 0 to |graph[name]|
        invariant visiting == old(visiting) + {name} && Valid(trail + [name]) && old(reachable) <= reachable
        invariant forall j | 0 <= j < i :: graph[name][j] in reachable
      {
        assert Edge(graph, name, graph[name][i]);
        TrailGrows(graph, trail, name, graph[name][i]);
        ok := Visit(graph[name][i], trail + [name]);
        if !ok {
          return;
        }
      }
      visiting := visiting - {name};
      AcyclicGrows(graph, reachable, name);
      reachable := reachable + {name};
      return true;
    }

    lemma PathTo(trail: seq<string>, name: string)
      requires IsPath(graph, trail + [name])
      ensures Reaches(graph, (trail + [name])[0], name)
    {
      PathBetween(graph, trail + [name], |trail|);
    }
  }

  /** The package verifier accepts exactly the graphs that are acyclic from the root and whose closure
      is the whole name set. */
  method VerifyPackageGraph(root: string, graph: Graph<string>) returns (ok: bool)
    ensures ok <==> && Closed(graph, graph.Keys)
                    && (forall f :: f in graph <==> Reaches(graph, root, f))
                    && (forall f | f in graph :: !OnCycle(graph, f))
  {
    var known := forall f | f in graph :: forall t | t in graph[f] :: t in graph;
    if !known {
      var f :| f in graph && exists t :: t in graph[f] && t !in graph;
      var t :| t in graph[f] && t !in graph;
      assert Edge(graph, f, t);
      return false;
    }
    ReachesSelf(graph, root);
    if root !in graph {
      return false;
    }
    var walk := new PackageWalk(graph, root);
    assert IsPath(graph, [] + [root]);
    var acyclic := walk.Visit(root, []);
    if !acyclic {
      return false;
    }
    forall f | Reaches(graph, root, f) ensures f in walk.reachable {
      ClosedContainsReachable(graph, walk.reachable, root, f);
    }
    return walk.reachable == graph.Keys;
  }

  /** Whatever the resolver records, both checks accept. */
  method ResolveAndCheck(library: Library) returns (resolved: bool, recordsOk: bool, packageOk: bool)
    ensures resolved <==> library.Resolvable()
    ensures resolved ==> recordsOk && packageOk
  {
    var r, order, graph := ResolveClosure(library);
    resolved, recordsOk, packageOk := r.Resolved?, false, false;
    if resolved {
      recordsOk := ValidateRecordGraph(library.root, graph.Keys, graph);
      packageOk := VerifyPackageGraph(library.root, RecordedGraph(graph));
      RecordedIsReachable(library, graph);
    }
  }

  lemma SameReach(g: Graph<string>, h: Graph<string>, a: string, b: string)
    requires (forall x, y | Reaches(g, a, x) && Edge(g, x, y) :: Edge(h, x, y)) && Reaches(g, a, b)
    ensures Reaches(h, a, b)
  {
    var p :| IsPath(g, p) && p[0] == a && p[|p| - 1] == b;
    forall i | 0 <= i < |p| - 1 ensures Edge(h, p[i], p[i + 1]) {
      PathBetween(g, p, i);
      assert Edge(g, p[i], p[i + 1]);
    }
    assert IsPath(h, p);
  }

  /** The recorded graph is the reachable part of the library's graph. */
  lemma RecordedIsReachable(library: Library, graph: map<string, seq<ReferenceEdge>>)
    requires library.Resolvable()
    requires forall f :: f in graph <==> Reaches(library.Graph(), library.root, f)
    requires forall f | f in graph :: library.Good(f) && graph[f] == library.References(f)
    ensures Closed(RecordedGraph(graph), graph.Keys)
    ensures forall f :: f in graph <==> Reaches(RecordedGraph(graph), library.root, f)
    ensures forall f | f in graph :: !OnCycle(RecordedGraph(graph), f)
  {
    hide Reaches, Library.Graph, Library.References, RecordedGraph;
    var g, h := library.Graph(), RecordedGraph(graph);
    forall x, y | x in graph ensures Edge(g, x, y) <==> Edge(h, x, y) {
      SameEdges(library, graph, x, y);
    }
    ReachesSelf(g, library.root);
    forall a, b | a in graph && Edge(h, a, b) ensures b in graph {
      ReachesEdge(g, a, b);
      ReachesTransitive(g, library.root, a, b);
    }
    assert Closed(h, graph.Keys);
    forall f ensures Reaches(g, library.root, f) <==> Reaches(h, library.root, f) {
      if Reaches(g, library.root, f) {
        SameReach(g, h, library.root, f);
      }
      if Reaches(h, library.root, f) {
        ClosedContainsReachable(h, graph.Keys, library.root, f);
      }
    }
    forall f | f in graph ensures !OnCycle(h, f) {
      if OnCycle(h, f) {
        CycleIsRecorded(g, h, graph.Keys, f);
      }
    }
  }

  lemma StaysRecorded(g: Graph<string>, h: Graph<string>, keys: set<string>, a: string, b: string)
    requires Closed(h, keys) && a in keys && Reaches(h, a, b)
    requires forall x, y | x in keys :: Edge(g, x, y) <==> Edge(h, x, y)
    ensures Reaches(g, a, b)
  {
    forall x, y | Reaches(h, a, x) && Edge(h, x, y) ensures Edge(g, x, y) {
      ClosedContainsReachable(h, keys, a, x);
    }
    SameReach(h, g, a, b);
  }

  lemma CycleIsRecorded(g: Graph<string>, h: Graph<string>, keys: set<string>, f: string)
    requires Closed(h, keys) && f in keys && OnCycle(h, f)
    requires forall x, y | x in keys :: Edge(g, x, y) <==> Edge(h, x, y)
    ensures OnCycle(g, f)
  {
    var b :| Edge(h, f, b) && Reaches(h, b, f);
    StaysRecorded(g, h, keys, b, f);
  }

  lemma SameEdges(library: Library, graph: map<string, seq<ReferenceEdge>>, x: string, y: string)
    requires x in graph && library.Good(x) && graph[x] == library.References(x)
    requires Reaches(library.Graph(), library.root, x)
    ensures Edge(library.Graph(), x, y) <==> Edge(RecordedGraph(graph), x, y)
  {
    var libs := library.load(x).libs;
    ReachableIsKnown(library, x);
    if y in library.Known(libs) {
      var i :| 0 <= i < |libs| && libs[i] in library.libMap && library.libMap[libs[i]] == y;
      assert TargetsOf(graph[x])[i] == y;
    }
    if Edge(RecordedGraph(graph), x, y) {
      var i :| 0 <= i < |graph[x]| && graph[x][i].file == y;
      assert library.libMap[libs[i]] == y;
    }
  }

  lemma ReachableIsKnown(library: Library, x: string)
    requires Reaches(library.Graph(), library.root, x)
    ensures x in library.Universe()
  {
    assert Closed(library.Graph(), library.Universe());
    ClosedContainsReachable(library.Graph(), library.Universe(), library.root, x);
  }
}
