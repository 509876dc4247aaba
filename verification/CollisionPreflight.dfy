/** The fail-closed preflight that decides whether a project may share the frozen library. */
module CollisionPreflight {
  import opened Wrappers
  import Text

  datatype Slot = Value | Type | Namespace

  datatype Candidate = Candidate(slots: set<Slot>, contributor: bool)

  /** What the syntax census of one parsed file finds. */
  datatype Census = Census(
    candidates: map<string, Candidate>,
    uncertain: map<string, Candidate>,
    globalThis: bool,
    umdGlobal: bool,
    uncertainSyntax: bool)

  /** A file; without a census it did not parse. */
  datatype Input = Input(path: string, census: Option<Census>)

  datatype Reason =
    | ParseRejected
    | ExplicitGlobalThis
    | UmdGlobal
    | ClassifierUncertainty
    | FrozenRootNameCollision
    | GlobalObjectContributor

  datatype Route = SharedDelta | PrivateCombined | RejectedBeforeSemantics

  datatype Outcome = Outcome(route: Route, capability: bool, candidates: map<string, Candidate>, reasons: set<Reason>)

  // ------------------------------------------------------------------ meaning

  ghost predicate Rejected(inputs: seq<Input>) {
    exists x :: x in inputs && x.census.None?
  }

  /** File `x` puts `c` forward for `name`. */
  ghost predicate Offers(x: Input, name: string, c: Candidate) {
    && x.census.Some?
    && ((name in x.census.value.candidates && x.census.value.candidates[name] == c)
        || (name in x.census.value.uncertain && x.census.value.uncertain[name] == c))
  }

  ghost predicate SomeOffers(inputs: seq<Input>, name: string, c: Candidate) {
    exists x :: x in inputs && Offers(x, name, c)
  }

  ghost predicate Flagged(inputs: seq<Input>, flag: Census -> bool) {
    exists x :: x in inputs && x.census.Some? && flag(x.census.value)
  }

  /** Candidates are merged by name over all files. */
  ghost predicate Merged(inputs: seq<Input>, candidates: map<string, Candidate>) {
    && (forall name :: name in candidates <==> exists c :: SomeOffers(inputs, name, c))
    && (forall name, slot | name in candidates ::
          slot in candidates[name].slots <==> exists c :: SomeOffers(inputs, name, c) && slot in c.slots)
    && (forall name | name in candidates ::
          candidates[name].contributor <==> exists c :: SomeOffers(inputs, name, c) && c.contributor)
  }

  /** The reasons against sharing, each exactly when it applies. */
  ghost predicate Reasoned(roots: set<string>, inputs: seq<Input>, injected: bool, reasons: set<Reason>) {
    && (ParseRejected in reasons <==> Rejected(inputs))
    && (ExplicitGlobalThis in reasons <==> !Rejected(inputs) && Flagged(inputs, (c: Census) => c.globalThis))
    && (UmdGlobal in reasons <==> !Rejected(inputs) && Flagged(inputs, (c: Census) => c.umdGlobal))
    && (ClassifierUncertainty in reasons <==> injected || (!Rejected(inputs) && Flagged(inputs, (c: Census) => c.uncertainSyntax)))
    && (FrozenRootNameCollision in reasons <==>
          !Rejected(inputs) && exists name, c :: SomeOffers(inputs, name, c) && name in roots)
    && (GlobalObjectContributor in reasons <==>
          !Rejected(inputs) && exists name, c :: SomeOffers(inputs, name, c) && c.contributor)
  }

  ghost predicate Decides(roots: set<string>, inputs: seq<Input>, injected: bool, out: Outcome) {
    && Reasoned(roots, inputs, injected, out.reasons)
    && Merged(if Rejected(inputs) then [] else inputs, out.candidates)
    && (out.route == RejectedBeforeSemantics <==> Rejected(inputs))
    && (out.route == SharedDelta <==> out.reasons == {})
    && (out.capability <==> out.route == SharedDelta)
  }

  // ------------------------------------------------------------------ the census loop

  function MergeOne(candidates: map<string, Candidate>, name: string, c: Candidate): map<string, Candidate> {
    var before := if name in candidates then candidates[name] else Candidate({}, false);
    candidates[name := Candidate(before.slots + c.slots, before.contributor || c.contributor)]
  }

  /** Candidates merged from the offers in `offers`. */
  ghost predicate MergedFrom(offers: iset<(string, Candidate)>, candidates: map<string, Candidate>) {
    && (forall name :: name in candidates <==> exists c: Candidate :: (name, c) in offers)
    && (forall name, slot | name in candidates ::
          slot in candidates[name].slots <==> exists c: Candidate :: (name, c) in offers && slot in c.slots)
    && (forall name | name in candidates ::
          candidates[name].contributor <==> exists c: Candidate :: (name, c) in offers && c.contributor)
  }

  lemma MergeStep(offers: iset<(string, Candidate)>, candidates: map<string, Candidate>, name: string, c: Candidate)
    requires MergedFrom(offers, candidates)
    ensures MergedFrom(offers + iset{(name, c)}, MergeOne(candidates, name, c))
  {
    var more, after := offers + iset{(name, c)}, MergeOne(candidates, name, c);
    assert (name, c) in more;
    forall n ensures n in after <==> exists d: Candidate :: (n, d) in more {
      if n in candidates {
        var d :| (n, d) in offers;
        assert (n, d) in more;
      }
    }
    forall n, slot | n in after ensures slot in after[n].slots <==> exists d: Candidate :: (n, d) in more && slot in d.slots {
      if n in candidates && slot in candidates[n].slots {
        var d :| (n, d) in offers && slot in d.slots;
        assert (n, d) in more;
      }
    }
    forall n | n in after ensures after[n].contributor <==> exists d: Candidate :: (n, d) in more && d.contributor {
      if n in candidates && candidates[n].contributor {
        var d :| (n, d) in offers && d.contributor;
        assert (n, d) in more;
      }
    }
  }

  /** Merge all entries of one census table. */
  method MergeTable(table: map<string, Candidate>, before: map<string, Candidate>, ghost offers: iset<(string, Candidate)>)
      returns (after: map<string, Candidate>)
    requires MergedFrom(offers, before)
    ensures MergedFrom(offers + (iset name | name in table :: (name, table[name])), after)
  {
    hide MergedFrom, MergeOne;
    after := before;
    var left := table.Keys;
    ghost var seen := offers;
    while left != {}
      invariant left <= table.Keys && MergedFrom(seen, after)
      invariant seen == offers + (iset name | name in table && name !in left :: (name, table[name]))
      decreases left
    {
      var name :| name in left;
      MergeStep(seen, after, name, table[name]);
      after := MergeOne(after, name, table[name]);
      seen := seen + iset{(name, table[name])};
      left := left - {name};
    }
    assert seen == offers + (iset name | name in table :: (name, table[name]));
  }

  ghost function OffersOf(x: Input): iset<(string, Candidate)> {
    iset name, c | Offers(x, name, c) :: (name, c)
  }

  ghost function AllOffers(inputs: seq<Input>): iset<(string, Candidate)> {
    iset name, c | SomeOffers(inputs, name, c) :: (name, c)
  }

  lemma OffersAre(x: Input)
    requires x.census.Some?
    ensures OffersOf(x) == (iset name | name in x.census.value.candidates :: (name, x.census.value.candidates[name]))
                         + (iset name | name in x.census.value.uncertain :: (name, x.census.value.uncertain[name]))
  {
  }

  lemma AllOffersStep(inputs: seq<Input>, i: nat)
    requires i < |inputs|
    ensures AllOffers(inputs[..i + 1]) == AllOffers(inputs[..i]) + OffersOf(inputs[i])
  {
    assert inputs[..i + 1] == inputs[..i] + [inputs[i]];
    forall p ensures p in AllOffers(inputs[..i + 1]) <==> p in AllOffers(inputs[..i]) || p in OffersOf(inputs[i]) {
      assert SomeOffers(inputs[..i + 1], p.0, p.1) <==> SomeOffers(inputs[..i], p.0, p.1) || Offers(inputs[i], p.0, p.1) by {
        if Offers(inputs[i], p.0, p.1) {
          assert inputs[i] in inputs[..i + 1];
        }
      }
    }
  }

  method MergeAll(inputs: seq<Input>) returns (candidates: map<string, Candidate>)
    requires !Rejected(inputs)
    ensures Merged(inputs, candidates)
  {
    hide MergedFrom, OffersOf, AllOffers, Merged;
    candidates := map[];
    NoOffers(inputs);
    for i := 0 to |inputs|
      invariant MergedFrom(AllOffers(inputs[..i]), candidates)
    {
      assert inputs[i] in inputs;
      var census := inputs[i].census.value;
      ghost var before := AllOffers(inputs[..i]);
      AllOffersStep(inputs, i);
      OffersAre(inputs[i]);
      candidates := MergeTable(census.candidates, candidates, before);
      ghost var first := iset name | name in census.candidates :: (name, census.candidates[name]);
      ghost var second := iset name | name in census.uncertain :: (name, census.uncertain[name]);
      candidates := MergeTable(census.uncertain, candidates, before + first);
      assert before + first + second == before + (first + second);
    }
    assert inputs[..|inputs|] == inputs;
    MergedIsFrom(inputs, candidates);
  }

  lemma NoOffers(inputs: seq<Input>)
    ensures MergedFrom(AllOffers(inputs[..0]), map[])
  {
  }

  lemma MergedIsFrom(inputs: seq<Input>, candidates: map<string, Candidate>)
    requires MergedFrom(AllOffers(inputs), candidates)
    ensures Merged(inputs, candidates)
  {
    hide SomeOffers;
    assert forall name, c :: (name, c) in AllOffers(inputs) <==> SomeOffers(inputs, name, c);
  }

  /** Whether a census of some parsed file raises a flag. */
  method AnyFlag(inputs: seq<Input>, flag: Census -> bool) returns (found: bool)
    ensures found <==> Flagged(inputs, flag)
  {
    for i := 0 to |inputs|
      invariant forall j | 0 <= j < i :: !(inputs[j].census.Some? && flag(inputs[j].census.value))
    {
      if inputs[i].census.Some? && flag(inputs[i].census.value) {
        assert inputs[i] in inputs;
        return true;
      }
    }
    return false;
  }

  method AnyRejected(inputs: seq<Input>) returns (rejected: bool)
    ensures rejected <==> Rejected(inputs)
  {
    for i := 0 to |inputs|
      invariant forall j | 0 <= j < i :: inputs[j].census.Some?
    {
      if inputs[i].census.None? {
        assert inputs[i] in inputs;
        return true;
      }
    }
    return false;
  }

  function ReasonSet(rejected: bool, globalThis: bool, umd: bool, uncertain: bool, collides: bool, contributes: bool): set<Reason> {
    (if rejected then {ParseRejected} else {}) + (if globalThis then {ExplicitGlobalThis} else {})
    + (if umd then {UmdGlobal} else {}) + (if uncertain then {ClassifierUncertainty} else {})
    + (if collides then {FrozenRootNameCollision} else {}) + (if contributes then {GlobalObjectContributor} else {})
  }

  method PreflightProject(roots: set<string>, inputs: seq<Input>, injected: bool) returns (out: Outcome)
    ensures Decides(roots, inputs, injected, out)
  {
    hide Merged, Flagged, Rejected, SomeOffers, Reasoned, ReasonSet;
    var rejected := AnyRejected(inputs);
    var candidates: map<string, Candidate> := map[];
    var globalThis, umd, uncertain := false, false, false;
    if rejected {
      NothingMerged();
    } else {
      candidates := MergeAll(inputs);
      globalThis := AnyFlag(inputs, (c: Census) => c.globalThis);
      umd := AnyFlag(inputs, (c: Census) => c.umdGlobal);
      uncertain := AnyFlag(inputs, (c: Census) => c.uncertainSyntax);
    }
    var collides := exists name | name in candidates :: name in roots;
    var contributes := exists name | name in candidates :: candidates[name].contributor;
    var reasons := ReasonSet(rejected, globalThis, umd, uncertain || injected, collides, contributes);
    if !rejected {
      ProbesMean(roots, inputs, candidates);
    }
    ReasonsMean(roots, inputs, injected, rejected, globalThis, umd, uncertain, collides, contributes);
    var route := if rejected then RejectedBeforeSemantics else if reasons == {} then SharedDelta else PrivateCombined;
    out := Outcome(route, route == SharedDelta, candidates, reasons);
  }

  lemma ReasonsMean(roots: set<string>, inputs: seq<Input>, injected: bool, rejected: bool, globalThis: bool, umd: bool,
                    uncertain: bool, collides: bool, contributes: bool)
    requires rejected <==> Rejected(inputs)
    requires globalThis <==> !rejected && Flagged(inputs, (c: Census) => c.globalThis)
    requires umd <==> !rejected && Flagged(inputs, (c: Census) => c.umdGlobal)
    requires uncertain <==> !rejected && Flagged(inputs, (c: Census) => c.uncertainSyntax)
    requires collides <==> !rejected && exists name, c :: SomeOffers(inputs, name, c) && name in roots
    requires contributes <==> !rejected && exists name, c :: SomeOffers(inputs, name, c) && c.contributor
    ensures Reasoned(roots, inputs, injected, ReasonSet(rejected, globalThis, umd, uncertain || injected, collides, contributes))
    ensures rejected ==> ReasonSet(rejected, globalThis, umd, uncertain || injected, collides, contributes) != {}
  {
    hide SomeOffers, Flagged, Rejected;
    assert rejected ==> ParseRejected in ReasonSet(rejected, globalThis, umd, uncertain || injected, collides, contributes);
  }

  lemma NothingMerged()
    ensures Merged([], map[])
  {
  }

  lemma ProbesMean(roots: set<string>, inputs: seq<Input>, candidates: map<string, Candidate>)
    requires Merged(inputs, candidates)
    ensures (exists name | name in candidates :: name in roots) <==> exists name, c :: SomeOffers(inputs, name, c) && name in roots
    ensures (exists name | name in candidates :: candidates[name].contributor) <==>
            exists name, c :: SomeOffers(inputs, name, c) && c.contributor
  {
    hide SomeOffers;
    if name, c :| SomeOffers(inputs, name, c) && c.contributor {
      assert name in candidates && candidates[name].contributor;
    }
  }

  datatype Routed = Shared | Private | UserParseRejected | RejectedWithoutCapability

  /** The route of a project's files: a shared route always carries its capability. */
  method PreflightFileInputs(roots: set<string>, inputs: seq<Input>) returns (r: Routed)
    ensures r != RejectedWithoutCapability
    ensures r == UserParseRejected <==> Rejected(inputs)
    ensures r == Shared <==> Reasoned(roots, inputs, false, {})
  {
    hide Reasoned, Merged, Rejected;
    var out := PreflightProject(roots, inputs, false);
    match out.route {
      case SharedDelta => r := if out.capability then Shared else RejectedWithoutCapability;
      case PrivateCombined => r := Private;
      case RejectedBeforeSemantics => r := UserParseRejected;
    }
    if Reasoned(roots, inputs, false, {}) {
      OneReasoning(roots, inputs, inputs, false, out.reasons, {});
    }
  }

  // ------------------------------------------------------------------ laws

  lemma OneReasoning(roots: set<string>, inputs: seq<Input>, others: seq<Input>, injected: bool, a: set<Reason>, b: set<Reason>)
    requires Reasoned(roots, inputs, injected, a) && Reasoned(roots, others, injected, b)
    requires forall x :: x in inputs <==> x in others
    ensures a == b
  {
    assert Rejected(inputs) <==> Rejected(others);
    assert forall name, c :: SomeOffers(inputs, name, c) <==> SomeOffers(others, name, c);
    assert Flagged(inputs, (c: Census) => c.globalThis) <==> Flagged(others, (c: Census) => c.globalThis);
    assert Flagged(inputs, (c: Census) => c.umdGlobal) <==> Flagged(others, (c: Census) => c.umdGlobal);
    assert Flagged(inputs, (c: Census) => c.uncertainSyntax) <==> Flagged(others, (c: Census) => c.uncertainSyntax);
    forall r ensures r in a <==> r in b {
      match r {
        case ParseRejected =>
        case ExplicitGlobalThis =>
        case UmdGlobal =>
        case ClassifierUncertainty =>
        case FrozenRootNameCollision =>
        case GlobalObjectContributor =>
      }
    }
  }

  lemma OneMerge(inputs: seq<Input>, others: seq<Input>, a: map<string, Candidate>, b: map<string, Candidate>)
    requires Merged(inputs, a) && Merged(others, b) && forall x :: x in inputs <==> x in others
    ensures a == b
  {
    hide SomeOffers;
    SameOffers(inputs, others);
    forall name ensures name in a <==> name in b {
    }
    forall name | name in a ensures a[name] == b[name] {
      assert a[name].slots == b[name].slots;
    }
  }

  lemma SameOffers(inputs: seq<Input>, others: seq<Input>)
    requires forall x :: x in inputs <==> x in others
    ensures forall name, c :: SomeOffers(inputs, name, c) <==> SomeOffers(others, name, c)
  {
    hide Offers;
  }

  /** The order of the files does not matter. */
  lemma OrderDoesNotMatter(roots: set<string>, inputs: seq<Input>, others: seq<Input>, injected: bool, a: Outcome, b: Outcome)
    requires Decides(roots, inputs, injected, a) && Decides(roots, others, injected, b)
    requires multiset(inputs) == multiset(others)
    ensures a == b
  {
    hide Reasoned, Merged;
    Text.SameLength(inputs, others);
    OneReasoning(roots, inputs, others, injected, a.reasons, b.reasons);
    OneMerge(if Rejected(inputs) then [] else inputs, if Rejected(others) then [] else others, a.candidates, b.candidates);
  }

  /** A project is shared exactly when each of its files alone would be. */
  lemma SharedFileByFile(roots: set<string>, inputs: seq<Input>)
    ensures Reasoned(roots, inputs, false, {}) <==> forall x | x in inputs :: Reasoned(roots, [x], false, {})
  {
    hide Offers;
    if Reasoned(roots, inputs, false, {}) {
      forall x | x in inputs ensures Reasoned(roots, [x], false, {}) {
        FileIsQuiet(roots, inputs, x);
      }
    }
    if forall x | x in inputs :: Reasoned(roots, [x], false, {}) {
      ProjectIsQuiet(roots, inputs);
    }
  }

  /** A file with nothing against sharing it. */
  ghost predicate Quiet(roots: set<string>, x: Input) {
    && x.census.Some? && !x.census.value.globalThis && !x.census.value.umdGlobal && !x.census.value.uncertainSyntax
    && (forall name, c | Offers(x, name, c) :: name !in roots && !c.contributor)
  }

  lemma QuietMeans(roots: set<string>, inputs: seq<Input>)
    ensures Reasoned(roots, inputs, false, {}) <==> forall x | x in inputs :: Quiet(roots, x)
  {
    hide Offers;
    if Reasoned(roots, inputs, false, {}) {
      forall x | x in inputs ensures Quiet(roots, x) {
        forall name, c | Offers(x, name, c) ensures name !in roots && !c.contributor {
          assert SomeOffers(inputs, name, c);
        }
      }
    }
  }

  lemma FileIsQuiet(roots: set<string>, inputs: seq<Input>, x: Input)
    requires Reasoned(roots, inputs, false, {}) && x in inputs
    ensures Reasoned(roots, [x], false, {})
  {
    hide Reasoned, Quiet;
    QuietMeans(roots, inputs);
    QuietMeans(roots, [x]);
  }

  lemma ProjectIsQuiet(roots: set<string>, inputs: seq<Input>)
    requires forall x | x in inputs :: Reasoned(roots, [x], false, {})
    ensures Reasoned(roots, inputs, false, {})
  {
    hide Reasoned, Quiet;
    forall x | x in inputs ensures Quiet(roots, x) {
      QuietMeans(roots, [x]);
      assert x in [x];
    }
    QuietMeans(roots, inputs);
  }
}
