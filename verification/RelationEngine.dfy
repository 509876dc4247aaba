/** The relation driver: durable and query-local verdict caches and the assume-true cycle stack
    around the structural rules.

    A key that is re-entered while it is in flight is assumed to hold, and the assumption is
    reported to the caller.  A frame discharges the assumption about its own key; a success that
    still rests on an assumption about an enclosing frame is provisional and is never cached. */
module RelationEngine {
  import opened Wrappers
  import opened RelationRules
  import opened RelationCache

  datatype Outcome = Yes | No | Exhausted

  /** One planned pass either decides the query or asks the planner for more. */
  datatype Attempt = Decided(outcome: Outcome) | Needs(node: nat) | NeedsBatch(nodes: seq<nat>)

  /** Every key a rule may query belongs to `keys`. */
  ghost predicate GoalsWithin(r: Rule, keys: set<Key>) {
    match r
    case Settled(_) => true
    case Goal(k, _) => k in keys
    case All(parts) => forall i | 0 <= i < |parts| :: GoalsWithin(parts[i], keys)
    case Any(parts) => forall i | 0 <= i < |parts| :: GoalsWithin(parts[i], keys)
    case Probe(parts) => forall i | 0 <= i < |parts| :: GoalsWithin(parts[i], keys)
    case Blocked(_, _) => true
  }

  ghost predicate NoneHolds(parts: seq<Rule>, given: iset<Key>) {
    forall i | 0 <= i < |parts| :: !Holds(parts[i], given)
  }

  /** The plan exposes the whole rule. */
  ghost predicate Exposed(r: Rule) {
    match r
    case Settled(_) => true
    case Goal(_, _) => true
    case All(parts) => forall i | 0 <= i < |parts| :: Exposed(parts[i])
    case Any(parts) => forall i | 0 <= i < |parts| :: Exposed(parts[i])
    case Probe(parts) => forall i | 0 <= i < |parts| :: Exposed(parts[i])
    case Blocked(_, _) => false
  }

  ghost predicate AllExposed(rules: Rules, keys: set<Key>) {
    forall k | k in keys :: Exposed(rules(k))
  }

  /** A finite type store gives rise to finitely many keys. */
  ghost predicate ClosedUnder(rules: Rules, keys: set<Key>) {
    forall k | k in keys :: GoalsWithin(rules(k), keys)
  }

  /** A sound cache holds only ground truth, successes and failures alike. */
  ghost predicate Sound(rules: Rules, verdicts: map<Key, bool>) {
    forall k | k in verdicts :: verdicts[k] == Related(rules, k)
  }

  /** Every layer is sound on its own, so dropping the top one is always safe. */
  ghost predicate LayersSound(rules: Rules, c: Cache) {
    Sound(rules, View(c)) && (c.Layer? ==> LayersSound(rules, c.base))
  }

  /** Query-local writes: a success is always genuine; a failure is genuine unless the query ran
      out of budget. */
  ghost predicate PendingSound(rules: Rules, pending: map<Key, bool>, exhausted: bool) {
    && (forall k | k in pending && pending[k] :: Related(rules, k))
    && (!exhausted ==> forall k | k in pending && !pending[k] :: !Related(rules, k))
  }

  /** Evaluating the rule spends the budget before it does anything else. */
  ghost predicate Starved(rules: Rules, r: Rule) {
    match r
    case Blocked(signal, _) => signal.Exhaustion?
    case Goal(k, _) => rules(k).Blocked? && rules(k).signal.Exhaustion?
    case All(parts) => parts != [] && Starved(rules, parts[0])
    case _ => false
  }

  /** What a pass asks for first, given everything that interrupted it, in order. */
  ghost function FirstDemand(signals: seq<Signal>): Option<nat> {
    if signals == [] then None
    else
      var before := FirstDemand(signals[..|signals| - 1]);
      if before.None? && signals[|signals| - 1].Demand? then Some(signals[|signals| - 1].node) else before
  }

  /** The surfaces missing before any demand, each once, in order. */
  ghost function MissingSurfaces(signals: seq<Signal>): seq<nat> {
    if signals == [] then []
    else
      var before, last := signals[..|signals| - 1], signals[|signals| - 1];
      if last.Surface? && FirstDemand(before).None? && last.node !in MissingSurfaces(before)
      then MissingSurfaces(before) + [last.node]
      else MissingSurfaces(before)
  }

  lemma NextSignal(signals: seq<Signal>, signal: Signal)
    ensures var demand, surfaces := FirstDemand(signals), MissingSurfaces(signals);
            && FirstDemand(signals + [signal]) == (if demand.None? && signal.Demand? then Some(signal.node) else demand)
            && MissingSurfaces(signals + [signal])
               == if signal.Surface? && demand.None? && signal.node !in surfaces then surfaces + [signal.node] else surfaces
  {
    assert (signals + [signal])[..|signals|] == signals;
  }

  lemma NoSignals()
    ensures FirstDemand([]) == None && MissingSurfaces([]) == []
  {
  }

  class Relater {
    const rules: Rules
    ghost const universe: set<Key>
    const durable: Cache
    var pending: map<Key, bool>
    var stack: set<Key>
    var exhausted: bool
    /** Whether any pass of this relater ran out of budget, even one whose report was taken. */
    ghost var spent: bool
    var demand: Option<nat>
    var surfaces: seq<nat>
    var demandObserved: bool
    /** Everything that interrupted the pass, in order. */
    ghost var signals: seq<Signal>

    ghost predicate Valid()
      reads this
    {
      && ClosedUnder(rules, universe)
      && Sound(rules, View(durable))
      && PendingSound(rules, pending, spent)
      && (exhausted ==> spent)
      && stack <= universe
      && (demandObserved <==> demand.Some? || surfaces != [])
      && demand == FirstDemand(signals) && surfaces == MissingSurfaces(signals)
    }

    /** Decisions and interruptions are never taken back while a pass runs. */
    twostate predicate Progress()
      reads this
    {
      && (old(exhausted) ==> exhausted)
      && (old(spent) ==> spent)
      && (spent && !old(spent) ==> exhausted)
      && (old(demandObserved) ==> demandObserved)
      && old(signals) <= signals
      && (forall q | q in old(pending) :: q in pending && pending[q] == old(pending)[q])
    }

    /** A plan that exposes everything is never interrupted. */
    twostate predicate Undisturbed()
      reads this
    {
      AllExposed(rules, universe) && !old(spent) && !old(demandObserved) ==> !spent && !demandObserved
    }

    /** The budget was spent on the way, and nothing else was written or asked for. */
    twostate predicate OutOfBudget()
      reads this
    {
      exhausted && demandObserved == old(demandObserved) && pending == old(pending)
    }

    /** Nothing interrupted the pass. */
    ghost predicate Clean()
      reads this
    {
      !spent && !demandObserved
    }

    constructor Planned(rules: Rules, ghost universe: set<Key>, durable: Cache)
      requires ClosedUnder(rules, universe) && Sound(rules, View(durable))
      ensures Valid() && Clean() && stack == {} && pending == map[]
      ensures this.rules == rules && this.universe == universe && this.durable == durable
    {
      this.rules, this.universe, this.durable := rules, universe, durable;
      pending, stack := map[], {};
      exhausted, spent, demand, surfaces, demandObserved, signals := false, false, None, [], false, [];
    }

    /** Record why the pass could not go on. */
    method Interrupt(signal: Signal)
      requires Valid()
      modifies this`exhausted, this`spent, this`demand, this`surfaces, this`demandObserved, this`signals
      ensures Valid() && !Clean() && signals == old(signals) + [signal]
      ensures exhausted <==> old(exhausted) || signal.Exhaustion?
      ensures spent <==> old(spent) || signal.Exhaustion?
      ensures demandObserved <==> old(demandObserved) || !signal.Exhaustion?
    {
      hide FirstDemand, MissingSurfaces, Sound, ClosedUnder;
      NextSignal(signals, signal);
      signals := signals + [signal];
      match signal
      case Exhaustion =>
        exhausted, spent := true, true;
      case Demand(node) =>
        if demand.None? {
          demand := Some(node);
        }
        demandObserved := true;
      case Surface(node) =>
        demandObserved := true;
        if demand.None? && node !in surfaces {
          surfaces := surfaces + [node];
        }
    }

    /** Neither in flight nor trivial nor cached. */
    ghost predicate Undecided(k: Key)
      reads this
    {
      k.src != k.tgt && k !in stack && k !in pending && k !in View(durable)
    }

    /** Decide one key.  In a clean pass a success is supported by the reported assumptions and
        a failure is final, whatever is cached or in flight. */
    method Relate(k: Key, wantReason: bool) returns (yes: bool, assumed: set<Key>)
      requires Valid() && k in universe
      modifies this`pending, this`stack, this`exhausted, this`spent, this`demand, this`surfaces, this`demandObserved, this`signals
      ensures Valid() && stack == old(stack)
      ensures Progress() && Undisturbed()
      ensures assumed <= stack
      ensures yes && !demandObserved ==> k in Support(rules, assumed)
      ensures !yes && Clean() ==> !Related(rules, k)
      ensures Clean() && assumed == {} && k !in stack && k.src != k.tgt ==> k in pending || k in View(durable)
      // what needs no rules: identity, a key in flight, and a verdict that is cached
      ensures !rules(k).Blocked? && k.src == k.tgt ==> yes && assumed == {} && unchanged(this)
      ensures !rules(k).Blocked? && k.src != k.tgt && k in old(stack) ==> yes && assumed == {k} && unchanged(this)
      ensures !rules(k).Blocked? && k.src != k.tgt && k !in old(stack) && k in old(pending) ==> yes == old(pending)[k]
      ensures !rules(k).Blocked? && k.src != k.tgt && k !in old(stack) && k !in old(pending) && k in View(durable) ==> yes == View(durable)[k]
      ensures rules(k).Blocked? && rules(k).signal.Exhaustion? ==> !yes && OutOfBudget()
      ensures !rules(k).Blocked? && Starved(rules, rules(k)) && old(Undecided(k)) && !old(demandObserved) ==>
                !yes && exhausted && !demandObserved && pending == old(pending)[k := false]
      decreases universe - stack, 1
    {
      hide FirstDemand, MissingSurfaces;
      var rule := rules(k);
      assumed := {};
      if rule.Blocked? && rule.signal.Exhaustion? {
        Interrupt(rule.signal);
        return false, {};
      }
      if k.src == k.tgt {
        RelatedIsFixpoint(rules, k);
        return true, {};
      }
      if rule.Blocked? && rule.signal.Demand? {
        Interrupt(rule.signal);
        return false, {};
      }

      if k in stack {
        return true, {k};
      }
      var cached := if k in pending then Known(pending[k]) else Unknown;
      if cached.Unknown? {
        var depth;
        cached, depth := Lookup(durable, k);
      }
      if cached == Known(true) {
        return true, {};
      }
      if cached == Known(false) && !wantReason {
        return false, {};
      }

      yes, assumed := Frame(k, wantReason);
      var provisional := assumed != {};
      if cached == Known(false) && yes {
        // The recompute of a cached failure is clamped to its verdict.  In a clean pass this
        // can only correct a provisional success.
        assert !spent && !demandObserved ==> provisional;
        yes := false;
      }
      if cached.Unknown? && !demandObserved && (!yes || !provisional) {
        pending := pending[k := yes];
      }
    }

    /** Run the rules of a key with the key in flight, and discharge the assumption about it. */
    method Frame(k: Key, wantReason: bool) returns (yes: bool, assumed: set<Key>)
      requires Valid() && k in universe && k !in stack && k.src != k.tgt
      modifies this`pending, this`stack, this`exhausted, this`spent, this`demand, this`surfaces, this`demandObserved, this`signals
      ensures Valid() && stack == old(stack)
      ensures Progress() && Undisturbed()
      ensures assumed <= stack
      ensures yes && !demandObserved ==> Justified(rules, k, assumed)
      ensures !yes && Clean() ==> !Related(rules, k)
      ensures Starved(rules, rules(k)) ==> !yes && OutOfBudget()
      decreases universe - stack, 0
    {
      hide FirstDemand, MissingSurfaces;
      stack := stack + {k};
      var frameAssumed;
      yes, frameAssumed := Evaluate(rules(k), wantReason);
      stack := stack - {k};
      assumed := frameAssumed - {k};
      if yes && !demandObserved {
        DischargeFrame(rules, k, frameAssumed);
      }
      if !yes && Clean() {
        RelatedIsFixpoint(rules, k);
      }
    }

    /** Evaluate a structural rule, left to right with short circuits. */
    method Evaluate(r: Rule, wantReason: bool) returns (yes: bool, assumed: set<Key>)
      requires Valid() && GoalsWithin(r, universe)
      modifies this`pending, this`stack, this`exhausted, this`spent, this`demand, this`surfaces, this`demandObserved, this`signals
      ensures Valid() && stack == old(stack)
      ensures Progress() && (Exposed(r) ==> Undisturbed())
      ensures assumed <= stack
      ensures yes && !demandObserved ==> Holds(r, Support(rules, assumed))
      ensures !yes && Clean() ==> !Holds(r, Support(rules, {}))
      ensures Starved(rules, r) ==> !yes && OutOfBudget()
      decreases universe - stack, 2, r, 1
    {
      hide FirstDemand, MissingSurfaces;
      match r
      case Settled(b) =>
        return b, {};
      case Goal(k, probing) =>
        yes, assumed := Relate(k, wantReason && !probing);
      case All(parts) =>
        yes, assumed := EvaluateAll(r, wantReason);
      case Any(parts) =>
        yes, assumed := EvaluateAny(r, wantReason);
      case Probe(parts) =>
        yes, assumed := EvaluateProbe(r, wantReason);
      case Blocked(signal, _) =>
        Interrupt(signal);
        return signal.Surface?, {};
    }

    /** Every part must hold; all their assumptions contribute. */
    method EvaluateAll(r: Rule, wantReason: bool) returns (yes: bool, assumed: set<Key>)
      requires Valid() && r.All? && GoalsWithin(r, universe)
      modifies this`pending, this`stack, this`exhausted, this`spent, this`demand, this`surfaces, this`demandObserved, this`signals
      ensures Valid() && stack == old(stack)
      ensures Progress() && (Exposed(r) ==> Undisturbed())
      ensures assumed <= stack
      ensures yes && !demandObserved ==> Holds(r, Support(rules, assumed))
      ensures !yes && Clean() ==> !Holds(r, Support(rules, {}))
      ensures Starved(rules, r) ==> !yes && OutOfBudget()
      decreases universe - stack, 2, r, 0
    {
      hide FirstDemand, MissingSurfaces;
      var parts := r.parts;
      assumed := {};
      for i := 0 to |parts|
        invariant Valid() && stack == old(stack)
        invariant Progress() && (Exposed(r) ==> Undisturbed())
        invariant assumed <= stack
        invariant Starved(rules, r) ==> i == 0 && demandObserved == old(demandObserved) && pending == old(pending)
        invariant !demandObserved ==> forall j | 0 <= j < i :: Holds(parts[j], Support(rules, assumed))
      {
        var more;
        yes, more := Evaluate(parts[i], wantReason);
        if !yes {
          return false, assumed + more;
        }
        if !demandObserved {
          CombineSupport(rules, parts, i, assumed, more);
        }
        assumed := assumed + more;
      }
      yes := true;
    }

    /** Some part must hold; only the accepted part's assumptions contribute. */
    method EvaluateAny(r: Rule, wantReason: bool) returns (yes: bool, assumed: set<Key>)
      requires Valid() && r.Any? && GoalsWithin(r, universe)
      modifies this`pending, this`stack, this`exhausted, this`spent, this`demand, this`surfaces, this`demandObserved, this`signals
      ensures Valid() && stack == old(stack)
      ensures Progress() && (Exposed(r) ==> Undisturbed())
      ensures assumed <= stack
      ensures yes && !demandObserved ==> Holds(r, Support(rules, assumed))
      ensures !yes && Clean() ==> !Holds(r, Support(rules, {}))
      decreases universe - stack, 2, r, 0
    {
      hide FirstDemand, MissingSurfaces;
      var parts := r.parts;
      for i := 0 to |parts|
        invariant Valid() && stack == old(stack)
        invariant Progress() && (Exposed(r) ==> Undisturbed())
        invariant Clean() ==> NoneHolds(parts[..i], Support(rules, {}))
      {
        yes, assumed := Evaluate(parts[i], wantReason);
        if yes {
          return;
        }
        assert parts[..i + 1] == parts[..i] + [parts[i]];
      }
      assert parts[..|parts|] == parts;
      return false, {};
    }

    /** Some part must hold; a rejected probe's assumptions are kept, conservatively. */
    method EvaluateProbe(r: Rule, wantReason: bool) returns (yes: bool, assumed: set<Key>)
      requires Valid() && r.Probe? && GoalsWithin(r, universe)
      modifies this`pending, this`stack, this`exhausted, this`spent, this`demand, this`surfaces, this`demandObserved, this`signals
      ensures Valid() && stack == old(stack)
      ensures Progress() && (Exposed(r) ==> Undisturbed())
      ensures assumed <= stack
      ensures yes && !demandObserved ==> Holds(r, Support(rules, assumed))
      ensures !yes && Clean() ==> !Holds(r, Support(rules, {}))
      decreases universe - stack, 2, r, 0
    {
      hide FirstDemand, MissingSurfaces;
      var parts := r.parts;
      assumed := {};
      for i := 0 to |parts|
        invariant Valid() && stack == old(stack)
        invariant Progress() && (Exposed(r) ==> Undisturbed())
        invariant assumed <= stack
        invariant Clean() ==> NoneHolds(parts[..i], Support(rules, {}))
      {
        var more;
        yes, more := Evaluate(parts[i], wantReason);
        if yes {
          if !demandObserved {
            SupportMonotone(rules, more, assumed + more);
            HoldsMonotone(parts[i], Support(rules, more), Support(rules, assumed + more));
          }
          return true, assumed + more;
        }
        assumed := assumed + more;
        assert parts[..i + 1] == parts[..i] + [parts[i]];
      }
      assert parts[..|parts|] == parts;
      yes := false;
    }

    /** One pass of a top-level query.  A decided pass is exact: its answer depends on nothing but
        the rules, and any assumption has been discharged on the way. */
    method IsAssignableAttempt(k: Key) returns (attempt: Attempt)
      requires Valid() && k in universe && stack == {}
      requires !spent
      modifies this`pending, this`stack, this`exhausted, this`spent, this`demand, this`surfaces, this`demandObserved, this`signals
      ensures Valid() && stack == {} && !exhausted
      ensures attempt == Decided(Yes) ==> Clean() && Related(rules, k)
      ensures attempt == Decided(No) ==> Clean() && !Related(rules, k)
      ensures attempt == Decided(Exhausted) <==> spent
      ensures attempt.Decided? || demandObserved
      ensures attempt.Needs? ==> FirstDemand(signals) == Some(attempt.node) && MissingSurfaces(signals) == []
      ensures attempt.NeedsBatch? ==> attempt.nodes == MissingSurfaces(signals) != []
      ensures attempt in {Decided(Yes), Decided(No)} && k.src != k.tgt ==> k in pending || k in View(durable)
      ensures AllExposed(rules, universe) ==> attempt in {Decided(Yes), Decided(No)}
      ensures !rules(k).Blocked? && Starved(rules, rules(k)) && old(Undecided(k)) ==>
                attempt == Decided(Exhausted) && !demandObserved && pending == old(pending)[k := false]
    {
      hide FirstDemand, MissingSurfaces;
      NoSignals();
      exhausted, demand, surfaces, demandObserved, signals := false, None, [], false, [];
      var yes, assumed := Relate(k, true);
      assert assumed == {};
      if exhausted {
        exhausted := false;
        return Decided(Exhausted);
      }
      if surfaces != [] {
        return NeedsBatch(surfaces);
      }
      if demand.Some? {
        return Needs(demand.value);
      }
      return Decided(if yes then Yes else No);
    }

    /** Hand the durable cache back, with the query's writes if the caller commits.  A pass takes
        its own exhaustion report, so it is the caller's flag that keeps the cache sound: a
        commit is sound exactly when the query's own writes are. */
    method FinishPlanned(commit: bool) returns (cache: Cache)
      requires Valid()
      ensures cache == if commit && !exhausted && !demandObserved then Promote(durable, pending) else durable
      ensures commit && !exhausted && !demandObserved ==> (Sound(rules, View(cache)) <==> Sound(rules, pending))
      ensures !spent || !commit ==> Sound(rules, View(cache))
    {
      if commit && !exhausted && !demandObserved {
        cache := Promote(durable, pending);
        WritesAreVisible(durable, Key(0, 0, Identity), true, pending);
        if Sound(rules, View(cache)) {
          assert forall q | q in pending :: q in View(cache) && View(cache)[q] == pending[q];
        }
      } else {
        cache := durable;
      }
    }
  }

  lemma DischargeFrame(rules: Rules, k: Key, frameAssumed: set<Key>)
    requires Holds(Meaning(rules, k), Support(rules, frameAssumed))
    ensures Justified(rules, k, frameAssumed - {k})
  {
    SupportMonotone(rules, frameAssumed, frameAssumed + {k});
    HoldsMonotone(Meaning(rules, k), Support(rules, frameAssumed), Support(rules, frameAssumed + {k}));
    Discharge(rules, k, frameAssumed);
  }

  lemma CombineSupport(rules: Rules, parts: seq<Rule>, i: nat, left: set<Key>, right: set<Key>)
    requires i < |parts|
    requires forall j | 0 <= j < i :: Holds(parts[j], Support(rules, left))
    requires Holds(parts[i], Support(rules, right))
    ensures forall j | 0 <= j <= i :: Holds(parts[j], Support(rules, left + right))
  {
    SupportMonotone(rules, left, left + right);
    SupportMonotone(rules, right, left + right);
    forall j | 0 <= j <= i ensures Holds(parts[j], Support(rules, left + right)) {
      HoldsMonotone(parts[j], Support(rules, if j < i then left else right), Support(rules, left + right));
    }
  }

  /** The spent report is lost: this pass reports exhaustion and leaves behind a failure for a key
      that holds, and a commit would write it to the durable cache. */
  method SpentReportLeaks() returns (relater: Relater, attempt: Attempt, cache: Cache)
    ensures var k := Key(0, 1, Assignable);
            && attempt == Decided(Exhausted) && relater.pending == map[k := false]
            && Related(relater.rules, k) && View(cache) == map[k := false]
  {
    var k, inner := Key(0, 1, Assignable), Key(2, 3, Assignable);
    var rules: Rules := (q: Key) => if q == k then Goal(inner, false) else Blocked(Exhaustion, Settled(true));
    RelatedIsFixpoint(rules, inner);
    RelatedIsFixpoint(rules, k);
    relater := new Relater.Planned(rules, {k, inner}, Root(map[]));
    attempt := relater.IsAssignableAttempt(k);
    cache := relater.FinishPlanned(true);
  }
}
