/** Whole checking sessions: a coordinator that plans, relates and remembers, query after query. */
module RelationQuery {
  import opened RelationRules
  import opened RelationCache
  import opened RelationEngine

  /** One top-level query with the successive overlays its planner would offer, and whether the
      planner reported taint while building them. */
  datatype Request = Request(key: Key, plans: seq<Rules>, planningTainted: bool, cycleTainted: bool)

  datatype Reply = Answered(outcome: Outcome) | StillPlanning

  /** The planner only exposes more of the rules, over the finitely many keys of the store. */
  ghost predicate Planned(rules: Rules, universe: set<Key>, r: Request) {
    && r.key in universe
    && forall i | 0 <= i < |r.plans| :: SameRules(r.plans[i], rules) && ClosedUnder(r.plans[i], universe)
  }

  /** A reply never contradicts the rules. */
  ghost predicate Truthful(rules: Rules, k: Key, reply: Reply) {
    && (reply == Answered(Yes) ==> Related(rules, k))
    && (reply == Answered(No) ==> !Related(rules, k))
  }

  /** What is reported of a decided pass. */
  function Reported(r: Request, outcome: Outcome): Outcome {
    if outcome == Yes && r.planningTainted then Exhausted else outcome
  }

  /** A pass that decides tells the truth, and one under a plan that exposes everything decides. */
  ghost predicate PassTruthful(rules: Rules, universe: set<Key>, plan: Rules, k: Key, attempt: Attempt) {
    && (attempt.Decided? ==> Truthful(rules, k, Answered(attempt.outcome)))
    && (AllExposed(plan, universe) ==> attempt in {Decided(Yes), Decided(No)})
  }

  /** The plans were tried in order, each after the one before it was interrupted, until one decided or
      none was left. */
  ghost predicate Tried(rules: Rules, universe: set<Key>, r: Request, attempts: seq<Attempt>, reply: Reply) {
    && |attempts| <= |r.plans|
    && (forall i | 0 <= i < |attempts| :: PassTruthful(rules, universe, r.plans[i], r.key, attempts[i]))
    && (forall i | 0 <= i < |attempts| - 1 :: !attempts[i].Decided?)
    && (reply.StillPlanning? ==> |attempts| == |r.plans| && (attempts != [] ==> !attempts[|attempts| - 1].Decided?))
    && (reply.Answered? ==> attempts != [] && attempts[|attempts| - 1].Decided?
                            && reply.outcome == Reported(r, attempts[|attempts| - 1].outcome))
  }

  /** A plan that exposes everything is enough for an answer, and for the right one when it is the one
      that decides. */
  lemma ExposedPlanDecides(rules: Rules, universe: set<Key>, r: Request, attempts: seq<Attempt>, reply: Reply, i: nat)
    requires Tried(rules, universe, r, attempts, reply) && i < |r.plans| && AllExposed(r.plans[i], universe)
    ensures reply.Answered?
    ensures |attempts| == i + 1 ==>
              reply == Answered(if !Related(rules, r.key) then No else if r.planningTainted then Exhausted else Yes)
  {
    if i < |attempts| {
      assert PassTruthful(rules, universe, r.plans[i], r.key, attempts[i]);
    }
  }

  /** Remembering a decision: a success at once, a failure only when it recurs. */
  function Remembered(completed: map<Key, Outcome>, noCandidates: set<Key>, k: Key, outcome: Outcome): (map<Key, Outcome>, set<Key>) {
    if outcome == No && k !in noCandidates then (completed, noCandidates + {k})
    else (if k in completed then completed else completed[k := outcome],
          if outcome == No then noCandidates - {k} else noCandidates)
  }

  /** Every pass so far was interrupted. */
  ghost predicate Interrupted(rules: Rules, universe: set<Key>, r: Request, attempts: seq<Attempt>) {
    && |attempts| <= |r.plans|
    && forall i | 0 <= i < |attempts| ::
         !attempts[i].Decided? && PassTruthful(rules, universe, r.plans[i], r.key, attempts[i])
  }

  lemma NoneDecided(rules: Rules, universe: set<Key>, r: Request, attempts: seq<Attempt>)
    requires Interrupted(rules, universe, r, attempts) && |attempts| == |r.plans|
    ensures Tried(rules, universe, r, attempts, StillPlanning)
  {
    hide PassTruthful;
  }

  lemma OneMoreTried(rules: Rules, universe: set<Key>, r: Request, attempts: seq<Attempt>, attempt: Attempt)
    requires Interrupted(rules, universe, r, attempts) && |attempts| < |r.plans|
    requires PassTruthful(rules, universe, r.plans[|attempts|], r.key, attempt)
    ensures if attempt.Decided? then Tried(rules, universe, r, attempts + [attempt], Answered(Reported(r, attempt.outcome)))
            else Interrupted(rules, universe, r, attempts + [attempt])
  {
    hide PassTruthful;
  }

  lemma NoPassYet(rules: Rules, universe: set<Key>, r: Request)
    ensures Interrupted(rules, universe, r, [])
  {
  }

  /** Neither remembered nor trivial. */
  predicate Undecided(completed: map<Key, Outcome>, r: Request) {
    r.key !in completed && r.key.src != r.key.tgt
  }

  ghost predicate CompletedSound(rules: Rules, completed: map<Key, Outcome>) {
    forall k | k in completed :: completed[k] != Exhausted && Truthful(rules, k, Answered(completed[k]))
  }

  lemma SoundTransfers(left: Rules, right: Rules, verdicts: map<Key, bool>)
    requires SameRules(left, right) && Sound(left, verdicts)
    ensures Sound(right, verdicts)
  {
    forall k | k in verdicts ensures verdicts[k] == Related(right, k) {
      PlansAgree(left, right, k);
    }
  }

  /** One pass under one overlay: the cache stays sound for the full rules, and a decided pass
      answers for them. */
  method Pass(plan: Rules, ghost rules: Rules, ghost universe: set<Key>, cache: Cache, k: Key, mayCommit: bool)
      returns (attempt: Attempt, after: Cache)
    requires k in universe && SameRules(plan, rules) && ClosedUnder(plan, universe)
    requires LayersSound(rules, cache)
    ensures LayersSound(rules, after)
    ensures PassTruthful(rules, universe, plan, k, attempt)
    ensures mayCommit && attempt in {Decided(Yes), Decided(No)} && k.src != k.tgt ==> k in View(after)
    ensures after == cache || exists more :: after == Promote(cache, more)
    ensures !mayCommit || attempt !in {Decided(Yes), Decided(No)} ==> after == cache
  {
    assert Sound(plan, View(cache)) by {
      SoundTransfers(rules, plan, View(cache));
    }
    var relater := new Relater.Planned(plan, universe, cache);
    attempt := relater.IsAssignableAttempt(k);
    var decided := attempt == Decided(Yes) || attempt == Decided(No);
    after := relater.FinishPlanned(decided && mayCommit);
    WritesAreVisible(cache, k, true, relater.pending);
    assert Sound(rules, View(after)) by {
      SoundTransfers(plan, rules, View(after));
    }
    assert Related(plan, k) == Related(rules, k) by {
      PlansAgree(plan, rules, k);
    }
  }

  class Coordinator {
    ghost const rules: Rules
    ghost const universe: set<Key>
    var cache: Cache
    var completed: map<Key, Outcome>
    var noCandidates: set<Key>
    /** What was remembered when each open transaction began, oldest first. */
    var saved: seq<(map<Key, Outcome>, set<Key>)>

    ghost predicate Valid()
      reads this
    {
      && LayersSound(rules, cache) && CompletedSound(rules, completed)
      && |saved| == Depth(cache) && forall j | 0 <= j < |saved| :: CompletedSound(rules, saved[j].0)
    }

    constructor (ghost rules: Rules, ghost universe: set<Key>)
      ensures Valid() && this.rules == rules && this.universe == universe
      ensures cache == Root(map[]) && completed == map[] && noCandidates == {} && saved == []
    {
      this.rules, this.universe := rules, universe;
      cache, completed, noCandidates, saved := Root(map[]), map[], {}, [];
    }

    /** Speculate: layer the cache and note what is remembered. */
    method Open()
      requires Valid()
      modifies this`cache, this`saved
      ensures Valid() && cache == Savepoint(old(cache))
      ensures saved == old(saved) + [(completed, noCandidates)]
    {
      LayersAreInvisible(cache);
      saved := saved + [(completed, noCandidates)];
      cache := Savepoint(cache);
    }

    /** Keep what the innermost transaction learned. */
    method Keep()
      requires Valid() && saved != []
      modifies this`cache, this`saved
      ensures Valid() && View(cache) == View(old(cache)) && saved == old(saved)[..|old(saved)| - 1]
    {
      LayersAreInvisible(cache);
      assert LayersSound(rules, cache.base);
      saved := saved[..|saved| - 1];
      cache := Commit(cache);
    }

    /** Forget what the innermost transaction learned. */
    method Drop()
      requires Valid() && saved != []
      modifies this
      ensures Valid() && cache == Rollback(old(cache)) && saved == old(saved)[..|old(saved)| - 1]
      ensures (completed, noCandidates) == old(saved)[|old(saved)| - 1]
    {
      completed, noCandidates := saved[|saved| - 1].0, saved[|saved| - 1].1;
      saved := saved[..|saved| - 1];
      cache := Rollback(cache);
    }

    /** Plan, relate, and retry with a larger overlay until a pass decides the query. */
    method IsAssignable(r: Request) returns (reply: Reply, ghost attempts: seq<Attempt>)
      requires Valid() && Planned(rules, universe, r)
      modifies this`cache, this`completed, this`noCandidates
      ensures Valid() && Truthful(rules, r.key, reply)
      // a remembered answer is given again, and an identical pair needs no pass
      ensures r.key in old(completed) ==> reply == Answered(old(completed)[r.key])
      ensures r.key !in old(completed) && r.key.src == r.key.tgt ==> reply == Answered(Yes)
      ensures Undecided(old(completed), r) ==> Tried(rules, universe, r, attempts, reply)
      // a decision without taint is remembered and cached, and nothing else is
      ensures (completed, noCandidates) ==
              if !Undecided(old(completed), r) || r.planningTainted || r.cycleTainted
                 || reply !in {Answered(Yes), Answered(No)}
              then (old(completed), old(noCandidates))
              else Remembered(old(completed), old(noCandidates), r.key, reply.outcome)
      ensures Undecided(old(completed), r) && !r.planningTainted && !r.cycleTainted && reply in {Answered(Yes), Answered(No)} ==>
                r.key in View(cache)
      ensures cache == old(cache) || exists more :: cache == Promote(old(cache), more)
      ensures r.planningTainted || r.cycleTainted || reply !in {Answered(Yes), Answered(No)} ==> cache == old(cache)
    {
      hide Tried, Interrupted, AllExposed, LayersSound, SameRules, ClosedUnder;
      NoPassYet(rules, universe, r);
      attempts := [];
      if r.key in completed {
        return Answered(completed[r.key]), attempts;
      }
      if r.key.src == r.key.tgt {
        RelatedIsFixpoint(rules, r.key);
        return Answered(Yes), attempts;
      }
      var reported: Outcome;
      var i := 0;
      while true
        invariant 0 <= i <= |r.plans|
        invariant Valid() && cache == old(cache) && completed == old(completed) && noCandidates == old(noCandidates)
        invariant |attempts| == i && Interrupted(rules, universe, r, attempts)
        decreases |r.plans| - i
      {
        if i == |r.plans| {
          NoneDecided(rules, universe, r, attempts);
          return StillPlanning, attempts;
        }
        var attempt;
        attempt, cache := Pass(r.plans[i], rules, universe, cache, r.key, !r.planningTainted && !r.cycleTainted);
        OneMoreTried(rules, universe, r, attempts, attempt);
        attempts := attempts + [attempt];
        if attempt.Decided? {
          reported := attempt.outcome;
          break;
        }
        i := i + 1;
      }
      if reported == Yes && r.planningTainted {
        reported := Exhausted;
      }
      if !r.planningTainted && reported != Exhausted && !r.cycleTainted {
        Remember(r.key, reported);
      }
      return Answered(reported), attempts;
    }

    /** A success is remembered at once, a failure only when it recurs. */
    method Remember(k: Key, outcome: Outcome)
      requires Valid() && outcome != Exhausted && Truthful(rules, k, Answered(outcome))
      modifies this`completed, this`noCandidates
      ensures Valid()
      ensures (completed, noCandidates) == Remembered(old(completed), old(noCandidates), k, outcome)
    {
      if outcome == No {
        if k !in noCandidates {
          noCandidates := noCandidates + {k};
          return;
        }
        noCandidates := noCandidates - {k};
      }
      if k in completed {
        return;
      }
      completed := completed[k := outcome];
    }
  }

  /** A session may speculate: open a layer, keep its verdicts, or drop them. */
  datatype Step = Ask(request: Request) | Open | Keep | Drop

  /** Each query is answered yes or no from memory, or by its plans. */
  ghost predicate Responds(rules: Rules, universe: set<Key>, r: Request, attempts: seq<Attempt>, reply: Reply) {
    reply in {Answered(Yes), Answered(No)} || Tried(rules, universe, r, attempts, reply)
  }

  /** In a session, a query with a plan that exposes everything is always answered, and exactly when that
      is its first plan and the planner saw no taint. */
  lemma SessionDecides(rules: Rules, universe: set<Key>, r: Request, attempts: seq<Attempt>, reply: Reply, i: nat)
    requires Responds(rules, universe, r, attempts, reply) && Truthful(rules, r.key, reply)
    requires i < |r.plans| && AllExposed(r.plans[i], universe)
    ensures reply.Answered?
    ensures i == 0 && !r.planningTainted ==> reply == Answered(if Related(rules, r.key) then Yes else No)
  {
    if Tried(rules, universe, r, attempts, reply) {
      ExposedPlanDecides(rules, universe, r, attempts, reply, i);
      assert PassTruthful(rules, universe, r.plans[0], r.key, attempts[0]);
    }
  }

  /** Over every run of a session, in any order and under any nesting of speculation, each
      decided answer is the one the rules alone determine. */
  method RunSession(ghost rules: Rules, ghost universe: set<Key>, steps: seq<Step>) returns (replies: seq<Reply>, ghost attempts: seq<seq<Attempt>>)
    requires forall i | 0 <= i < |steps| && steps[i].Ask? :: Planned(rules, universe, steps[i].request)
    ensures |replies| == |attempts| == |steps|
    ensures forall i | 0 <= i < |steps| && steps[i].Ask? :: Truthful(rules, steps[i].request.key, replies[i])
    ensures forall i | 0 <= i < |steps| && steps[i].Ask? :: Responds(rules, universe, steps[i].request, attempts[i], replies[i])
  {
    hide Tried, Truthful, AllExposed, SameRules, ClosedUnder;
    var state := new Coordinator(rules, universe);
    replies, attempts := [], [];
    for n := 0 to |steps|
      invariant fresh(state) && state.Valid() && state.rules == rules && state.universe == universe
      invariant |replies| == |attempts| == n
      invariant forall i | 0 <= i < n && steps[i].Ask? :: Truthful(rules, steps[i].request.key, replies[i])
      invariant forall i | 0 <= i < n && steps[i].Ask? :: Responds(rules, universe, steps[i].request, attempts[i], replies[i])
    {
      var reply := StillPlanning;
      ghost var tried: seq<Attempt> := [];
      match steps[n] {
        case Ask(request) =>
          reply, tried := state.IsAssignable(request);
        case Open =>
          state.Open();
        case Keep =>
          if state.saved != [] {
            state.Keep();
          }
        case Drop =>
          if state.saved != [] {
            state.Drop();
          }
      }
      replies, attempts := replies + [reply], attempts + [tried];
    }
  }
}
