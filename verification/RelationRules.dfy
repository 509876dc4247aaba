/** The meaning of an assignability query, independent of any cache or cycle stack.

    A relation key asks whether `src` relates to `tgt`.  The structural rules turn one key into
    a finite tree of conjunctions and disjunctions over further keys, and the rules of recursive
    types are cyclic.  `Related` is the greatest relation consistent with the rules: a key holds
    when some set of keys containing it justifies all of its own members. */
module RelationRules {

  datatype Kind = Identity | Subtype | Assignable

  /** The three-word cache key. */
  datatype Key = Key(src: nat, tgt: nat, kind: Kind)

  /** Why a node cannot be decided yet: a spent budget, an unresolved semantic node, or a member
      surface that the planner still has to build. */
  datatype Signal = Exhaustion | Demand(node: nat) | Surface(node: nat)

  /** One structural rule.  `Goal` is a recursive query; a probing goal discards its reason.
      `Any` gives each alternative its own assumption accumulator, `Probe` shares one.
      `Blocked` stands for a rule that the current plan does not expose yet. */
  datatype Rule =
    | Settled(holds: bool)
    | Goal(key: Key, probing: bool)
    | All(parts: seq<Rule>)
    | Any(parts: seq<Rule>)
    | Probe(parts: seq<Rule>)
    | Blocked(signal: Signal, standsFor: Rule)

  type Rules = Key -> Rule

  /** Truth of a rule when exactly the keys of `given` hold. */
  ghost predicate Holds(r: Rule, given: iset<Key>) {
    match r
    case Settled(b) => b
    case Goal(k, _) => k in given
    case All(parts) => forall i | 0 <= i < |parts| :: Holds(parts[i], given)
    case Any(parts) => exists i | 0 <= i < |parts| :: Holds(parts[i], given)
    case Probe(parts) => exists i | 0 <= i < |parts| :: Holds(parts[i], given)
    case Blocked(_, full) => Holds(full, given)
  }

  /** Every type relates to itself before any structural rule is consulted. */
  ghost function Meaning(rules: Rules, k: Key): Rule {
    if k.src == k.tgt then Settled(true) else rules(k)
  }

  /** `k` holds if the keys of `assumed` do: some set of keys, `k` among them, justifies all its
      members with the help of the assumptions. */
  ghost predicate Justified(rules: Rules, k: Key, assumed: set<Key>) {
    exists keys: iset<Key> :: k in keys && SelfJustifying(rules, keys, assumed)
  }

  ghost function With(keys: iset<Key>, assumed: set<Key>): iset<Key> {
    iset k | k in keys || k in assumed
  }

  ghost predicate SelfJustifying(rules: Rules, keys: iset<Key>, assumed: set<Key>) {
    forall k | k in keys :: Holds(Meaning(rules, k), With(keys, assumed))
  }

  /** The greatest consistent relation. */
  ghost predicate Related(rules: Rules, k: Key) {
    Justified(rules, k, {})
  }

  /** Everything that may be used under the assumptions. */
  ghost function Support(rules: Rules, assumed: set<Key>): iset<Key> {
    iset k | k in assumed || Justified(rules, k, assumed)
  }

  /** No rule is antitone. */
  lemma {:induction false} HoldsMonotone(r: Rule, small: iset<Key>, big: iset<Key>)
    requires small <= big
    requires Holds(r, small)
    ensures Holds(r, big)
  {
    match r
    case Settled(_) =>
    case Goal(_, _) =>
    case All(parts) =>
      forall i | 0 <= i < |parts| ensures Holds(parts[i], big) {
        HoldsMonotone(parts[i], small, big);
      }
    case Any(parts) =>
      var i :| 0 <= i < |parts| && Holds(parts[i], small);
      HoldsMonotone(parts[i], small, big);
    case Probe(parts) =>
      var i :| 0 <= i < |parts| && Holds(parts[i], small);
      HoldsMonotone(parts[i], small, big);
    case Blocked(_, full) => HoldsMonotone(full, small, big);
  }

  /** A justified key satisfies its own rule. */
  lemma Unfold(rules: Rules, k: Key, assumed: set<Key>)
    requires Justified(rules, k, assumed)
    ensures Holds(Meaning(rules, k), Support(rules, assumed))
  {
    var keys: iset<Key> :| k in keys && SelfJustifying(rules, keys, assumed);
    assert forall x | x in keys :: Justified(rules, x, assumed);
    HoldsMonotone(Meaning(rules, k), With(keys, assumed), Support(rules, assumed));
  }

  /** Discharging a frame's own key: a rule that holds with the help of an assumption about its
      own key holds without it. */
  lemma Discharge(rules: Rules, k: Key, assumed: set<Key>)
    requires Holds(Meaning(rules, k), Support(rules, assumed + {k}))
    ensures Justified(rules, k, assumed - {k})
  {
    var wide := assumed + {k};
    var keys: iset<Key> := iset x | x == k || Justified(rules, x, wide);
    forall x | x in keys
      ensures Holds(Meaning(rules, x), With(keys, assumed - {k}))
    {
      if x != k || Justified(rules, x, wide) {
        Unfold(rules, x, wide);
      }
      HoldsMonotone(Meaning(rules, x), Support(rules, wide), With(keys, assumed - {k}));
    }
    assert SelfJustifying(rules, keys, assumed - {k});
  }

  lemma SupportMonotone(rules: Rules, small: set<Key>, big: set<Key>)
    requires small <= big
    ensures Support(rules, small) <= Support(rules, big)
  {
    forall k | Justified(rules, k, small) ensures Justified(rules, k, big) {
      var keys: iset<Key> :| k in keys && SelfJustifying(rules, keys, small);
      forall x | x in keys ensures Holds(Meaning(rules, x), With(keys, big)) {
        HoldsMonotone(Meaning(rules, x), With(keys, small), With(keys, big));
      }
      assert SelfJustifying(rules, keys, big);
    }
  }

  /** The greatest relation is a fixpoint of the rules. */
  lemma RelatedIsFixpoint(rules: Rules, k: Key)
    ensures Related(rules, k) <==> Holds(Meaning(rules, k), Support(rules, {}))
  {
    if Related(rules, k) {
      Unfold(rules, k, {});
    }
    if Holds(Meaning(rules, k), Support(rules, {})) {
      SupportMonotone(rules, {}, {k});
      assert {} + {k} == {k};
      HoldsMonotone(Meaning(rules, k), Support(rules, {}), Support(rules, {} + {k}));
      Discharge(rules, k, {});
      assert {} - {k} == {};
    }
  }

  /** It contains every relation consistent with the rules. */
  lemma RelatedIsGreatest(rules: Rules, relation: iset<Key>)
    requires forall k | k in relation :: Holds(Meaning(rules, k), relation)
    ensures forall k | k in relation :: Related(rules, k)
  {
    var none: set<Key> := {};
    assert With(relation, none) == relation;
    assert SelfJustifying(rules, relation, none);
  }

  /** What a plan looks like once every blocked node is exposed. */
  function Expose(r: Rule): Rule
    decreases r
  {
    match r
    case Settled(_) => r
    case Goal(_, _) => r
    case All(parts) => All(seq(|parts|, i requires 0 <= i < |parts| => Expose(parts[i])))
    case Any(parts) => Any(seq(|parts|, i requires 0 <= i < |parts| => Expose(parts[i])))
    case Probe(parts) => Probe(seq(|parts|, i requires 0 <= i < |parts| => Expose(parts[i])))
    case Blocked(_, full) => Expose(full)
  }

  /** Two plans of the same query expose different amounts of the same rules. */
  ghost predicate SameRules(left: Rules, right: Rules) {
    forall k {:trigger left(k)} {:trigger right(k)} :: Expose(left(k)) == Expose(right(k))
  }

  lemma {:induction false} ExposeKeepsMeaning(r: Rule, given: iset<Key>)
    ensures Holds(Expose(r), given) == Holds(r, given)
  {
    match r
    case Settled(_) =>
    case Goal(_, _) =>
    case All(parts) =>
      forall i | 0 <= i < |parts| ensures Holds(Expose(parts[i]), given) == Holds(parts[i], given) {
        ExposeKeepsMeaning(parts[i], given);
      }
      assert forall i | 0 <= i < |parts| :: Expose(r).parts[i] == Expose(parts[i]);
    case Any(parts) =>
      forall i | 0 <= i < |parts| ensures Holds(Expose(parts[i]), given) == Holds(parts[i], given) {
        ExposeKeepsMeaning(parts[i], given);
      }
      assert forall i | 0 <= i < |parts| :: Expose(r).parts[i] == Expose(parts[i]);
    case Probe(parts) =>
      forall i | 0 <= i < |parts| ensures Holds(Expose(parts[i]), given) == Holds(parts[i], given) {
        ExposeKeepsMeaning(parts[i], given);
      }
      assert forall i | 0 <= i < |parts| :: Expose(r).parts[i] == Expose(parts[i]);
    case Blocked(_, full) => ExposeKeepsMeaning(full, given);
  }

  /** Expanding a plan never changes which keys are related. */
  lemma PlansAgree(left: Rules, right: Rules, k: Key)
    requires SameRules(left, right)
    ensures Related(left, k) == Related(right, k)
  {
    if Related(left, k) {
      TransferRelated(left, right, k);
    }
    if Related(right, k) {
      TransferRelated(right, left, k);
    }
  }

  lemma TransferRelated(left: Rules, right: Rules, k: Key)
    requires SameRules(left, right)
    requires Related(left, k)
    ensures Related(right, k)
  {
    var keys: iset<Key> :| k in keys && SelfJustifying(left, keys, {});
    forall x | x in keys ensures Holds(Meaning(right, x), With(keys, {})) {
      assert Holds(Meaning(left, x), With(keys, {}));
      ExposeKeepsMeaning(left(x), With(keys, {}));
      ExposeKeepsMeaning(right(x), With(keys, {}));
    }
    assert SelfJustifying(right, keys, {});
  }
}
