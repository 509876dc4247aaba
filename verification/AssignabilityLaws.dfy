/** Laws of the structural rules that the checker states in passing, with the inputs on which
    they fail, and the engine run on a real store. */
module AssignabilityLaws {
  import opened Wrappers
  import opened RelationRules
  import opened RelationCache
  import opened RelationEngine
  import opened AssignabilityRules

  ghost predicate Assigns(store: Store, other: Rules, src: nat, tgt: nat) {
    Related(RulesOf(store, other), Key(src, tgt, Assignable))
  }

  /** The engine decides assignability on every pair of a well-formed store, from any sound cache. */
  method Check(store: Store, other: Rules, durable: Cache, src: nat, tgt: nat) returns (yes: bool)
    requires WellFormed(store) && src < |store| && tgt < |store|
    requires ClosedUnder(other, AllKeys(store)) && AllExposed(other, AllKeys(store))
    requires Sound(RulesOf(store, other), View(durable))
    ensures yes <==> Assigns(store, other, src, tgt)
  {
    StoreIsClosed(store, other);
    StoreIsExposed(store, other);
    InAllKeys(store, Key(src, tgt, Assignable));
    var relater := new Relater.Planned(RulesOf(store, other), AllKeys(store), durable);
    var attempt := relater.IsAssignableAttempt(Key(src, tgt, Assignable));
    yes := attempt == Decided(Yes);
  }

  // ------------------------------------------------------------------ union sources

  predicate Deferred(t: Type) {
    t.Conditional? || t.Instantiation? || t.Mapped? || t.Keyof?
  }

  /** Targets that accept every type before any other rule is consulted. */
  predicate Absorbs(store: Store, tgt: nat) {
    Is(store, tgt, ErrorType) || Is(store, tgt, AnyType)
  }

  /** The target union lists `m` verbatim. */
  predicate Listed(store: Store, m: nat, tgt: nat) {
    tgt < |store| && store[tgt].Union? && m in store[tgt].members
  }

  ghost predicate EachAssigns(store: Store, other: Rules, u: nat, tgt: nat)
    requires u < |store| && store[u].Union?
  {
    forall m | m in store[u].members :: Assigns(store, other, m, tgt)
  }

  /** A union source is assignable exactly when the target absorbs everything, or is not deferred
      and each member is assignable or listed verbatim. */
  lemma UnionSourceLaw(store: Store, other: Rules, u: nat, tgt: nat)
    requires u < |store| && store[u].Union? && tgt < |store|
    ensures Assigns(store, other, u, tgt) <==>
            || Absorbs(store, tgt)
            || (&& !Deferred(store[tgt])
                && forall m | m in store[u].members :: Listed(store, m, tgt) || Assigns(store, other, m, tgt))
  {
    var rules := RulesOf(store, other);
    var k := Key(u, tgt, Assignable);
    RelatedIsFixpoint(rules, k);
    if u != tgt && !Absorbs(store, tgt) && !Deferred(store[tgt]) {
      var listed := if store[tgt].Union? then store[tgt].members else [];
      var goals := Goals(UnionSourcePairs(store[u].members, tgt, listed), Assignable, false);
      assert Meaning(rules, k) == All(goals);
      var given := Support(rules, {});
      forall i | 0 <= i < |store[u].members|
        ensures Holds(goals[i], given) <==>
                Listed(store, store[u].members[i], tgt) || Assigns(store, other, store[u].members[i], tgt)
      {
        var m := store[u].members[i];
        if m in listed {
          RelatedIsFixpoint(rules, Key(m, m, Assignable));
        }
      }
      assert forall m | m in store[u].members :: exists i :: 0 <= i < |store[u].members| && store[u].members[i] == m;
    }
  }

  lemma AbsorbsEverything(store: Store, other: Rules, m: nat, tgt: nat)
    requires m < |store| && Absorbs(store, tgt)
    ensures Assigns(store, other, m, tgt)
  {
    RelatedIsFixpoint(RulesOf(store, other), Key(m, tgt, Assignable));
  }

  /** Why a listed member is not assignable on its own: its tag is judged before the union target
      is, and what is left to ask of it fails. */
  ghost predicate Stuck(store: Store, other: Rules, m: nat, tgt: nat) {
    m < |store| && m != tgt &&
    match store[m]
    case Mapped => true
    case Keyof => true
    case Instantiation(marker) => !marker || forall i | i in StringIds(store) :: !Assigns(store, other, i, tgt)
    case Conditional(a, b, closed) => !closed || !Assigns(store, other, a, tgt) || !Assigns(store, other, b, tgt)
    case Union(ms) => exists x | x in ms :: !Listed(store, x, tgt) && !Assigns(store, other, x, tgt)
    case _ => false
  }

  /** A listed member is assignable on its own unless it is stuck. */
  lemma ListedMemberAssigns(store: Store, other: Rules, m: nat, tgt: nat)
    requires m < |store| && Listed(store, m, tgt)
    ensures Assigns(store, other, m, tgt) <==> !Stuck(store, other, m, tgt)
  {
    var rules := RulesOf(store, other);
    var k := Key(m, tgt, Assignable);
    RelatedIsFixpoint(rules, k);
    if store[m].Union? {
      UnionSourceLaw(store, other, m, tgt);
    } else if store[m].Conditional? {
      BothBranches(store, other, m, tgt);
    } else if store[m].Instantiation? {
      StringMarker(store, other, m, tgt);
    } else if m != tgt && !Deferred(store[m]) {
      ReachesItself(store, other, m, tgt);
    }
  }

  lemma BothBranches(store: Store, other: Rules, m: nat, tgt: nat)
    requires m < |store| && Listed(store, m, tgt) && store[m].Conditional?
    ensures Assigns(store, other, m, tgt) <==> !Stuck(store, other, m, tgt)
  {
    var rules := RulesOf(store, other);
    var k := Key(m, tgt, Assignable);
    RelatedIsFixpoint(rules, k);
    if store[m].closed {
      var parts := Meaning(rules, k).parts;
      assert parts[0] == Goal(Key(store[m].whenTrue, tgt, Assignable), false);
      assert parts[1] == Goal(Key(store[m].whenFalse, tgt, Assignable), false);
    }
  }

  lemma StringMarker(store: Store, other: Rules, m: nat, tgt: nat)
    requires m < |store| && Listed(store, m, tgt) && store[m].Instantiation?
    ensures Assigns(store, other, m, tgt) <==> !Stuck(store, other, m, tgt)
  {
    hide FindBasic;
    var rules := RulesOf(store, other);
    var k := Key(m, tgt, Assignable);
    RelatedIsFixpoint(rules, k);
    if store[m].stringMarker {
      var ids := StringIds(store);
      var goals := Goals(PairAll(ids, tgt), Assignable, true);
      assert Meaning(rules, k) == Probe(goals);
      var given := Support(rules, {});
      forall i | 0 <= i < |ids| ensures Holds(goals[i], given) <==> Assigns(store, other, ids[i], tgt) {
        assert goals[i] == Goal(Key(ids[i], tgt, Assignable), true);
      }
      assert forall x | x in ids :: exists i :: 0 <= i < |ids| && ids[i] == x;
    }
  }

  lemma ReachesItself(store: Store, other: Rules, m: nat, tgt: nat)
    requires m < |store| && m != tgt && Listed(store, m, tgt) && !store[m].Union? && !Deferred(store[m])
    ensures Assigns(store, other, m, tgt)
  {
    var rules := RulesOf(store, other);
    var k := Key(m, tgt, Assignable);
    RelatedIsFixpoint(rules, k);
    var given := Support(rules, {});
    var i :| 0 <= i < |store[tgt].members| && store[tgt].members[i] == m;
    RelatedIsFixpoint(rules, Key(m, m, Assignable));
    var goals := Goals(PairWith(m, store[tgt].members), Assignable, true);
    assert Holds(goals[i], given);
    assert Holds(Structural(store, k, other), given);
    var r := RuleOf(store, k, other);
    if r.Probe? && store[m].TypeParam? {
      assert r.parts[1] == Structural(store, k, other);
    }
  }

  // ------------------------------------------------------------------ deferred targets

  /** `id` is refused by a deferred target after unfolding at most `n` constraints and branches. */
  ghost predicate BarredWithin(store: Store, id: nat, tgt: nat, n: nat)
    decreases n
  {
    id < |store| && id != tgt && n > 0 &&
    match store[id]
    case Basic(kind) => kind !in {ErrorType, AnyType, NeverType}
    case TypeParam(constraint) => constraint.Some? ==> BarredWithin(store, constraint.value, tgt, n - 1)
    case Conditional(a, b, closed) => !closed || BarredWithin(store, a, tgt, n - 1) || BarredWithin(store, b, tgt, n - 1)
    case Intersection(ms) => tgt !in ms
    case _ => true
  }

  ghost predicate Barred(store: Store, id: nat, tgt: nat) {
    exists n: nat :: BarredWithin(store, id, tgt, n)
  }

  /** A deferred target accepts what reaches it, or an absorbing type, along constraints and
      through both branches of closed conditionals; it accepts nothing else. */
  lemma DeferredTarget(store: Store, other: Rules, id: nat, tgt: nat)
    requires WellFormed(store) && id < |store| && tgt < |store| && Deferred(store[tgt])
    ensures Assigns(store, other, id, tgt) <==> !Barred(store, id, tgt)
  {
    if Barred(store, id, tgt) {
      var n: nat :| BarredWithin(store, id, tgt, n);
      BarredIsUnrelated(store, other, id, tgt, n);
    } else {
      UnbarredIsRelated(store, other, id, tgt);
    }
  }

  lemma {:induction false} BarredIsUnrelated(store: Store, other: Rules, id: nat, tgt: nat, n: nat)
    requires WellFormed(store) && tgt < |store| && Deferred(store[tgt]) && BarredWithin(store, id, tgt, n)
    ensures !Assigns(store, other, id, tgt)
    decreases n
  {
    hide ShapeRule, Justified, FindBasic;
    var rules := RulesOf(store, other);
    var k := Key(id, tgt, Assignable);
    RelatedIsFixpoint(rules, k);
    assert ChildrenInStore(store, store[id]);
    match store[id]
    case TypeParam(constraint) =>
      if constraint.Some? {
        BarredIsUnrelated(store, other, constraint.value, tgt, n - 1);
        assert Meaning(rules, k).parts[0] == Goal(Key(constraint.value, tgt, Assignable), true);
      }
    case Conditional(a, b, closed) =>
      if closed {
        if BarredWithin(store, a, tgt, n - 1) {
          BarredIsUnrelated(store, other, a, tgt, n - 1);
          assert Meaning(rules, k).parts[0] == Goal(Key(a, tgt, Assignable), false);
        } else {
          BarredIsUnrelated(store, other, b, tgt, n - 1);
          assert Meaning(rules, k).parts[1] == Goal(Key(b, tgt, Assignable), false);
        }
      }
    case _ =>
  }

  /** The keys `x -> tgt` with `x` never barred justify one another. */
  lemma UnbarredIsRelated(store: Store, other: Rules, id: nat, tgt: nat)
    requires WellFormed(store) && id < |store| && tgt < |store| && Deferred(store[tgt])
    requires !Barred(store, id, tgt)
    ensures Assigns(store, other, id, tgt)
  {
    var keys := iset x: nat | x < |store| && !Barred(store, x, tgt) :: Key(x, tgt, Assignable);
    forall k | k in keys ensures Holds(Meaning(RulesOf(store, other), k), keys) {
      UnbarredStep(store, other, k.src, tgt, keys);
    }
    RelatedIsGreatest(RulesOf(store, other), keys);
    assert Key(id, tgt, Assignable) in keys;
  }

  lemma UnbarredStep(store: Store, other: Rules, x: nat, tgt: nat, keys: iset<Key>)
    requires WellFormed(store) && x < |store| && tgt < |store| && Deferred(store[tgt])
    requires !Barred(store, x, tgt)
    requires keys == iset y: nat | y < |store| && !Barred(store, y, tgt) :: Key(y, tgt, Assignable)
    ensures Holds(Meaning(RulesOf(store, other), Key(x, tgt, Assignable)), keys)
  {
    hide Justified, ShapeRule, FindBasic;
    var k := Key(x, tgt, Assignable);
    assert ChildrenInStore(store, store[x]);
    assert !BarredWithin(store, x, tgt, 1);
    match store[x]
    case TypeParam(constraint) =>
      if x != tgt {
        Unbar(store, x, constraint.value, tgt);
        assert OptionSeq(constraint)[0] < |store|;
        assert Meaning(RulesOf(store, other), k).parts[0] == Goal(Key(constraint.value, tgt, Assignable), true);
      }
    case Conditional(a, b, closed) =>
      if x != tgt {
        Unbar(store, x, a, tgt);
        Unbar(store, x, b, tgt);
      }
    case _ =>
  }

  /** What an unbarred type unfolds to is not barred either. */
  lemma Unbar(store: Store, x: nat, y: nat, tgt: nat)
    requires x < |store| && x != tgt && !Barred(store, x, tgt)
    requires store[x] == TypeParam(Some(y)) || (store[x].Conditional? && y in [store[x].whenTrue, store[x].whenFalse])
    ensures !Barred(store, y, tgt)
  {
    forall n: nat ensures !BarredWithin(store, y, tgt, n) {
      assert !BarredWithin(store, x, tgt, n + 1);
    }
  }

  // ------------------------------------------------------------------ "every member is"

  /** When "a union source is assignable exactly when every member is" holds, for every target.
      It fails where a deferred target refuses the union though every member reaches it, and where
      the members outside the target pass but one of those it lists is stuck. */
  lemma WhenEachMemberDecides(store: Store, other: Rules, u: nat, tgt: nat)
    requires WellFormed(store) && u < |store| && store[u].Union? && tgt < |store|
    ensures (Assigns(store, other, u, tgt) <==> EachAssigns(store, other, u, tgt)) <==>
            if Absorbs(store, tgt) then true
            else if Deferred(store[tgt]) then exists m | m in store[u].members :: Barred(store, m, tgt)
            else
              || (forall m | m in store[u].members && Listed(store, m, tgt) :: !Stuck(store, other, m, tgt))
              || (exists m | m in store[u].members :: !Listed(store, m, tgt) && !Assigns(store, other, m, tgt))
  {
    hide Stuck, Barred, Assigns;
    UnionSourceLaw(store, other, u, tgt);
    assert ChildrenInStore(store, store[u]);
    forall m | m in store[u].members
      ensures Absorbs(store, tgt) ==> Assigns(store, other, m, tgt)
      ensures Deferred(store[tgt]) ==> (Assigns(store, other, m, tgt) <==> !Barred(store, m, tgt))
      ensures Listed(store, m, tgt) ==> (Assigns(store, other, m, tgt) <==> !Stuck(store, other, m, tgt))
    {
      if Absorbs(store, tgt) {
        AbsorbsEverything(store, other, m, tgt);
      }
      if Deferred(store[tgt]) {
        DeferredTarget(store, other, m, tgt);
      }
      if Listed(store, m, tgt) {
        ListedMemberAssigns(store, other, m, tgt);
      }
    }
  }

  /** With no deferred and no nested union member, only a deferred target that bars none of them
      breaks the rule. */
  lemma UnionSourceIsEveryMember(store: Store, other: Rules, u: nat, tgt: nat)
    requires WellFormed(store) && u < |store| && store[u].Union? && tgt < |store|
    requires forall m | m in store[u].members :: !store[m].Union? && !Deferred(store[m])
    ensures (Assigns(store, other, u, tgt) <==> EachAssigns(store, other, u, tgt)) <==>
            (Deferred(store[tgt]) ==> exists m | m in store[u].members :: Barred(store, m, tgt))
  {
    hide Assigns;
    WhenEachMemberDecides(store, other, u, tgt);
    forall m | m in store[u].members && Listed(store, m, tgt) ensures !Stuck(store, other, m, tgt) {
    }
  }

  /** A deferred member passes inside a union and fails alone. */
  lemma DeferredMemberPassesOnlyInUnion(other: Rules)
    ensures var store := [Mapped, Basic(NumberType), Basic(StringType), Union([0, 1]), Union([0, 1, 2])];
            Assigns(store, other, 3, 4) && !Assigns(store, other, 0, 4)
  {
    var store := [Mapped, Basic(NumberType), Basic(StringType), Union([0, 1]), Union([0, 1, 2])];
    hide Assigns;
    UnionSourceLaw(store, other, 3, 4);
    ListedMemberAssigns(store, other, 0, 4);
  }

  /** Two parameters bounded by the same `keyof` reach it one by one, and their union does not. */
  lemma BoundedMembersPassOnlyApart(other: Rules)
    ensures var store := [Keyof, TypeParam(Some(0)), TypeParam(Some(0)), Union([1, 2])];
            Assigns(store, other, 1, 0) && Assigns(store, other, 2, 0) && !Assigns(store, other, 3, 0)
  {
    var store := [Keyof, TypeParam(Some(0)), TypeParam(Some(0)), Union([1, 2])];
    UnionSourceLaw(store, other, 3, 0);
    forall i: nat | i == 1 || i == 2 ensures Assigns(store, other, i, 0) {
      assert forall n: nat :: !BarredWithin(store, 0, 0, n);
      assert forall n: nat | n > 0 :: BarredWithin(store, i, 0, n) ==> BarredWithin(store, 0, 0, n - 1);
      DeferredTarget(store, other, i, 0);
    }
  }

  // ------------------------------------------------------------------ the top type

  /** `t` is refused by `unknown` after unfolding at most `n` levels of unions, intersections and
      conditional branches. */
  ghost predicate RefusedWithin(store: Store, id: nat, n: nat)
    decreases n
  {
    id < |store| && n > 0 &&
    match store[id]
    case Mapped => true
    case Keyof => true
    case Instantiation(marker) => !marker
    case Conditional(a, b, closed) => !closed || RefusedWithin(store, a, n - 1) || RefusedWithin(store, b, n - 1)
    case Union(ms) => exists i | 0 <= i < |ms| :: RefusedWithin(store, ms[i], n - 1)
    case Intersection(ms) => forall i | 0 <= i < |ms| :: RefusedWithin(store, ms[i], n - 1)
    case _ => false
  }

  ghost predicate Refused(store: Store, id: nat) {
    exists n: nat :: RefusedWithin(store, id, n)
  }

  lemma {:induction false} RefusedMonotone(store: Store, id: nat, n: nat, m: nat)
    requires n <= m && RefusedWithin(store, id, n)
    ensures RefusedWithin(store, id, m)
    decreases n
  {
    match store[id]
    case Conditional(a, b, closed) =>
      if RefusedWithin(store, a, n - 1) {
        RefusedMonotone(store, a, n - 1, m - 1);
      } else if RefusedWithin(store, b, n - 1) {
        RefusedMonotone(store, b, n - 1, m - 1);
      }
    case Union(ms) =>
      var i :| 0 <= i < |ms| && RefusedWithin(store, ms[i], n - 1);
      RefusedMonotone(store, ms[i], n - 1, m - 1);
    case Intersection(ms) =>
      forall i | 0 <= i < |ms| ensures RefusedWithin(store, ms[i], m - 1) {
        RefusedMonotone(store, ms[i], n - 1, m - 1);
      }
    case _ =>
  }

  /** Finitely many refused members are refused within a common bound. */
  lemma {:induction false} CommonBound(store: Store, ids: seq<nat>) returns (n: nat)
    requires forall i | 0 <= i < |ids| :: Refused(store, ids[i])
    ensures forall i | 0 <= i < |ids| :: RefusedWithin(store, ids[i], n)
  {
    n := 0;
    for j := 0 to |ids|
      invariant forall i | 0 <= i < j :: RefusedWithin(store, ids[i], n)
    {
      var m: nat :| RefusedWithin(store, ids[j], m);
      var wider := if m < n then n else m;
      forall i | 0 <= i <= j ensures RefusedWithin(store, ids[i], wider) {
        RefusedMonotone(store, ids[i], if i < j then n else m, wider);
      }
      n := wider;
    }
  }

  /** `unknown` accepts everything except what the deferred-type rules refuse before it is
      consulted. */
  lemma UnknownTop(store: Store, other: Rules, id: nat, top: nat)
    requires WellFormed(store) && id < |store| && Is(store, top, UnknownType) && StringIds(store) != []
    ensures Assigns(store, other, id, top) <==> !Refused(store, id)
  {
    if Refused(store, id) {
      var n: nat :| RefusedWithin(store, id, n);
      RefusedIsUnrelated(store, other, id, top, n);
    } else {
      UnrefusedIsRelated(store, other, id, top);
    }
  }

  /** A deferred mapped type is refused. */
  lemma UnknownIsNotTop(other: Rules)
    ensures var store := [Mapped, Basic(UnknownType), Basic(StringType)];
            WellFormed(store) && StringIds(store) == [2] && !Assigns(store, other, 0, 1)
  {
    var store := [Mapped, Basic(UnknownType), Basic(StringType)];
    assert FindBasic(store, StringType, 2) == [2];
    assert FindBasic(store, StringType, 1) == [2];
    assert FindBasic(store, StringType, 0) == [2];
    assert RefusedWithin(store, 0, 1);
    UnknownTop(store, other, 0, 1);
  }

  lemma {:induction false} RefusedIsUnrelated(store: Store, other: Rules, id: nat, top: nat, n: nat)
    requires WellFormed(store) && Is(store, top, UnknownType) && RefusedWithin(store, id, n)
    ensures !Assigns(store, other, id, top)
    decreases n
  {
    hide ShapeRule, Justified, FindBasic;
    var rules := RulesOf(store, other);
    var k := Key(id, top, Assignable);
    RelatedIsFixpoint(rules, k);
    assert ChildrenInStore(store, store[id]);
    match store[id]
    case Conditional(a, b, closed) =>
      if closed {
        if RefusedWithin(store, a, n - 1) {
          RefusedIsUnrelated(store, other, a, top, n - 1);
          assert Meaning(rules, k).parts[0] == Goal(Key(a, top, Assignable), false);
        } else {
          RefusedIsUnrelated(store, other, b, top, n - 1);
          assert Meaning(rules, k).parts[1] == Goal(Key(b, top, Assignable), false);
        }
      }
    case Union(ms) =>
      var i :| 0 <= i < |ms| && RefusedWithin(store, ms[i], n - 1);
      RefusedIsUnrelated(store, other, ms[i], top, n - 1);
      assert Meaning(rules, k).parts[i] == Goal(Key(ms[i], top, Assignable), false);
    case Intersection(ms) =>
      forall i | 0 <= i < |ms| ensures !Assigns(store, other, ms[i], top) {
        RefusedIsUnrelated(store, other, ms[i], top, n - 1);
      }
    case _ =>
  }

  /** The keys `x -> unknown` with `x` never refused justify one another. */
  lemma UnrefusedIsRelated(store: Store, other: Rules, id: nat, top: nat)
    requires WellFormed(store) && id < |store| && Is(store, top, UnknownType) && StringIds(store) != []
    requires !Refused(store, id)
    ensures Assigns(store, other, id, top)
  {
    var rules := RulesOf(store, other);
    var keys := iset x: nat | x < |store| && !Refused(store, x) :: Key(x, top, Assignable);
    forall k | k in keys ensures Holds(Meaning(rules, k), keys) {
      UnrefusedStep(store, other, k.src, top, keys);
    }
    RelatedIsGreatest(rules, keys);
    assert Key(id, top, Assignable) in keys;
  }

  lemma UnrefusedStep(store: Store, other: Rules, x: nat, top: nat, keys: iset<Key>)
    requires WellFormed(store) && x < |store| && Is(store, top, UnknownType) && StringIds(store) != []
    requires !Refused(store, x)
    requires keys == iset y: nat | y < |store| && !Refused(store, y) :: Key(y, top, Assignable)
    ensures Holds(Meaning(RulesOf(store, other), Key(x, top, Assignable)), keys)
  {
    hide Justified, ObjectRule, TupleRule, FindBasic;
    var k := Key(x, top, Assignable);
    assert ChildrenInStore(store, store[x]);
    assert !RefusedWithin(store, x, 1);
    match store[x]
    case Conditional(a, b, closed) =>
      Unrefuse(store, x, a, b);
    case Union(ms) =>
      forall i | 0 <= i < |ms| ensures Key(ms[i], top, Assignable) in keys {
        forall n: nat ensures !RefusedWithin(store, ms[i], n) {
          assert !RefusedWithin(store, x, n + 1);
        }
      }
    case Intersection(ms) =>
      SomeUnrefused(store, x, ms);
      var i :| 0 <= i < |ms| && !Refused(store, ms[i]);
      var goals := Goals(PairAll(ms, top), Assignable, false);
      assert Holds(goals[i], keys);
    case Instantiation(marker) =>
      var ids := StringIds(store);
      assert Is(store, ids[0], StringType);
      assert !Refused(store, ids[0]);
      var goals := Goals(PairAll(ids, top), Assignable, true);
      assert Holds(goals[0], keys);
    case Mapped =>
    case Keyof =>
    case TypeParam(constraint) =>
      var r := RuleOf(store, k, other);
      assert Holds(Structural(store, k, other), keys);
      if constraint.Some? && x != top {
        assert r.parts[1] == Structural(store, k, other);
      }
    case _ =>
  }

  lemma SomeUnrefused(store: Store, x: nat, ms: seq<nat>)
    requires x < |store| && store[x] == Intersection(ms) && !Refused(store, x)
    ensures exists i :: 0 <= i < |ms| && !Refused(store, ms[i])
  {
    if forall i | 0 <= i < |ms| :: Refused(store, ms[i]) {
      var n := CommonBound(store, ms);
      assert RefusedWithin(store, x, n + 1);
    }
  }

  lemma Unrefuse(store: Store, x: nat, a: nat, b: nat)
    requires x < |store| && !Refused(store, x) && store[x] == Conditional(a, b, true)
    ensures !Refused(store, a) && !Refused(store, b)
  {
    forall n: nat ensures !RefusedWithin(store, a, n) && !RefusedWithin(store, b, n) {
      assert !RefusedWithin(store, x, n + 1);
    }
  }
}
