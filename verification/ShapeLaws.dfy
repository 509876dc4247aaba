/** What assignability comes to for each pair of shapes, stated on the assignability of their parts. */
module ShapeLaws {
  import opened Wrappers
  import opened RelationRules
  import opened AssignabilityRules
  import opened AssignabilityLaws

  // ------------------------------------------------------------------ pairs that are single shapes

  /** A source that no rule takes apart before its shape is looked at. */
  predicate SourceShape(s: Type) {
    && !s.Union? && !s.Intersection? && !Deferred(s)
    && s !in {Basic(ErrorType), Basic(AnyType), Basic(NeverType)} && (s.TypeParam? ==> s.constraint.None?)
  }

  predicate TargetShape(t: Type) {
    !t.Union? && !t.Intersection? && !Deferred(t) && t !in {Basic(ErrorType), Basic(AnyType)} && !(t.Object? && t.libraryTop)
  }

  ghost predicate Shapes(store: Store, s: nat, t: nat) {
    s < |store| && t < |store| && s != t && SourceShape(store[s]) && TargetShape(store[t])
  }

  /** The verdict of the rules that are a parameter. */
  ghost predicate Elsewhere(store: Store, other: Rules, s: nat, t: nat) {
    Holds(other(Key(s, t, Assignable)), Support(RulesOf(store, other), {}))
  }

  lemma ByShape(store: Store, other: Rules, s: nat, t: nat)
    requires Shapes(store, s, t)
    ensures Assigns(store, other, s, t) <==>
            Holds(ShapeRule(store, Key(s, t, Assignable), other), Support(RulesOf(store, other), {}))
  {
    hide ShapeRule, Justified, FindBasic;
    RelatedIsFixpoint(RulesOf(store, other), Key(s, t, Assignable));
  }

  /** An intrinsic takes everything, its literals, the heap or nothing. */
  lemma IntrinsicTarget(store: Store, other: Rules, s: nat, t: nat)
    requires Shapes(store, s, t) && store[t].Basic?
    ensures var source, kind := store[s], store[t].kind;
            Assigns(store, other, s, t) <==>
            || kind == UnknownType
            || (kind == VoidType && source == Basic(UndefinedType))
            || (source.Literal? && source.base == kind)
            || (kind == ObjectType && (source.Object? || source.Function? || source.Array? || source.Tuple? || source.Readonly? || source.ClassInstance?))
            || (source.Template? && Elsewhere(store, other, s, t))
  {
    hide Justified, ObjectRule, TupleRule;
    ByShape(store, other, s, t);
  }

  /** A template pattern on either side is decided by the template rules. */
  lemma TemplatePair(store: Store, other: Rules, s: nat, t: nat)
    requires Shapes(store, s, t) && (store[t].Template? || (store[s].Template? && !store[t].Basic? && !store[t].Object?))
    ensures Assigns(store, other, s, t) <==> Elsewhere(store, other, s, t)
  {
    hide Justified, ObjectRule, TupleRule;
    ByShape(store, other, s, t);
  }

  /** A readonly target asks for its operand, of a readonly source for the operand of that. */
  lemma ReadonlyTarget(store: Store, other: Rules, s: nat, t: nat)
    requires Shapes(store, s, t) && store[t].Readonly? && !store[s].Template?
    ensures Assigns(store, other, s, t) <==>
            Assigns(store, other, if store[s].Readonly? then store[s].operand else s, store[t].operand)
  {
    hide Justified, ObjectRule, TupleRule;
    ByShape(store, other, s, t);
  }

  /** The empty object type takes whatever is not nullish; a named one asks for the library surface of a
      source that is no object; otherwise only callables and templates are asked. */
  lemma ObjectTarget(store: Store, other: Rules, s: nat, t: nat)
    requires Shapes(store, s, t) && store[t].Object? && !store[s].Object?
    ensures var source, target := store[s], store[t];
            var bare := target.calls == [] && !target.constructs && target.stringIndex.None?;
            Assigns(store, other, s, t) <==>
            if bare && target.properties == [] && target.numberIndex.None? && !source.TypeParam?
               && source !in {Basic(UnknownType), Basic(VoidType), Basic(NullType), Basic(UndefinedType)} then true
            else if (bare && target.properties != []) || source.Template? || source.Function? then Elsewhere(store, other, s, t)
            else false
  {
    hide Justified, ObjectRule, TupleRule, NonNullish;
    ByShape(store, other, s, t);
    NotNullish(store[s]);
  }

  lemma NotNullish(source: Type)
    requires SourceShape(source)
    ensures NonNullish(source) <==>
            !source.TypeParam? && source !in {Basic(UnknownType), Basic(VoidType), Basic(NullType), Basic(UndefinedType)}
  {
    match source
    case Basic(kind) =>
      match kind {
        case ErrorType => case AnyType => case UnknownType => case NeverType => case VoidType => case NullType =>
        case UndefinedType => case BooleanType => case NumberType => case StringType => case ObjectType =>
        case BigIntType => case SymbolType =>
      }
    case _ =>
  }

  /** Callable objects are functions through some signature; functions are compared elsewhere. */
  lemma FunctionTarget(store: Store, other: Rules, s: nat, t: nat)
    requires Shapes(store, s, t) && store[t].Function? && !store[s].Template?
    ensures Assigns(store, other, s, t) <==>
            if store[s].Function? then Elsewhere(store, other, s, t)
            else store[s].Object? && exists call :: call in store[s].calls && Assigns(store, other, call, t)
  {
    hide Justified, ObjectRule, TupleRule, Goals, PairAll, Assigns, Support;
    ByShape(store, other, s, t);
    if store[s].Object? {
      SomeCall(store, other, store[s].calls, t);
    }
  }

  lemma SomeCall(store: Store, other: Rules, calls: seq<nat>, t: nat)
    ensures Holds(Probe(Goals(PairAll(calls, t), Assignable, true)), Support(RulesOf(store, other), {})) <==>
            exists call :: call in calls && Assigns(store, other, call, t)
  {
    hide Goals, PairAll, Assigns, Support;
    SomeGoal(store, other, PairAll(calls, t), true);
    AmongPairs(calls, t);
    if call :| call in calls && Assigns(store, other, call, t) {
      assert (call, t) in PairAll(calls, t);
    }
  }

  lemma AmongPairs(sources: seq<nat>, t: nat)
    ensures forall x, y :: (x, y) in PairAll(sources, t) <==> x in sources && y == t
  {
    forall x | x in sources ensures (x, t) in PairAll(sources, t) {
      var i :| 0 <= i < |sources| && sources[i] == x;
      assert PairAll(sources, t)[i] == (x, t);
    }
  }

  /** Some goal of a probe holds exactly when some pair assigns, and all of them when every pair does. */
  lemma SomeGoal(store: Store, other: Rules, pairs: seq<(nat, nat)>, probing: bool)
    ensures Holds(Probe(Goals(pairs, Assignable, probing)), Support(RulesOf(store, other), {})) <==>
            exists x, y :: (x, y) in pairs && Assigns(store, other, x, y)
    ensures Holds(Any(Goals(pairs, Assignable, probing)), Support(RulesOf(store, other), {})) <==>
            exists x, y :: (x, y) in pairs && Assigns(store, other, x, y)
    ensures Holds(All(Goals(pairs, Assignable, probing)), Support(RulesOf(store, other), {})) <==>
            forall x, y | (x, y) in pairs :: Assigns(store, other, x, y)
  {
    hide Justified, Assigns, Support;
    var goals, given := Goals(pairs, Assignable, probing), Support(RulesOf(store, other), {});
    forall i | 0 <= i < |pairs| ensures Holds(goals[i], given) <==> Assigns(store, other, pairs[i].0, pairs[i].1) {
      EachGoal(store, other, pairs, probing, i);
    }
    forall x, y | (x, y) in pairs ensures exists i :: 0 <= i < |pairs| && pairs[i] == (x, y) {
    }
    assert forall i | 0 <= i < |pairs| :: (pairs[i].0, pairs[i].1) in pairs;
  }

  lemma EachGoal(store: Store, other: Rules, pairs: seq<(nat, nat)>, probing: bool, i: nat)
    requires i < |pairs|
    ensures Holds(Goals(pairs, Assignable, probing)[i], Support(RulesOf(store, other), {})) <==>
            Assigns(store, other, pairs[i].0, pairs[i].1)
  {
    hide Justified;
    assert Goals(pairs, Assignable, probing)[i] == Goal(Key(pairs[i].0, pairs[i].1, Assignable), probing);
  }

  /** Arrays are compared by element; a tuple fits an array when each of its elements and its rest do. */
  lemma ArrayTarget(store: Store, other: Rules, s: nat, t: nat)
    requires Shapes(store, s, t) && store[t].Array? && !store[s].Template?
    ensures var element := store[t].element;
            Assigns(store, other, s, t) <==>
            match store[s]
            case Array(e) => Assigns(store, other, e, element)
            case Tuple(prefix, variadic, suffix) =>
              && (forall e | e in prefix :: Assigns(store, other, e, element))
              && (forall e | e in suffix :: Assigns(store, other, e, element))
              && (variadic.Some? ==> Assigns(store, other, variadic.value, element))
            case _ => false
  {
    hide Justified, ObjectRule, TupleRule, Goals, PairAll, Assigns;
    ByShape(store, other, s, t);
    if store[s].Tuple? {
      EveryElement(store, other, store[s], store[t].element);
    } else if store[s].Array? {
      OneGoal(store, other, store[s].element, store[t].element);
    }
  }

  lemma OneGoal(store: Store, other: Rules, s: nat, t: nat)
    ensures Holds(Goal(Key(s, t, Assignable), false), Support(RulesOf(store, other), {})) <==> Assigns(store, other, s, t)
  {
    hide Justified;
  }

  lemma EveryElement(store: Store, other: Rules, source: Type, element: nat)
    requires source.Tuple?
    ensures Holds(All(Goals(PairAll(TupleElements(source) + OptionSeq(source.variadic), element), Assignable, false)),
                  Support(RulesOf(store, other), {})) <==>
            && (forall e | e in source.prefix :: Assigns(store, other, e, element))
            && (forall e | e in source.suffix :: Assigns(store, other, e, element))
            && (source.variadic.Some? ==> Assigns(store, other, source.variadic.value, element))
  {
    hide Justified, Goals, PairAll, Assigns, Support;
    var all := TupleElements(source) + OptionSeq(source.variadic);
    SomeGoal(store, other, PairAll(all, element), false);
    AmongPairs(all, element);
    assert forall e :: e in all <==> e in source.prefix || e in source.suffix || source.variadic == Some(e);
    assert forall e | e in all :: (e, element) in PairAll(all, element);
  }

  /** Nothing else reaches a literal, a bare parameter, an instance or a tuple. */
  lemma NothingElse(store: Store, other: Rules, s: nat, t: nat)
    requires Shapes(store, s, t) && !store[s].Template?
    requires store[t].Literal? || store[t].TypeParam? || store[t].ClassInstance? || (store[t].Tuple? && !store[s].Tuple?)
    ensures !Assigns(store, other, s, t)
  {
    hide Justified, ObjectRule, TupleRule;
    ByShape(store, other, s, t);
  }

  // ------------------------------------------------------------------ tuples

  /** What a tuple type asks at position `i` of `n`, for a length it admits. */
  ghost function Slot(t: Type, i: nat, n: nat): nat
    requires t.Tuple? && i < n && |t.prefix| + |t.suffix| <= n && (t.variadic.Some? || n == |t.prefix| + |t.suffix|)
  {
    if i < |t.prefix| then t.prefix[i]
    else if n - i <= |t.suffix| then t.suffix[|t.suffix| - (n - i)]
    else t.variadic.value
  }

  ghost predicate AdmitsLength(t: Type, n: nat)
    requires t.Tuple?
  {
    |t.prefix| + |t.suffix| <= n && (t.variadic.Some? || n == |t.prefix| + |t.suffix|)
  }

  lemma SlotIsElement(t: Type, i: nat, n: nat)
    requires t.Tuple? && i < n && AdmitsLength(t, n)
    ensures TupleElementAt(t, i, n) == Slot(t, i, n)
  {
    if i >= |t.prefix| && n - i <= |t.suffix| {
      assert i - (n - |t.suffix|) == |t.suffix| - (n - i);
    }
  }

  /** A tuple of fixed length is compared position by position with a target that admits its length. */
  lemma FixedTuple(store: Store, other: Rules, s: nat, t: nat)
    requires Shapes(store, s, t) && store[s].Tuple? && store[s].variadic.None? && store[t].Tuple?
    ensures var elements := store[s].prefix + store[s].suffix;
            Assigns(store, other, s, t) <==>
            && AdmitsLength(store[t], |elements|)
            && forall i | 0 <= i < |elements| :: Assigns(store, other, elements[i], Slot(store[t], i, |elements|))
  {
    hide Justified, ObjectRule, Goals, Assigns, Support;
    ByShape(store, other, s, t);
    var elements := store[s].prefix + store[s].suffix;
    if AdmitsLength(store[t], |elements|) {
      var n := |elements|;
      var pairs := seq(n, i requires 0 <= i < n => (TupleElements(store[s])[i], TupleElementAt(store[t], i, n)));
      AllGoals(store, other, pairs, false);
      forall i | 0 <= i < n ensures pairs[i] == (elements[i], Slot(store[t], i, n)) {
        SlotIsElement(store[t], i, n);
      }
    }
  }

  /** A tuple with a rest fits only a tuple with a rest in the same place, part by part. */
  lemma VariadicTuple(store: Store, other: Rules, s: nat, t: nat)
    requires Shapes(store, s, t) && store[s].Tuple? && store[s].variadic.Some? && store[t].Tuple?
    ensures var source, target := store[s], store[t];
            Assigns(store, other, s, t) <==>
            && target.variadic.Some? && |source.prefix| == |target.prefix| && |source.suffix| == |target.suffix|
            && (forall i | 0 <= i < |source.prefix| :: Assigns(store, other, source.prefix[i], target.prefix[i]))
            && (forall i | 0 <= i < |source.suffix| :: Assigns(store, other, source.suffix[i], target.suffix[i]))
            && Assigns(store, other, source.variadic.value, target.variadic.value)
  {
    hide Justified, ObjectRule, Goals, Assigns, Support;
    ByShape(store, other, s, t);
    var source, target := store[s], store[t];
    if target.variadic.Some? && |source.prefix| == |target.prefix| && |source.suffix| == |target.suffix| {
      var p, q := Zip(source.prefix, target.prefix), Zip(source.suffix, target.suffix);
      PartByPart(store, other, p, q, (source.variadic.value, target.variadic.value));
      assert forall i | 0 <= i < |p| :: p[i] == (source.prefix[i], target.prefix[i]);
      assert forall i | 0 <= i < |q| :: q[i] == (source.suffix[i], target.suffix[i]);
    }
  }

  lemma PartByPart(store: Store, other: Rules, p: seq<(nat, nat)>, q: seq<(nat, nat)>, last: (nat, nat))
    ensures Holds(All(Goals(p + q + [last], Assignable, false)), Support(RulesOf(store, other), {})) <==>
            && (forall i | 0 <= i < |p| :: Assigns(store, other, p[i].0, p[i].1))
            && (forall i | 0 <= i < |q| :: Assigns(store, other, q[i].0, q[i].1))
            && Assigns(store, other, last.0, last.1)
  {
    hide Assigns, Goals, Support, Holds;
    var pairs := p + q + [last];
    AllGoals(store, other, pairs, false);
    assert forall i | 0 <= i < |p| :: pairs[i] == p[i];
    assert forall i | 0 <= i < |q| :: pairs[|p| + i] == q[i];
    assert pairs[|p| + |q|] == last;
    if forall i | 0 <= i < |pairs| :: Assigns(store, other, pairs[i].0, pairs[i].1) {
      forall i | 0 <= i < |q| ensures Assigns(store, other, q[i].0, q[i].1) {
        assert pairs[|p| + i] == q[i];
      }
    } else {
      var i :| 0 <= i < |pairs| && !Assigns(store, other, pairs[i].0, pairs[i].1);
      assert i >= |p| && i < |p| + |q| ==> pairs[i] == q[i - |p|];
    }
  }

  lemma AllGoals(store: Store, other: Rules, pairs: seq<(nat, nat)>, probing: bool)
    ensures Holds(All(Goals(pairs, Assignable, probing)), Support(RulesOf(store, other), {})) <==>
            forall i | 0 <= i < |pairs| :: Assigns(store, other, pairs[i].0, pairs[i].1)
  {
    hide Justified, Assigns, Support;
    var goals, given := Goals(pairs, Assignable, probing), Support(RulesOf(store, other), {});
    forall i | 0 <= i < |pairs| ensures Holds(goals[i], given) <==> Assigns(store, other, pairs[i].0, pairs[i].1) {
      EachGoal(store, other, pairs, probing, i);
    }
  }

  // ------------------------------------------------------------------ objects

  /** The first property with that key. */
  ghost predicate FirstKeyed(props: seq<Property>, i: nat, key: nat) {
    i < |props| && props[i].key == key && forall j | 0 <= j < i :: props[j].key != key
  }

  /** A source meets one target property with its first property of that key: a public target wants a
      public source, any other one the same declaration; an optional source does not meet a required
      target; the types have to fit.  Without such a property the target has to be optional. */
  ghost predicate Meets(store: Store, other: Rules, props: seq<Property>, p: Property) {
    if exists i: nat :: FirstKeyed(props, i, p.key) then
      exists i: nat :: FirstKeyed(props, i, p.key)
                  && props[i].visibility == p.visibility && (p.visibility != Public ==> props[i].owner == p.owner)
                  && (props[i].optional ==> p.optional) && Assigns(store, other, props[i].ty, p.ty)
    else p.optional
  }

  /** What an index signature governs, and the index of the source itself, fit it. */
  ghost predicate Indexed(store: Store, other: Rules, props: seq<Property>, own: Option<nat>, wanted: nat, governed: set<Spelling>) {
    && (forall i | 0 <= i < |props| && props[i].spelling in governed :: Assigns(store, other, props[i].ty, wanted))
    && (own.Some? ==> Assigns(store, other, own.value, wanted))
  }

  /** Objects are compared property by property, then by call, construct and index signatures. */
  lemma ObjectPair(store: Store, other: Rules, s: nat, t: nat)
    requires Shapes(store, s, t) && store[s].Object? && store[t].Object?
    ensures var source, target := store[s], store[t];
            Assigns(store, other, s, t) <==>
            && (forall j | 0 <= j < |target.properties| :: Meets(store, other, source.properties, target.properties[j]))
            && (forall call | call in target.calls :: exists mine :: mine in source.calls && Assigns(store, other, mine, call))
            && (target.constructs ==> Elsewhere(store, other, s, t))
            && (target.stringIndex.Some? ==>
                  Indexed(store, other, source.properties, source.stringIndex, target.stringIndex.value, {Word, Numeral}))
            && (target.numberIndex.Some? ==>
                  Indexed(store, other, source.properties, source.numberIndex, target.numberIndex.value, {Numeral}))
  {
    hide Justified, PropertyRules, SignatureRules, IndexPairs, TupleRule, Assigns, Meets, Indexed;
    ByShape(store, other, s, t);
    var source, target := store[s], store[t];
    PropertiesMeet(store, other, source.properties, target.properties);
    CallsMeet(store, other, source.calls, target.calls);
    IndexesMeet(store, other, source, target);
    ObjectParts(store, other, s, t);
  }

  lemma ObjectParts(store: Store, other: Rules, s: nat, t: nat)
    requires Shapes(store, s, t) && store[s].Object? && store[t].Object?
    ensures var source, target, given := store[s], store[t], Support(RulesOf(store, other), {});
            Holds(ShapeRule(store, Key(s, t, Assignable), other), given) <==>
            && Holds(All(PropertyRules(source.properties, target.properties, Assignable)), given)
            && (target.calls == [] || (source.calls != [] && Holds(All(SignatureRules(source.calls, target.calls, Assignable)), given)))
            && (target.constructs ==> Elsewhere(store, other, s, t))
            && Holds(All(Goals(IndexPairs(source, target), Assignable, false)), given)
  {
    hide Justified, TupleRule, Support;
    var source, target, given := store[s], store[t], Support(RulesOf(store, other), {});
    if EmptyObject(target) {
      assert PropertyRules(source.properties, target.properties, Assignable) == [];
      assert IndexPairs(source, target) == [];
    } else {
      var r := ObjectRule(source, target, Key(s, t, Assignable), other);
      assert ShapeRule(store, Key(s, t, Assignable), other) == r;
      assert r.parts[0] == All(PropertyRules(source.properties, target.properties, Assignable));
      assert Holds(r, given) <==> Holds(r.parts[0], given) && Holds(r.parts[1], given) && Holds(r.parts[2], given) && Holds(r.parts[3], given);
    }
  }

  lemma PropertiesMeet(store: Store, other: Rules, props: seq<Property>, wanted: seq<Property>)
    ensures Holds(All(PropertyRules(props, wanted, Assignable)), Support(RulesOf(store, other), {})) <==>
            forall j | 0 <= j < |wanted| :: Meets(store, other, props, wanted[j])
  {
    hide Justified, Meets, PropertyRule, Support;
    var rules, given := PropertyRules(props, wanted, Assignable), Support(RulesOf(store, other), {});
    forall j | 0 <= j < |wanted| ensures Holds(rules[j], given) <==> Meets(store, other, props, wanted[j]) {
      PropertyMeets(store, other, props, wanted[j]);
    }
  }

  lemma PropertyMeets(store: Store, other: Rules, props: seq<Property>, p: Property)
    ensures Holds(PropertyRule(p, PropertyAt(props, p.key), Assignable), Support(RulesOf(store, other), {})) <==>
            Meets(store, other, props, p)
  {
    hide Justified, PropertyAt;
    if PropertyAt(props, p.key).Some? {
      var i := FirstProperty(props, p.key);
      assert forall j: nat | FirstKeyed(props, j, p.key) :: j == i;
    } else {
      assert forall i: nat :: !FirstKeyed(props, i, p.key);
    }
  }

  lemma FirstProperty(props: seq<Property>, key: nat) returns (i: nat)
    requires PropertyAt(props, key).Some?
    ensures FirstKeyed(props, i, key) && PropertyAt(props, key) == Some(props[i])
  {
    hide PropertyAt;
    i := 0;
    while props[i].key != key
      invariant i < |props| && forall j | 0 <= j < i :: props[j].key != key
      decreases |props| - i
    {
      assert exists j :: 0 <= j < |props| && props[j].key == key;
      i := i + 1;
    }
    FirstWithKey(props, i);
  }

  lemma CallsMeet(store: Store, other: Rules, mine: seq<nat>, wanted: seq<nat>)
    ensures wanted == [] || (mine != [] && Holds(All(SignatureRules(mine, wanted, Assignable)), Support(RulesOf(store, other), {}))) <==>
            forall call | call in wanted :: exists x :: x in mine && Assigns(store, other, x, call)
  {
    hide Justified, Support, Assigns;
    var rules, given := SignatureRules(mine, wanted, Assignable), Support(RulesOf(store, other), {});
    forall i | 0 <= i < |wanted|
      ensures Holds(rules[i], given) <==> exists x :: x in mine && Assigns(store, other, x, wanted[i])
    {
      SomeGoal(store, other, PairAll(mine, wanted[i]), true);
      AmongPairs(mine, wanted[i]);
    }
    forall call | call in wanted ensures exists i :: 0 <= i < |wanted| && wanted[i] == call {
    }
    assert forall i | 0 <= i < |wanted| :: wanted[i] in wanted;
    if wanted != [] && mine == [] {
      assert wanted[0] in wanted && forall x :: x !in mine;
    }
  }

  lemma IndexesMeet(store: Store, other: Rules, source: Type, target: Type)
    requires source.Object? && target.Object?
    ensures Holds(All(Goals(IndexPairs(source, target), Assignable, false)), Support(RulesOf(store, other), {})) <==>
            && (target.stringIndex.Some? ==>
                  Indexed(store, other, source.properties, source.stringIndex, target.stringIndex.value, {Word, Numeral}))
            && (target.numberIndex.Some? ==>
                  Indexed(store, other, source.properties, source.numberIndex, target.numberIndex.value, {Numeral}))
  {
    hide Justified, Support, Assigns, Indexed, PropertyTypes;
    SomeGoal(store, other, IndexPairs(source, target), false);
    if target.stringIndex.Some? {
      IndexMeets(store, other, source.properties, source.stringIndex, target.stringIndex.value, {Word, Numeral});
    }
    if target.numberIndex.Some? {
      IndexMeets(store, other, source.properties, source.numberIndex, target.numberIndex.value, {Numeral});
    }
  }

  lemma IndexMeets(store: Store, other: Rules, props: seq<Property>, own: Option<nat>, wanted: nat, governed: set<Spelling>)
    ensures Indexed(store, other, props, own, wanted, governed) <==>
            forall x, y | (x, y) in PairAll(PropertyTypes(props, governed) + OptionSeq(own), wanted) :: Assigns(store, other, x, y)
  {
    hide Assigns, PropertyTypes;
    AmongPairs(PropertyTypes(props, governed) + OptionSeq(own), wanted);
    forall x ensures x in PropertyTypes(props, governed) <==> exists i :: 0 <= i < |props| && props[i].spelling in governed && props[i].ty == x {
      GovernedTypes(props, governed, x);
    }
    assert forall x :: x in OptionSeq(own) <==> own == Some(x);
    if Indexed(store, other, props, own, wanted, governed) {
      forall x, y | (x, y) in PairAll(PropertyTypes(props, governed) + OptionSeq(own), wanted) ensures Assigns(store, other, x, y) {
        assert x in PropertyTypes(props, governed) + OptionSeq(own);
      }
    } else if own.Some? && !Assigns(store, other, own.value, wanted) {
      assert (own.value, wanted) in PairAll(PropertyTypes(props, governed) + OptionSeq(own), wanted);
    } else {
      var i :| 0 <= i < |props| && props[i].spelling in governed && !Assigns(store, other, props[i].ty, wanted);
      assert props[i].ty in PropertyTypes(props, governed) + OptionSeq(own);
      assert (props[i].ty, wanted) in PairAll(PropertyTypes(props, governed) + OptionSeq(own), wanted);
    }
  }

  lemma {:induction false} GovernedTypes(props: seq<Property>, governed: set<Spelling>, x: nat)
    ensures x in PropertyTypes(props, governed) <==> exists i :: 0 <= i < |props| && props[i].spelling in governed && props[i].ty == x
  {
    if props != [] {
      GovernedTypes(props[1..], governed, x);
      if i :| 0 <= i < |props| && props[i].spelling in governed && props[i].ty == x {
        assert i > 0 ==> props[1..][i - 1] == props[i];
      }
      if i :| 0 <= i < |props[1..]| && props[1..][i].spelling in governed && props[1..][i].ty == x {
        assert props[i + 1] == props[1..][i];
      }
    }
  }

  // ------------------------------------------------------------------ sources and targets that are taken apart

  /** The types that end every question. */
  lemma Absorbing(store: Store, other: Rules, s: nat, t: nat)
    requires s < |store| && t < |store| && s != t
    ensures Is(store, s, ErrorType) || Is(store, t, ErrorType) || Is(store, s, NeverType) ==> Assigns(store, other, s, t)
    ensures Is(store, s, AnyType) && !Is(store, t, ErrorType) ==> (Assigns(store, other, s, t) <==> !Is(store, t, NeverType))
    ensures Is(store, t, AnyType) ==> Assigns(store, other, s, t)
  {
    hide Justified, Structural;
    RelatedIsFixpoint(RulesOf(store, other), Key(s, t, Assignable));
  }

  /** A conditional source passes by both branches, once they are closed; other deferred sources do not,
      except that a string marker passes wherever the string type does. */
  lemma DeferredSource(store: Store, other: Rules, s: nat, t: nat)
    requires s < |store| && t < |store| && s != t && Deferred(store[s]) && !Absorbs(store, t)
    ensures Assigns(store, other, s, t) <==>
            match store[s]
            case Conditional(a, b, closed) => closed && Assigns(store, other, a, t) && Assigns(store, other, b, t)
            case Instantiation(marker) =>
              marker && !Deferred(store[t])
              && exists i: nat :: Is(store, i, StringType) && (forall j | 0 <= j < i :: !Is(store, j, StringType)) && Assigns(store, other, i, t)
            case _ => false
  {
    hide Justified, ShapeRule, FindBasic;
    var rules, k := RulesOf(store, other), Key(s, t, Assignable);
    RelatedIsFixpoint(rules, k);
    match store[s]
    case Conditional(a, b, closed) =>
      if closed {
        var parts := Meaning(rules, k).parts;
        assert parts[0] == Goal(Key(a, t, Assignable), false) && parts[1] == Goal(Key(b, t, Assignable), false);
      }
    case Instantiation(marker) =>
      if marker && !Deferred(store[t]) {
        FirstString(store, 0);
        SomeGoal(store, other, PairAll(StringIds(store), t), true);
        AmongPairs(StringIds(store), t);
        assert Meaning(rules, k) == Probe(Goals(PairAll(StringIds(store), t), Assignable, true));
      }
    case _ =>
  }

  lemma {:induction false} FirstString(store: Store, from: nat)
    requires from <= |store| && forall j | 0 <= j < from :: !Is(store, j, StringType)
    ensures forall i: nat :: i in FindBasic(store, StringType, from) <==>
                        Is(store, i, StringType) && forall j | 0 <= j < i :: !Is(store, j, StringType)
    decreases |store| - from
  {
    if from < |store| && store[from] != Basic(StringType) {
      FirstString(store, from + 1);
    } else if from < |store| {
      assert Is(store, from, StringType);
    }
  }

  /** A union target takes what one of its members takes, an intersection target what all of them do. */
  lemma CompoundTarget(store: Store, other: Rules, s: nat, t: nat)
    requires s < |store| && t < |store| && s != t && (SourceShape(store[s]) || store[s].Intersection?)
    requires store[t].Union? || store[t].Intersection?
    ensures Assigns(store, other, s, t) <==>
            || (store[s].Intersection? && t in store[s].members)
            || (store[t].Union? && exists m :: m in store[t].members && Assigns(store, other, s, m))
            || (store[t].Intersection? && forall m | m in store[t].members :: Assigns(store, other, s, m))
  {
    hide Justified, ShapeRule, FindBasic, Goals, PairWith;
    var rules, k := RulesOf(store, other), Key(s, t, Assignable);
    RelatedIsFixpoint(rules, k);
    SomeGoal(store, other, PairWith(s, store[t].members), store[t].Union?);
    WithPairs(s, store[t].members);
  }

  lemma WithPairs(s: nat, targets: seq<nat>)
    ensures forall x, y :: (x, y) in PairWith(s, targets) <==> x == s && y in targets
  {
    forall y | y in targets ensures (s, y) in PairWith(s, targets) {
      var i :| 0 <= i < |targets| && targets[i] == y;
      assert PairWith(s, targets)[i] == (s, y);
    }
  }

  /** An intersection source passes by one member, or, into an object, as a merged object. */
  lemma IntersectionSource(store: Store, other: Rules, s: nat, t: nat)
    requires s < |store| && t < |store| && s != t && store[s].Intersection?
    requires TargetShape(store[t]) || store[t].Object?
    ensures Assigns(store, other, s, t) <==>
            if store[t].Object? then Elsewhere(store, other, s, t)
            else t in store[s].members || exists m :: m in store[s].members && Assigns(store, other, m, t)
  {
    hide Justified, ShapeRule, FindBasic, Goals, PairAll;
    var rules, k := RulesOf(store, other), Key(s, t, Assignable);
    RelatedIsFixpoint(rules, k);
    SomeGoal(store, other, PairAll(store[s].members, t), false);
    AmongPairs(store[s].members, t);
  }

  /** A constrained parameter passes by its constraint, or as the bare parameter would. */
  lemma ConstrainedSource(store: Store, other: Rules, s: nat, t: nat)
    requires s < |store| && t < |store| && s != t && !Absorbs(store, t)
    requires store[s].TypeParam? && store[s].constraint.Some?
    ensures var target := store[t];
            Assigns(store, other, s, t) <==>
            || Assigns(store, other, store[s].constraint.value, t)
            || (match target
                case Basic(kind) => kind == UnknownType
                case Union(members) => exists m :: m in members && Assigns(store, other, s, m)
                case Intersection(members) => forall m | m in members :: Assigns(store, other, s, m)
                case Readonly(operand) => Assigns(store, other, s, operand)
                case Template => Elsewhere(store, other, s, t)
                case Object(properties, stringIndex, _, calls, constructs, libraryTop) =>
                  (libraryTop || (properties != [] && stringIndex.None? && calls == [] && !constructs)) && Elsewhere(store, other, s, t)
                case _ => false)
  {
    hide Justified, ObjectRule, TupleRule, FindBasic, Goals, PairWith;
    var rules, k, given := RulesOf(store, other), Key(s, t, Assignable), Support(RulesOf(store, other), {});
    RelatedIsFixpoint(rules, k);
    var r := Meaning(rules, k);
    assert r.parts[0] == Goal(Key(store[s].constraint.value, t, Assignable), true);
    assert r.parts[1] == Structural(store, k, other);
    assert Holds(r, given) <==> Holds(r.parts[0], given) || Holds(r.parts[1], given);
    if store[t].Union? || store[t].Intersection? {
      SomeGoal(store, other, PairWith(s, store[t].members), store[t].Union?);
      WithPairs(s, store[t].members);
    }
  }

  /** The library's top object is decided by the library rules. */
  lemma LibraryTop(store: Store, other: Rules, s: nat, t: nat)
    requires s < |store| && t < |store| && s != t && SourceShape(store[s]) && store[t].Object? && store[t].libraryTop
    ensures Assigns(store, other, s, t) <==> Elsewhere(store, other, s, t)
  {
    hide Justified, ObjectRule, TupleRule, FindBasic;
    RelatedIsFixpoint(RulesOf(store, other), Key(s, t, Assignable));
  }

  /** An object without a required property is not assignable to one that asks for it. */
  lemma MissingPropertyRefused(store: Store, other: Rules, s: nat, t: nat, p: Property)
    requires Shapes(store, s, t) && store[s].Object? && store[t].Object? && p in store[t].properties && !p.optional
    requires forall i | 0 <= i < |store[s].properties| :: store[s].properties[i].key != p.key
    ensures !Assigns(store, other, s, t)
  {
    hide Assigns, Indexed;
    ObjectPair(store, other, s, t);
    var j :| 0 <= j < |store[t].properties| && store[t].properties[j] == p;
    assert !Meets(store, other, store[s].properties, p);
  }
}
