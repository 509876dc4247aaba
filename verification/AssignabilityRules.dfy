/** The structural assignability rules of the checker's type store, as rule trees.

    Function shapes, construct signatures, template patterns, the merged object view of an
    intersection source and the library surfaces of sources that are not objects are supplied by
    `other`; every other tag is decided here, in the order the checker decides it. */
module AssignabilityRules {
  import opened Wrappers
  import opened RelationRules
  import opened RelationEngine

  datatype Intrinsic =
    | ErrorType | AnyType | UnknownType | NeverType | VoidType | NullType | UndefinedType
    | BooleanType | NumberType | StringType | ObjectType | BigIntType | SymbolType

  datatype Visibility = Public | Private | Protected

  /** What a property key is: a name, a name that spells a number, or a well-known symbol. */
  datatype Spelling = Word | Numeral | Symbol

  datatype Property =
    Property(key: nat, ty: nat, optional: bool, visibility: Visibility, owner: nat, spelling: Spelling)

  /** A type as the interner stores it; children are ids into the same store. */
  datatype Type =
    | Basic(kind: Intrinsic)
    | Literal(base: Intrinsic)
    | TypeParam(constraint: Option<nat>)
    | Conditional(whenTrue: nat, whenFalse: nat, closed: bool)
    | Instantiation(stringMarker: bool)
    | Mapped
    | Keyof
    | Template
    | Union(members: seq<nat>)
    | Intersection(members: seq<nat>)
    | Readonly(operand: nat)
    | Array(element: nat)
    | Tuple(prefix: seq<nat>, variadic: Option<nat>, suffix: seq<nat>)
    | Object(properties: seq<Property>, stringIndex: Option<nat>, numberIndex: Option<nat>, calls: seq<nat>,
             constructs: bool, libraryTop: bool)
    | Function
    | ClassInstance

  type Store = seq<Type>

  predicate Is(store: Store, id: nat, kind: Intrinsic) {
    id < |store| && store[id] == Basic(kind)
  }

  function Goals(pairs: seq<(nat, nat)>, kind: Kind, probing: bool): seq<Rule> {
    seq(|pairs|, i requires 0 <= i < |pairs| => Goal(Key(pairs[i].0, pairs[i].1, kind), probing))
  }

  function PairAll(sources: seq<nat>, target: nat): seq<(nat, nat)> {
    seq(|sources|, i requires 0 <= i < |sources| => (sources[i], target))
  }

  function PairWith(source: nat, targets: seq<nat>): seq<(nat, nat)> {
    seq(|targets|, i requires 0 <= i < |targets| => (source, targets[i]))
  }

  function Zip(left: seq<nat>, right: seq<nat>): seq<(nat, nat)>
    requires |left| == |right|
  {
    seq(|left|, i requires 0 <= i < |left| => (left[i], right[i]))
  }

  function OptionSeq(o: Option<nat>): seq<nat> {
    if o.Some? then [o.value] else []
  }

  // ------------------------------------------------------------------ objects

  /** The first property with this key. */
  function PropertyAt(props: seq<Property>, key: nat): (r: Option<Property>)
    ensures r.Some? ==> r.value in props && r.value.key == key
    ensures r.None? <==> forall i | 0 <= i < |props| :: props[i].key != key
  {
    if props == [] then None
    else if props[0].key == key then Some(props[0])
    else PropertyAt(props[1..], key)
  }

  predicate OriginOk(target: Property, source: Property) {
    if target.visibility == Public then source.visibility == Public
    else source.visibility == target.visibility && source.owner == target.owner
  }

  function PropertyRule(target: Property, found: Option<Property>, kind: Kind): Rule {
    match found
    case None => Settled(target.optional)
    case Some(source) =>
      if !OriginOk(target, source) || (source.optional && !target.optional) then Settled(false)
      else Goal(Key(source.ty, target.ty, kind), false)
  }

  function PropertyRules(source: seq<Property>, target: seq<Property>, kind: Kind): seq<Rule> {
    seq(|target|, i requires 0 <= i < |target| => PropertyRule(target[i], PropertyAt(source, target[i].key), kind))
  }

  ghost predicate SortedByKey(props: seq<Property>) {
    forall i, j | 0 <= i < j < |props| :: props[i].key <= props[j].key
  }

  /** The checker pairs properties with one monotone cursor over the source and keeps the last match
      for a repeated target key; on interned objects, whose properties are sorted by key, that is the
      lookup of the first property with the key. */
  method PairProperties(source: seq<Property>, target: seq<Property>, kind: Kind) returns (rules: seq<Rule>)
    requires SortedByKey(source) && SortedByKey(target)
    ensures rules == PropertyRules(source, target, kind)
  {
    hide PropertyAt, PropertyRule;
    rules := [];
    var cursor := 0;
    var found: Option<Property> := None;
    for t := 0 to |target|
      invariant 0 <= cursor <= |source|
      invariant |rules| == t
      invariant forall i | 0 <= i < t :: rules[i] == PropertyRule(target[i], PropertyAt(source, target[i].key), kind)
      invariant t == 0 ==> cursor == 0
      invariant t > 0 ==> found == PropertyAt(source, target[t - 1].key)
      invariant t > 0 && cursor > 0 ==> source[cursor - 1].key <= target[t - 1].key
    {
      if t == 0 || target[t - 1].key != target[t].key {
        found, cursor := SeekKey(source, cursor, target[t].key);
      }
      rules := rules + [PropertyRule(target[t], found, kind)];
    }
  }

  /** Move the cursor up to `key` and past its first property if there is one. */
  method SeekKey(source: seq<Property>, from: nat, key: nat) returns (found: Option<Property>, cursor: nat)
    requires SortedByKey(source) && from <= |source|
    requires from > 0 ==> source[from - 1].key < key
    ensures cursor <= |source| && (cursor > 0 ==> source[cursor - 1].key <= key)
    ensures found == PropertyAt(source, key)
  {
    cursor := from;
    while cursor < |source| && source[cursor].key < key
      invariant from <= cursor <= |source|
      invariant cursor > 0 ==> source[cursor - 1].key < key
    {
      cursor := cursor + 1;
    }
    CursorFinds(source, cursor, key);
    found := None;
    if cursor < |source| && source[cursor].key == key {
      found, cursor := Some(source[cursor]), cursor + 1;
    }
  }

  lemma CursorFinds(props: seq<Property>, cursor: nat, key: nat)
    requires SortedByKey(props) && cursor <= |props|
    requires cursor > 0 ==> props[cursor - 1].key < key
    requires cursor < |props| ==> props[cursor].key >= key
    ensures PropertyAt(props, key) == if cursor < |props| && props[cursor].key == key then Some(props[cursor]) else None
  {
    assert forall i | 0 <= i < cursor :: props[i].key <= props[cursor - 1].key;
    if cursor < |props| && props[cursor].key == key {
      FirstWithKey(props, cursor);
    } else {
      forall i | 0 <= i < |props| ensures props[i].key != key {
        if i > cursor {
          assert props[cursor].key <= props[i].key;
        }
      }
    }
  }

  lemma {:induction false} FirstWithKey(props: seq<Property>, at: nat)
    requires at < |props| && forall i | 0 <= i < at :: props[i].key != props[at].key
    ensures PropertyAt(props, props[at].key) == Some(props[at])
  {
    if at > 0 {
      FirstWithKey(props[1..], at - 1);
    }
  }

  function IndexPairs(source: Type, target: Type): seq<(nat, nat)>
    requires source.Object? && target.Object?
  {
    (if target.stringIndex.Some?
     then PairAll(PropertyTypes(source.properties, {Word, Numeral}) + OptionSeq(source.stringIndex), target.stringIndex.value)
     else [])
    + (if target.numberIndex.Some?
       then PairAll(PropertyTypes(source.properties, {Numeral}) + OptionSeq(source.numberIndex), target.numberIndex.value)
       else [])
  }

  /** The types of the properties an index signature governs. */
  function PropertyTypes(props: seq<Property>, governed: set<Spelling>): seq<nat> {
    if props == [] then []
    else (if props[0].spelling in governed then [props[0].ty] else []) + PropertyTypes(props[1..], governed)
  }

  /** Every target signature needs some source signature. */
  function SignatureRules(source: seq<nat>, target: seq<nat>, kind: Kind): seq<Rule> {
    seq(|target|, i requires 0 <= i < |target| => Probe(Goals(PairAll(source, target[i]), kind, true)))
  }

  /** Properties, then call, construct and index signatures. */
  function ObjectRule(source: Type, target: Type, k: Key, other: Rules): Rule
    requires source.Object? && target.Object?
  {
    All([All(PropertyRules(source.properties, target.properties, k.kind)),
         if target.calls == [] then Settled(true)
         else if source.calls == [] then Settled(false)
         else All(SignatureRules(source.calls, target.calls, k.kind)),
         if target.constructs then other(k) else Settled(true),
         All(Goals(IndexPairs(source, target), k.kind, false))])
  }

  // ------------------------------------------------------------------ tuples

  function TupleElements(t: Type): seq<nat>
    requires t.Tuple?
  {
    t.prefix + t.suffix
  }

  function TupleElementAt(t: Type, index: nat, len: nat): nat
    requires t.Tuple? && index < len
    requires |t.prefix| + |t.suffix| <= len
    requires t.variadic.Some? || len == |t.prefix| + |t.suffix|
  {
    if index < |t.prefix| then t.prefix[index]
    else if index >= len - |t.suffix| then t.suffix[index - (len - |t.suffix|)]
    else t.variadic.value
  }

  function TupleRule(source: Type, target: Type, kind: Kind): Rule
    requires source.Tuple? && target.Tuple?
  {
    var len := |source.prefix| + |source.suffix|;
    if source.variadic.None? then
      if len < |target.prefix| + |target.suffix|
         || (target.variadic.None? && len != |target.prefix| + |target.suffix|) then Settled(false)
      else All(Goals(seq(len, i requires 0 <= i < len => (TupleElements(source)[i], TupleElementAt(target, i, len))), kind, false))
    else if target.variadic.None? || |source.prefix| != |target.prefix| || |source.suffix| != |target.suffix| then
      Settled(false)
    else
      All(Goals(Zip(source.prefix, target.prefix) + Zip(source.suffix, target.suffix)
                + [(source.variadic.value, target.variadic.value)], kind, false))
  }

  // ------------------------------------------------------------------ dispatch

  predicate NonNullish(t: Type) {
    || t.Literal? || t.Object? || t.Function? || t.Array? || t.Tuple? || t.Readonly? || t.Template? || t.ClassInstance?
    || (t.Basic? && t.kind in {BooleanType, NumberType, StringType, ObjectType, BigIntType, SymbolType})
  }

  predicate EmptyObject(t: Type) {
    t.Object? && t.properties == [] && t.stringIndex.None? && t.numberIndex.None? && t.calls == [] && !t.constructs
  }

  /** A target that a source which is not an object meets with its library surface, if it has one. */
  predicate NamedObject(t: Type) {
    t.Object? && t.properties != [] && t.stringIndex.None? && t.calls == [] && !t.constructs
  }

  predicate Heap(t: Type) {
    t.Object? || t.Function? || t.Array? || t.Tuple? || t.Readonly? || t.ClassInstance?
  }

  /** A union source must land member by member; a member the target lists verbatim is accepted
      as it stands. */
  function UnionSourcePairs(members: seq<nat>, target: nat, listed: seq<nat>): seq<(nat, nat)> {
    seq(|members|, i requires 0 <= i < |members| =>
      (members[i], if members[i] in listed then members[i] else target))
  }

  predicate Ascending(ids: seq<nat>) {
    forall i, j | 0 <= i < j < |ids| :: ids[i] <= ids[j]
  }

  /** The checker finds the listed members with one monotone cursor over the target's sorted list. */
  method PairUnionMembers(members: seq<nat>, target: nat, listed: seq<nat>) returns (pairs: seq<(nat, nat)>)
    requires Ascending(members) && Ascending(listed)
    ensures pairs == UnionSourcePairs(members, target, listed)
  {
    pairs := [];
    var cursor := 0;
    for m := 0 to |members|
      invariant cursor <= |listed|
      invariant pairs == UnionSourcePairs(members[..m], target, listed)
      invariant forall i, j | 0 <= i < cursor && m <= j < |members| :: listed[i] < members[j]
    {
      while cursor < |listed| && listed[cursor] < members[m]
        invariant cursor <= |listed|
        invariant forall i, j | 0 <= i < cursor && m <= j < |members| :: listed[i] < members[j]
      {
        cursor := cursor + 1;
      }
      var exact := cursor < |listed| && listed[cursor] == members[m];
      assert exact <==> members[m] in listed by {
        if members[m] in listed {
          var i :| 0 <= i < |listed| && listed[i] == members[m];
          assert i >= cursor;
        }
      }
      pairs := pairs + [(members[m], if exact then members[m] else target)];
    }
    assert members[..|members|] == members;
  }

  /** The rules once neither side is an error, `any`, `never` or a constrained parameter. */
  function Structural(store: Store, k: Key, other: Rules): Rule
    requires k.src < |store| && k.tgt < |store|
  {
    var s, t := store[k.src], store[k.tgt];
    if !t.Object? && s.Intersection? && k.tgt in s.members then Settled(true)
    else if s.Conditional? then
      if s.closed then All([Goal(Key(s.whenTrue, k.tgt, k.kind), false), Goal(Key(s.whenFalse, k.tgt, k.kind), false)])
      else Settled(false)
    else if t.Conditional? || t.Instantiation? || t.Mapped? || t.Keyof? then Settled(false)
    else if s.Instantiation? && s.stringMarker then
      Probe(Goals(PairAll(StringIds(store), k.tgt), k.kind, true))
    else if s.Instantiation? || s.Mapped? || s.Keyof? then Settled(false)
    else if s.Union? then
      All(Goals(UnionSourcePairs(s.members, k.tgt, if t.Union? then t.members else []), k.kind, false))
    else if t.Union? then Any(Goals(PairWith(k.src, t.members), k.kind, true))
    else if t.Intersection? then All(Goals(PairWith(k.src, t.members), k.kind, false))
    else if s.Intersection? && !t.Object? then Any(Goals(PairAll(s.members, k.tgt), k.kind, false))
    else if s.Intersection? then other(k)
    else ShapeRule(store, k, other)
  }

  /** The rules once both sides are single shapes. */
  function ShapeRule(store: Store, k: Key, other: Rules): Rule
    requires k.src < |store| && k.tgt < |store|
  {
    var s, t := store[k.src], store[k.tgt];
    if t.Object? && t.libraryTop then other(k)
    else if t == Basic(UnknownType) || (t == Basic(VoidType) && s == Basic(UndefinedType)) then Settled(true)
    else if s.Literal? && t == Basic(s.base) then Settled(true)
    else if EmptyObject(t) && NonNullish(s) then Settled(true)
    else if !s.Object? && NamedObject(t) then other(k)
    else if s.Template? || t.Template? then other(k)
    else if t == Basic(ObjectType) && Heap(s) then Settled(true)
    else if t.Readonly? then Goal(Key(if s.Readonly? then s.operand else k.src, t.operand, k.kind), false)
    else if s.Readonly? then Settled(false)
    else if s.Object? && t.Object? then ObjectRule(s, t, k, other)
    else if s.Object? && t.Function? then Probe(Goals(PairAll(s.calls, k.tgt), k.kind, true))
    else if s.Function? && (t.Function? || t.Object?) then other(k)
    else if s.Array? && t.Array? then Goal(Key(s.element, t.element, k.kind), false)
    else if s.Tuple? && t.Tuple? then TupleRule(s, t, k.kind)
    else if s.Tuple? && t.Array? then
      All(Goals(PairAll(TupleElements(s) + OptionSeq(s.variadic), t.element), k.kind, false))
    else Settled(false)
  }

  function StringIds(store: Store): seq<nat> {
    FindBasic(store, StringType, 0)
  }

  function FindBasic(store: Store, kind: Intrinsic, from: nat): (ids: seq<nat>)
    ensures forall i | 0 <= i < |ids| :: Is(store, ids[i], kind)
    decreases |store| - from
  {
    if from >= |store| then []
    else if store[from] == Basic(kind) then [from]
    else FindBasic(store, kind, from + 1)
  }

  /** The whole dispatch for one key. */
  function RuleOf(store: Store, k: Key, other: Rules): Rule {
    if k.src >= |store| || k.tgt >= |store| then Settled(false)
    else
      var s, t := store[k.src], store[k.tgt];
      if s == Basic(ErrorType) || t == Basic(ErrorType) || s == Basic(NeverType) then Settled(true)
      else if s == Basic(AnyType) then Settled(t != Basic(NeverType))
      else if t == Basic(AnyType) then Settled(true)
      else if s.TypeParam? && s.constraint.Some? then
        Probe([Goal(Key(s.constraint.value, k.tgt, k.kind), true), Structural(store, k, other)])
      else Structural(store, k, other)
  }

  function RulesOf(store: Store, other: Rules): Rules {
    (k: Key) => RuleOf(store, k, other)
  }

  // ------------------------------------------------------------------ termination

  predicate InStore(store: Store, ids: seq<nat>) {
    forall i | 0 <= i < |ids| :: ids[i] < |store|
  }

  ghost predicate ChildrenInStore(store: Store, t: Type) {
    match t
    case TypeParam(c) => InStore(store, OptionSeq(c))
    case Conditional(a, b, _) => a < |store| && b < |store|
    case Union(ms) => InStore(store, ms)
    case Intersection(ms) => InStore(store, ms)
    case Readonly(o) => o < |store|
    case Array(e) => e < |store|
    case Tuple(p, v, s) => InStore(store, p) && InStore(store, OptionSeq(v)) && InStore(store, s)
    case Object(ps, si, ni, calls, _, _) =>
      && (forall i | 0 <= i < |ps| :: ps[i].ty < |store|)
      && InStore(store, OptionSeq(si)) && InStore(store, OptionSeq(ni)) && InStore(store, calls)
    case _ => true
  }

  ghost predicate WellFormed(store: Store) {
    forall i | 0 <= i < |store| :: ChildrenInStore(store, store[i])
  }

  ghost function AllKeys(store: Store): set<Key> {
    set s, t, kind | 0 <= s < |store| && 0 <= t < |store| && kind in {Identity, Subtype, Assignable} :: Key(s, t, kind)
  }

  lemma InAllKeys(store: Store, k: Key)
    requires k.src < |store| && k.tgt < |store|
    ensures k in AllKeys(store)
  {
    assert k == Key(k.src, k.tgt, k.kind);
    match k.kind {
      case Identity =>
      case Subtype =>
      case Assignable =>
    }
    assert k.kind in {Identity, Subtype, Assignable};
  }

  predicate PairsInStore(store: Store, pairs: seq<(nat, nat)>) {
    forall i | 0 <= i < |pairs| :: pairs[i].0 < |store| && pairs[i].1 < |store|
  }

  lemma GoalsStay(store: Store, pairs: seq<(nat, nat)>, kind: Kind, probing: bool)
    requires PairsInStore(store, pairs)
    ensures forall r | r in Goals(pairs, kind, probing) :: GoalsWithin(r, AllKeys(store))
    ensures GoalsWithin(All(Goals(pairs, kind, probing)), AllKeys(store))
    ensures GoalsWithin(Any(Goals(pairs, kind, probing)), AllKeys(store))
    ensures GoalsWithin(Probe(Goals(pairs, kind, probing)), AllKeys(store))
  {
    forall i | 0 <= i < |pairs| ensures Key(pairs[i].0, pairs[i].1, kind) in AllKeys(store) {
      InAllKeys(store, Key(pairs[i].0, pairs[i].1, kind));
    }
  }

  lemma {:induction false} PropertyTypesInStore(store: Store, props: seq<Property>, governed: set<Spelling>)
    requires forall i | 0 <= i < |props| :: props[i].ty < |store|
    ensures InStore(store, PropertyTypes(props, governed))
  {
    if props != [] {
      PropertyTypesInStore(store, props[1..], governed);
    }
  }

  lemma ObjectRuleStays(store: Store, s: Type, t: Type, k: Key, other: Rules)
    requires s.Object? && t.Object? && ChildrenInStore(store, s) && ChildrenInStore(store, t)
    requires GoalsWithin(other(k), AllKeys(store))
    ensures GoalsWithin(ObjectRule(s, t, k, other), AllKeys(store))
  {
    var kind := k.kind;
    var rules := PropertyRules(s.properties, t.properties, kind);
    forall i | 0 <= i < |rules| ensures GoalsWithin(rules[i], AllKeys(store)) {
      var found := PropertyAt(s.properties, t.properties[i].key);
      if found.Some? {
        InAllKeys(store, Key(found.value.ty, t.properties[i].ty, kind));
      }
    }
    var sigs := SignatureRules(s.calls, t.calls, kind);
    forall i | 0 <= i < |sigs| ensures GoalsWithin(sigs[i], AllKeys(store)) {
      GoalsStay(store, PairAll(s.calls, t.calls[i]), kind, true);
    }
    IndexPairsInStore(store, s, t);
    GoalsStay(store, IndexPairs(s, t), kind, false);
  }

  lemma IndexPairsInStore(store: Store, s: Type, t: Type)
    requires s.Object? && t.Object? && ChildrenInStore(store, s) && ChildrenInStore(store, t)
    ensures PairsInStore(store, IndexPairs(s, t))
  {
    PropertyTypesInStore(store, s.properties, {Word, Numeral});
    PropertyTypesInStore(store, s.properties, {Numeral});
    if t.stringIndex.Some? {
      assert OptionSeq(t.stringIndex)[0] < |store|;
    }
    if t.numberIndex.Some? {
      assert OptionSeq(t.numberIndex)[0] < |store|;
    }
  }

  lemma TupleRuleStays(store: Store, s: Type, t: Type, kind: Kind)
    requires s.Tuple? && t.Tuple? && ChildrenInStore(store, s) && ChildrenInStore(store, t)
    ensures GoalsWithin(TupleRule(s, t, kind), AllKeys(store))
  {
    var len := |s.prefix| + |s.suffix|;
    if s.variadic.None? && len >= |t.prefix| + |t.suffix| && (t.variadic.Some? || len == |t.prefix| + |t.suffix|) {
      var pairs := seq(len, i requires 0 <= i < len => (TupleElements(s)[i], TupleElementAt(t, i, len)));
      assert t.variadic.Some? ==> OptionSeq(t.variadic)[0] < |store|;
      GoalsStay(store, pairs, kind, false);
    } else if s.variadic.Some? && t.variadic.Some? && |s.prefix| == |t.prefix| && |s.suffix| == |t.suffix| {
      var pairs := Zip(s.prefix, t.prefix) + Zip(s.suffix, t.suffix) + [(s.variadic.value, t.variadic.value)];
      assert OptionSeq(s.variadic)[0] < |store| && OptionSeq(t.variadic)[0] < |store|;
      GoalsStay(store, pairs, kind, false);
    }
  }

  lemma ShapeStays(store: Store, k: Key, other: Rules)
    requires WellFormed(store) && k.src < |store| && k.tgt < |store|
    requires ClosedUnder(other, AllKeys(store))
    ensures GoalsWithin(ShapeRule(store, k, other), AllKeys(store))
  {
    var s, t := store[k.src], store[k.tgt];
    assert ChildrenInStore(store, s) && ChildrenInStore(store, t);
    InAllKeys(store, k);
    if t.Readonly? {
      InAllKeys(store, Key(if s.Readonly? then s.operand else k.src, t.operand, k.kind));
    } else if s.Object? && t.Object? {
      ObjectRuleStays(store, s, t, k, other);
    } else if s.Object? && t.Function? {
      GoalsStay(store, PairAll(s.calls, k.tgt), k.kind, true);
    } else if s.Array? && t.Array? {
      InAllKeys(store, Key(s.element, t.element, k.kind));
    } else if s.Tuple? && t.Tuple? {
      TupleRuleStays(store, s, t, k.kind);
    } else if s.Tuple? && t.Array? {
      GoalsStay(store, PairAll(TupleElements(s) + OptionSeq(s.variadic), t.element), k.kind, false);
    }
  }

  lemma StructuralStays(store: Store, k: Key, other: Rules)
    requires WellFormed(store) && k.src < |store| && k.tgt < |store|
    requires ClosedUnder(other, AllKeys(store))
    ensures GoalsWithin(Structural(store, k, other), AllKeys(store))
  {
    hide ShapeRule, AllKeys, FindBasic;
    var s, t := store[k.src], store[k.tgt];
    assert ChildrenInStore(store, s) && ChildrenInStore(store, t);
    InAllKeys(store, k);
    if s.Conditional? {
      InAllKeys(store, Key(s.whenTrue, k.tgt, k.kind));
      InAllKeys(store, Key(s.whenFalse, k.tgt, k.kind));
    } else if s.Instantiation? {
      GoalsStay(store, PairAll(StringIds(store), k.tgt), k.kind, true);
    } else if s.Union? {
      GoalsStay(store, UnionSourcePairs(s.members, k.tgt, if t.Union? then t.members else []), k.kind, false);
    } else if t.Union? {
      GoalsStay(store, PairWith(k.src, t.members), k.kind, true);
    } else if t.Intersection? {
      GoalsStay(store, PairWith(k.src, t.members), k.kind, false);
    } else if s.Intersection? {
      GoalsStay(store, PairAll(s.members, k.tgt), k.kind, false);
    } else {
      ShapeStays(store, k, other);
    }
  }

  /** A finite store closes: the engine terminates on every pair of its types. */
  lemma StoreIsClosed(store: Store, other: Rules)
    requires WellFormed(store) && ClosedUnder(other, AllKeys(store))
    ensures ClosedUnder(RulesOf(store, other), AllKeys(store))
  {
    var rules := RulesOf(store, other);
    forall k | k in AllKeys(store) ensures GoalsWithin(rules(k), AllKeys(store)) {
      StructuralStays(store, k, other);
      var s := store[k.src];
      if s.TypeParam? && s.constraint.Some? {
        assert ChildrenInStore(store, s) && OptionSeq(s.constraint)[0] < |store|;
        InAllKeys(store, Key(s.constraint.value, k.tgt, k.kind));
      }
    }
  }

  lemma GoalsExposed(pairs: seq<(nat, nat)>, kind: Kind, probing: bool)
    ensures Exposed(All(Goals(pairs, kind, probing)))
    ensures Exposed(Any(Goals(pairs, kind, probing)))
    ensures Exposed(Probe(Goals(pairs, kind, probing)))
  {
  }

  lemma ObjectRuleExposed(s: Type, t: Type, k: Key, other: Rules)
    requires s.Object? && t.Object? && Exposed(other(k))
    ensures Exposed(ObjectRule(s, t, k, other))
  {
    var kind := k.kind;
    GoalsExposed(IndexPairs(s, t), kind, false);
    forall i | 0 <= i < |t.calls| ensures Exposed(SignatureRules(s.calls, t.calls, kind)[i]) {
      GoalsExposed(PairAll(s.calls, t.calls[i]), kind, true);
    }
    assert Exposed(All(SignatureRules(s.calls, t.calls, kind)));
    assert Exposed(All(PropertyRules(s.properties, t.properties, kind)));
  }

  /** The structural rules hide nothing from the engine. */
  lemma StoreIsExposed(store: Store, other: Rules)
    requires AllExposed(other, AllKeys(store))
    ensures AllExposed(RulesOf(store, other), AllKeys(store))
  {
    forall k | k in AllKeys(store) ensures Exposed(RulesOf(store, other)(k)) {
      var s, t := store[k.src], store[k.tgt];
      assert Exposed(ShapeRule(store, k, other)) by {
        if s.Object? && t.Object? {
          ObjectRuleExposed(s, t, k, other);
        }
      }
      assert Exposed(Structural(store, k, other));
    }
  }
}
