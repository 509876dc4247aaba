/** The exact audit of a project configuration, and the identities of its roots. */
module ConfigAudit {
  import opened Wrappers
  import opened Delimited
  import Text

  datatype Json = Bool(flag: bool) | Str(text: string) | Arr(items: seq<Json>) | Obj(props: seq<Prop>) | Other

  datatype Prop = Prop(name: string, value: Json)

  datatype Notice =
    | UnsupportedConfigField(field: string)
    | UnsupportedConfigRootSelection(field: string)
    | UnsupportedConfigFiles(reason: string)
    | UnsupportedConfigRoot(reason: string, root: string)
    | UnsupportedConfigRootExtension(root: string)
    | UnsupportedCompilerOption(option: string, value: Option<string>)
    | MissingConfiguredRoot(root: string)

  datatype Scalars = Scalars(strict: bool, mod: string)

  /** Admitted scalars exist exactly when nothing was noticed. */
  datatype Audit = Audit(admitted: Option<Scalars>, notices: seq<Notice>, invalidFilesSchema: bool)

  // ------------------------------------------------------------------ paths

  datatype Component = CurDir | ParentDir | Normal(name: string)

  predicate Absolute(root: string) {
    root != [] && root[0] == '/'
  }

  /** Empty segments vanish; a dot counts only in front. */
  function ComponentsOf(segments: seq<string>, first: bool): seq<Component> {
    if segments == [] then []
    else
      var s := segments[0];
      (if s == "" then [] else if s == "." then (if first then [CurDir] else [])
       else if s == ".." then [ParentDir] else [Normal(s)])
      + ComponentsOf(segments[1..], false)
  }

  function Components(root: string): seq<Component> {
    ComponentsOf(Split(root, '/'), true)
  }

  /** What follows the last dot of a name that does not merely start with it. */
  function Extension(name: string): Option<string> {
    var parts := Split(name, '.');
    if |parts| == 1 || (|parts| == 2 && parts[0] == "") then None else Some(parts[|parts| - 1])
  }

  function FileName(root: string): Option<string> {
    var cs := Components(root);
    if cs != [] && cs[|cs| - 1].Normal? then Some(cs[|cs| - 1].name) else None
  }

  predicate EndsWith(s: string, suffix: string) {
    |s| >= |suffix| && s[|s| - |suffix|..] == suffix
  }

  /** A relative TypeScript source that stays below the project. */
  predicate GoodRoot(root: string) {
    && !Absolute(root) && !(ParentDir in Components(root))
    && FileName(root).Some? && Extension(FileName(root).value) == Some("ts") && !EndsWith(root, ".d.ts")
  }

  // ------------------------------------------------------------------ accepted configurations

  const ACCEPTED_OPTIONS: set<Prop> := {
    Prop("strict", Bool(true)), Prop("noEmit", Bool(true)), Prop("module", Str("ESNext")), Prop("moduleResolution", Str("Bundler"))
  }

  /** Precisely the four accepted options, in any order. */
  ghost predicate AcceptedOptions(props: seq<Prop>) {
    multiset(props) == multiset(ACCEPTED_OPTIONS)
  }

  ghost predicate AcceptedFiles(files: Json) {
    && files.Arr? && files.items != []
    && (forall i | 0 <= i < |files.items| :: files.items[i].Str? && GoodRoot(files.items[i].text))
  }

  /** Precisely `files` and `compilerOptions`, in any order. */
  ghost predicate Accepted(props: seq<Prop>) {
    exists files: Json, options: seq<Prop> ::
      multiset(props) == multiset{Prop("files", files), Prop("compilerOptions", Obj(options))}
      && AcceptedFiles(files) && AcceptedOptions(options)
  }

  // ------------------------------------------------------------------ distinct properties

  ghost predicate DistinctNames(props: seq<Prop>) {
    forall i, j | 0 <= i < j < |props| :: props[i].name != props[j].name
  }

  ghost function NamesOf(props: seq<Prop>): set<string> {
    set p | p in props :: p.name
  }

  lemma NamesStep(props: seq<Prop>, i: nat)
    requires i < |props|
    ensures NamesOf(props[..i + 1]) == NamesOf(props[..i]) + {props[i].name}
    ensures DistinctNames(props[..i + 1]) <==> DistinctNames(props[..i]) && props[i].name !in NamesOf(props[..i])
  {
    var before, after := props[..i], props[..i + 1];
    assert after == before + [props[i]];
    if DistinctNames(before) && props[i].name !in NamesOf(before) {
      forall a, b | 0 <= a < b < |after| ensures after[a].name != after[b].name {
        assert after[a] in before;
      }
    }
    if DistinctNames(after) {
      forall p | p in before ensures p.name != props[i].name {
        var k :| 0 <= k < i && before[k] == p;
        assert after[k].name != after[i].name;
      }
    }
  }

  lemma {:induction false} DistinctMultiset(props: seq<Prop>, all: set<Prop>)
    requires DistinctNames(props) && forall p :: p in props <==> p in all
    ensures multiset(props) == multiset(all)
  {
    if props == [] {
      assert all == {};
    } else {
      var last, front := props[|props| - 1], props[..|props| - 1];
      assert props == front + [last];
      assert last !in front;
      DistinctMultiset(front, all - {last});
      assert all == all - {last} + {last};
    }
  }

  lemma MultisetDistinct(props: seq<Prop>)
    requires forall p :: multiset(props)[p] <= 1
    requires forall p, q | p in props && q in props && p.name == q.name :: p == q
    ensures DistinctNames(props)
  {
    forall i, j | 0 <= i < j < |props| ensures props[i].name != props[j].name {
      if props[i] == props[j] {
        Repeats(props, i, j);
      }
    }
  }

  lemma Repeats(props: seq<Prop>, i: nat, j: nat)
    requires i < j < |props| && props[i] == props[j]
    ensures multiset(props)[props[i]] >= 2
  {
    var p := props[i];
    assert props == props[..i] + [p] + props[i + 1..j] + [p] + props[j + 1..];
  }

  lemma NoNames()
    ensures NamesOf([]) == {} && DistinctNames([])
  {
  }

  // ------------------------------------------------------------------ compiler options

  predicate KnownOption(name: string) {
    name in {"strict", "noEmit", "module", "moduleResolution"}
  }

  function OptionNotices(p: Prop): seq<Notice> {
    if p.name == "strict" || p.name == "noEmit" then
      (if p.value == Bool(true) then []
       else [UnsupportedCompilerOption(p.name, Some(if p.value.Bool? then "false" else "expected-boolean"))])
    else if p.name == "module" || p.name == "moduleResolution" then
      (if p.value == Str(if p.name == "module" then "ESNext" else "Bundler") then []
       else [UnsupportedCompilerOption(p.name, Some(if p.value.Str? then p.value.text else "expected-string"))])
    else [UnsupportedCompilerOption(p.name, None)]
  }

  lemma QuietOption(p: Prop)
    ensures OptionNotices(p) == [] <==> p in ACCEPTED_OPTIONS
    ensures forall n :: n in OptionNotices(p) <==> OptionFault(p, n)
  {
  }

  /** What is wrong with one option, and how it is reported. */
  ghost predicate OptionFault(p: Prop, n: Notice) {
    n.UnsupportedCompilerOption? && n.option == p.name &&
    match n.value
    case None => !KnownOption(p.name)
    case Some(reason) =>
      || (p.name in {"strict", "noEmit"} && p.value == Bool(false) && reason == "false")
      || (p.name in {"strict", "noEmit"} && !p.value.Bool? && reason == "expected-boolean")
      || (p.name == "module" && p.value == Str(reason) && reason != "ESNext")
      || (p.name == "moduleResolution" && p.value == Str(reason) && reason != "Bundler")
      || (p.name in {"module", "moduleResolution"} && !p.value.Str? && reason == "expected-string")
  }

  ghost predicate FirstNamed(props: seq<Prop>, i: nat)
    requires i < |props|
  {
    forall j | 0 <= j < i :: props[j].name != props[i].name
  }

  /** A repeated property is reported as such and not looked at. */
  ghost predicate OptionNoticedAt(props: seq<Prop>, i: nat, n: Notice)
    requires i < |props|
  {
    if FirstNamed(props, i) then OptionFault(props[i], n)
    else n == UnsupportedCompilerOption("duplicate-" + props[i].name, None)
  }

  ghost predicate OptionNoticed(props: seq<Prop>, upTo: nat, n: Notice)
    requires upTo <= |props|
  {
    exists i | 0 <= i < upTo :: OptionNoticedAt(props, i, n)
  }

  ghost predicate OptionMissing(props: seq<Prop>, n: Notice) {
    exists name | KnownOption(name) :: name !in NamesOf(props) && n == UnsupportedCompilerOption(name, Some("missing"))
  }

  lemma SeenBefore(props: seq<Prop>, i: nat)
    requires i < |props|
    ensures props[i].name in NamesOf(props[..i]) <==> !FirstNamed(props, i)
  {
    if props[i].name in NamesOf(props[..i]) {
      var q :| q in props[..i] && q.name == props[i].name;
      var k :| 0 <= k < i && props[..i][k] == q;
      assert props[k].name == props[i].name;
    }
    if !FirstNamed(props, i) {
      var j :| 0 <= j < i && props[j].name == props[i].name;
      assert props[..i][j] == props[j] && props[j] in props[..i];
    }
  }

  lemma {:induction false} InMissing(names: seq<string>, seen: set<string>, n: Notice)
    ensures n in MissingNotices(names, seen) <==>
            exists name | name in names :: name !in seen && n == UnsupportedCompilerOption(name, Some("missing"))
  {
    if names != [] {
      InMissing(names[1..], seen, n);
      assert forall name :: name in names <==> name == names[0] || name in names[1..];
    }
  }

  lemma MissingIsMissing(props: seq<Prop>)
    ensures forall n :: n in MissingNotices(OPTION_NAMES, NamesOf(props)) <==> OptionMissing(props, n)
  {
    assert forall name :: name in OPTION_NAMES <==> KnownOption(name);
    forall n ensures n in MissingNotices(OPTION_NAMES, NamesOf(props)) <==> OptionMissing(props, n) {
      InMissing(OPTION_NAMES, NamesOf(props), n);
    }
  }

  lemma OptionsNoticedStep(props: seq<Prop>, i: nat, notices: seq<Notice>, more: seq<Notice>)
    requires i < |props|
    requires forall n :: n in notices <==> OptionNoticed(props, i, n)
    requires forall n :: n in more <==> OptionNoticedAt(props, i, n)
    ensures forall n :: n in notices + more <==> OptionNoticed(props, i + 1, n)
  {
    hide OptionNoticedAt;
    forall n ensures n in notices + more <==> OptionNoticed(props, i + 1, n) {
      if OptionNoticed(props, i + 1, n) {
        var k :| 0 <= k < i + 1 && OptionNoticedAt(props, k, n);
        assert k < i ==> OptionNoticed(props, i, n);
      }
    }
  }

  lemma OptionMore(props: seq<Prop>, i: nat)
    requires i < |props|
    ensures forall n :: n in (if FirstNamed(props, i) then OptionNotices(props[i]) else [UnsupportedCompilerOption("duplicate-" + props[i].name, None)])
                        <==> OptionNoticedAt(props, i, n)
  {
    QuietOption(props[i]);
  }

  function MissingNotices(names: seq<string>, seen: set<string>): seq<Notice> {
    if names == [] then []
    else (if names[0] in seen then [] else [UnsupportedCompilerOption(names[0], Some("missing"))])
         + MissingNotices(names[1..], seen)
  }

  const OPTION_NAMES := ["strict", "noEmit", "module", "moduleResolution"]

  lemma NothingMissing(seen: set<string>)
    ensures MissingNotices(OPTION_NAMES, seen) == [] <==> forall n | KnownOption(n) :: n in seen
  {
    assert OPTION_NAMES[1..] == ["noEmit", "module", "moduleResolution"];
    assert OPTION_NAMES[1..][1..] == ["module", "moduleResolution"];
    assert OPTION_NAMES[1..][1..][1..] == ["moduleResolution"];
    assert MissingNotices(["moduleResolution"], seen) == [] <==> "moduleResolution" in seen;
    assert MissingNotices(["module", "moduleResolution"], seen) == [] <==> "module" in seen && "moduleResolution" in seen;
    assert MissingNotices(["noEmit", "module", "moduleResolution"], seen) == [] <==>
           "noEmit" in seen && "module" in seen && "moduleResolution" in seen;
  }

  method AuditOptions(options: Option<seq<Prop>>) returns (notices: seq<Notice>, scalars: Scalars)
    ensures notices == [] <==> options.Some? && AcceptedOptions(options.value)
    ensures notices == [] ==> scalars == Scalars(true, "ESNext")
    ensures var props := if options.Some? then options.value else [];
            forall n :: n in notices <==> OptionNoticed(props, |props|, n) || OptionMissing(props, n)
  {
    hide AcceptedOptions, OptionNotices, MissingNotices, KnownOption, NamesOf, DistinctNames, OptionNoticed, OptionNoticedAt, OptionMissing, OptionFault, FirstNamed;
    NoNames();
    notices, scalars := [], Scalars(false, "ESNext");
    var seen: set<string> := {};
    var props := if options.Some? then options.value else [];
    assert props[..0] == [];
    NoOptionNoticed(props);
    for i := 0 to |props|
      invariant seen == NamesOf(props[..i])
      invariant notices == [] <==> DistinctNames(props[..i]) && forall k | 0 <= k < i :: props[k] in ACCEPTED_OPTIONS
      invariant notices == [] ==> (scalars.strict <==> "strict" in seen) && scalars.mod == "ESNext"
      invariant forall n :: n in notices <==> OptionNoticed(props, i, n)
    {
      NamesStep(props, i);
      QuietOption(props[i]);
      SeenBefore(props, i);
      OptionMore(props, i);
      OptionsNoticedStep(props, i, notices, if FirstNamed(props, i) then OptionNotices(props[i]) else [UnsupportedCompilerOption("duplicate-" + props[i].name, None)]);
      var p := props[i];
      if p.name in seen {
        notices := notices + [UnsupportedCompilerOption("duplicate-" + p.name, None)];
      } else {
        notices := notices + OptionNotices(p);
        if p.name == "strict" {
          scalars := scalars.(strict := p.value == Bool(true));
        } else if p.name == "module" {
          scalars := scalars.(mod := if p.value.Str? then p.value.text else "");
        }
      }
      seen := seen + {p.name};
    }
    assert props[..|props|] == props;
    NothingMissing(seen);
    MissingIsMissing(props);
    OptionsAccepted(props);
    notices := notices + MissingNotices(OPTION_NAMES, seen);
    KnownOptions();
    NoOptions();
  }

  lemma NoOptionNoticed(props: seq<Prop>)
    ensures forall n :: !OptionNoticed(props, 0, n)
  {
  }

  lemma KnownOptions()
    ensures KnownOption("strict")
  {
  }

  lemma NoOptions()
    ensures !AcceptedOptions([])
  {
    assert |multiset(ACCEPTED_OPTIONS)| == |ACCEPTED_OPTIONS|;
    assert Prop("strict", Bool(true)) in ACCEPTED_OPTIONS;
  }

  /** Distinct, each accepted and none missing is the accepted multiset. */
  lemma OptionsAccepted(props: seq<Prop>)
    ensures AcceptedOptions(props) <==>
            && DistinctNames(props) && (forall k | 0 <= k < |props| :: props[k] in ACCEPTED_OPTIONS)
            && (forall n | KnownOption(n) :: n in NamesOf(props))
  {
    if DistinctNames(props) && (forall k | 0 <= k < |props| :: props[k] in ACCEPTED_OPTIONS)
       && (forall n | KnownOption(n) :: n in NamesOf(props)) {
      forall p ensures p in props <==> p in ACCEPTED_OPTIONS {
        if p in ACCEPTED_OPTIONS {
          assert KnownOption(p.name);
          var q :| q in props && q.name == p.name;
          assert q in ACCEPTED_OPTIONS;
        }
      }
      DistinctMultiset(props, ACCEPTED_OPTIONS);
    }
    if AcceptedOptions(props) {
      AcceptedMembers(props);
      MultisetDistinct(props);
      forall n | KnownOption(n) ensures n in NamesOf(props) {
        OptionNamed(n);
      }
    }
  }

  lemma AcceptedMembers(props: seq<Prop>)
    requires AcceptedOptions(props)
    ensures forall p :: p in props <==> p in ACCEPTED_OPTIONS
    ensures forall p :: multiset(props)[p] <= 1
  {
    assert forall p :: p in props <==> p in multiset(props);
  }

  lemma OptionNamed(n: string)
    requires KnownOption(n)
    ensures exists p :: p in ACCEPTED_OPTIONS && p.name == n
  {
    assert Prop("strict", Bool(true)) in ACCEPTED_OPTIONS && Prop("noEmit", Bool(true)) in ACCEPTED_OPTIONS;
    assert Prop("module", Str("ESNext")) in ACCEPTED_OPTIONS && Prop("moduleResolution", Str("Bundler")) in ACCEPTED_OPTIONS;
  }

  // ------------------------------------------------------------------ files

  function RootNotices(root: string): seq<Notice> {
    if Absolute(root) then [UnsupportedConfigRoot("absolute", root)]
    else if ParentDir in Components(root) then [UnsupportedConfigRoot("parent-traversal", root)]
    else if FileName(root).Some? && Extension(FileName(root).value) == Some("ts") && !EndsWith(root, ".d.ts") then []
    else [UnsupportedConfigRootExtension(root)]
  }

  lemma QuietRoot(root: string)
    ensures RootNotices(root) == [] <==> GoodRoot(root)
    ensures forall n :: n in RootNotices(root) <==> RootFault(root, n)
  {
    hide Split, ComponentsOf, Extension;
    ParentSegment(root);
  }

  /** What is wrong with a root: the first of these that applies. */
  ghost predicate RootFault(root: string, n: Notice) {
    if root != [] && root[0] == '/' then n == UnsupportedConfigRoot("absolute", root)
    else if ".." in Split(root, '/') then n == UnsupportedConfigRoot("parent-traversal", root)
    else !GoodRoot(root) && n == UnsupportedConfigRootExtension(root)
  }

  lemma ParentSegment(root: string)
    ensures ParentDir in Components(root) <==> ".." in Split(root, '/')
  {
    hide Split;
    ParentAmong(Split(root, '/'), true);
  }

  lemma {:induction false} ParentAmong(segments: seq<string>, first: bool)
    ensures ParentDir in ComponentsOf(segments, first) <==> ".." in segments
  {
    if segments != [] {
      ParentAmong(segments[1..], false);
      assert ".." in segments <==> segments[0] == ".." || ".." in segments[1..];
    }
  }

  /** What is wrong with the list of roots. */
  ghost predicate FilesFault(value: Json, n: Notice) {
    if !value.Arr? then n == UnsupportedConfigFiles("expected-array")
    else if value.items == [] then n == UnsupportedConfigFiles("empty")
    else exists i | 0 <= i < |value.items| :: ItemFault(value.items[i], n)
  }

  ghost predicate ItemFault(item: Json, n: Notice) {
    if item.Str? then RootFault(item.text, n) else n == UnsupportedConfigFiles("expected-string")
  }

  /** The schema is broken when there is no array, or something in it is no string. */
  ghost predicate BrokenFiles(value: Json) {
    !value.Arr? || exists i | 0 <= i < |value.items| :: !value.items[i].Str?
  }

  method AuditFiles(value: Json) returns (notices: seq<Notice>, invalid: bool)
    ensures notices == [] <==> AcceptedFiles(value)
    ensures forall n :: n in notices <==> FilesFault(value, n)
    ensures invalid <==> BrokenFiles(value)
  {
    hide GoodRoot, RootNotices, RootFault;
    if !value.Arr? {
      return [UnsupportedConfigFiles("expected-array")], true;
    }
    if value.items == [] {
      return [UnsupportedConfigFiles("empty")], false;
    }
    notices, invalid := [], false;
    for i := 0 to |value.items|
      invariant notices == [] <==> forall k | 0 <= k < i :: value.items[k].Str? && GoodRoot(value.items[k].text)
      invariant forall n :: n in notices <==> exists k | 0 <= k < i :: ItemFault(value.items[k], n)
      invariant invalid <==> exists k | 0 <= k < i :: !value.items[k].Str?
    {
      ghost var before := notices;
      var item := value.items[i];
      if item.Str? {
        QuietRoot(item.text);
        notices := notices + RootNotices(item.text);
      } else {
        notices := notices + [UnsupportedConfigFiles("expected-string")];
        invalid := true;
      }
      forall n ensures n in notices <==> exists k | 0 <= k < i + 1 :: ItemFault(value.items[k], n) {
        assert n in notices <==> n in before || ItemFault(item, n);
      }
    }
  }

  // ------------------------------------------------------------------ the root object

  ghost predicate GoodProp(p: Prop) {
    (p.name == "files" && AcceptedFiles(p.value))
    || (p.name == "compilerOptions" && p.value.Obj? && AcceptedOptions(p.value.props))
  }

  lemma RootAccepted(props: seq<Prop>)
    ensures Accepted(props) <==>
            && DistinctNames(props) && (forall k | 0 <= k < |props| :: GoodProp(props[k]))
            && "files" in NamesOf(props) && "compilerOptions" in NamesOf(props)
  {
    hide AcceptedFiles, AcceptedOptions, GoodProp, Accepted;
    if DistinctNames(props) && (forall k | 0 <= k < |props| :: GoodProp(props[k]))
       && "files" in NamesOf(props) && "compilerOptions" in NamesOf(props) {
      GoodIsAccepted(props);
    }
    if Accepted(props) {
      AcceptedIsGood(props);
    }
  }

  lemma AcceptedIsGood(props: seq<Prop>)
    requires Accepted(props)
    ensures DistinctNames(props) && (forall k | 0 <= k < |props| :: GoodProp(props[k]))
    ensures "files" in NamesOf(props) && "compilerOptions" in NamesOf(props)
  {
    hide AcceptedFiles, AcceptedOptions;
    var files: Json, options: seq<Prop> :|
      multiset(props) == multiset{Prop("files", files), Prop("compilerOptions", Obj(options))}
      && AcceptedFiles(files) && AcceptedOptions(options);
    var f, o := Prop("files", files), Prop("compilerOptions", Obj(options));
    assert f.name != o.name && GoodProp(f) && GoodProp(o);
    TwoGoodProps(props, f, o);
  }

  lemma TwoGoodProps(props: seq<Prop>, f: Prop, o: Prop)
    requires multiset(props) == multiset{f, o} && f.name != o.name && GoodProp(f) && GoodProp(o)
    ensures DistinctNames(props) && (forall k | 0 <= k < |props| :: GoodProp(props[k]))
    ensures f.name in NamesOf(props) && o.name in NamesOf(props)
  {
    hide GoodProp;
    TwoProps(props, f, o);
    MultisetDistinct(props);
    forall k | 0 <= k < |props| ensures GoodProp(props[k]) {
      assert props[k] in props;
    }
  }

  lemma TwoProps(props: seq<Prop>, f: Prop, o: Prop)
    requires multiset(props) == multiset{f, o} && f != o
    ensures forall p :: p in props <==> p == f || p == o
    ensures forall p :: multiset(props)[p] <= 1
  {
    assert forall p :: p in props <==> p in multiset(props);
  }

  lemma GoodIsAccepted(props: seq<Prop>)
    requires DistinctNames(props) && (forall k | 0 <= k < |props| :: GoodProp(props[k]))
    requires "files" in NamesOf(props) && "compilerOptions" in NamesOf(props)
    ensures Accepted(props)
  {
    hide AcceptedFiles, AcceptedOptions;
    var f :| f in props && f.name == "files";
    var o :| o in props && o.name == "compilerOptions";
    forall p ensures p in props <==> p in {f, o} {
      if p in props {
        var k :| 0 <= k < |props| && props[k] == p;
        var a :| 0 <= a < |props| && props[a] == f;
        var b :| 0 <= b < |props| && props[b] == o;
        assert GoodProp(props[k]);
      }
    }
    DistinctMultiset(props, {f, o});
    assert multiset({f, o}) == multiset{f, o};
    assert GoodProp(f) && GoodProp(o);
    assert o == Prop("compilerOptions", Obj(o.value.props)) && f == Prop("files", f.value);
  }

  function FieldNotice(name: string): Notice {
    if name == "include" || name == "exclude" then UnsupportedConfigRootSelection(name) else UnsupportedConfigField(name)
  }

  /** What is wrong with one property of the root object. */
  ghost predicate PropFault(p: Prop, n: Notice) {
    if p.name == "compilerOptions" then
      if p.value.Obj? then OptionNoticed(p.value.props, |p.value.props|, n) || OptionMissing(p.value.props, n)
      else n == UnsupportedConfigField("compilerOptions expected-object")
    else if p.name == "files" then FilesFault(p.value, n)
    else if p.name in {"include", "exclude"} then n == UnsupportedConfigRootSelection(p.name)
    else n == UnsupportedConfigField(p.name)
  }

  ghost predicate PropNoticedAt(props: seq<Prop>, i: nat, n: Notice)
    requires i < |props|
  {
    if FirstNamed(props, i) then PropFault(props[i], n) else n == UnsupportedConfigField("duplicate-" + props[i].name)
  }

  ghost predicate PropNoticed(props: seq<Prop>, upTo: nat, n: Notice)
    requires upTo <= |props|
  {
    exists i | 0 <= i < upTo :: PropNoticedAt(props, i, n)
  }

  /** The first property of that name among the first ones, if its value passes. */
  ghost predicate HasFirst(props: seq<Prop>, upTo: nat, name: string, passes: Json -> bool)
    requires upTo <= |props|
  {
    exists i | 0 <= i < upTo :: FirstNamed(props, i) && props[i].name == name && passes(props[i].value)
  }

  ghost predicate RootObjectFault(props: seq<Prop>, n: Notice) {
    || PropNoticed(props, |props|, n)
    || ("files" !in NamesOf(props) && n == UnsupportedConfigFiles("missing"))
    || (!HasFirst(props, |props|, "compilerOptions", (v: Json) => v.Obj?) && OptionMissing([], n))
  }

  lemma PropNoticedStep(props: seq<Prop>, i: nat, notices: seq<Notice>, more: seq<Notice>)
    requires i < |props|
    requires forall n :: n in notices <==> PropNoticed(props, i, n)
    requires forall n :: n in more <==> PropNoticedAt(props, i, n)
    ensures forall n :: n in notices + more <==> PropNoticed(props, i + 1, n)
  {
    hide PropNoticedAt;
    forall n ensures n in notices + more <==> PropNoticed(props, i + 1, n) {
      if PropNoticed(props, i + 1, n) {
        var k :| 0 <= k < i + 1 && PropNoticedAt(props, k, n);
        assert k < i ==> PropNoticed(props, i, n);
      }
    }
  }

  lemma HasFirstStep(props: seq<Prop>, i: nat, name: string, passes: Json -> bool)
    requires i < |props|
    ensures HasFirst(props, i + 1, name, passes) <==>
            HasFirst(props, i, name, passes) || (FirstNamed(props, i) && props[i].name == name && passes(props[i].value))
  {
    if HasFirst(props, i + 1, name, passes) {
      var k :| 0 <= k < i + 1 && FirstNamed(props, k) && props[k].name == name && passes(props[k].value);
      assert k < i ==> HasFirst(props, i, name, passes);
    }
  }

  lemma NothingNoticed(props: seq<Prop>)
    ensures forall n :: !PropNoticed(props, 0, n)
    ensures forall n :: !OptionNoticed([], 0, n)
    ensures forall name, passes :: !HasFirst(props, 0, name, passes)
  {
  }

  /** The audit of one property that is not a duplicate. */
  method AuditProp(p: Prop) returns (notices: seq<Notice>, scalars: Option<Scalars>, invalid: bool)
    ensures notices == [] <==> GoodProp(p)
    ensures forall n :: n in notices <==> PropFault(p, n)
    ensures scalars.Some? <==> p.name == "compilerOptions" && p.value.Obj?
    ensures invalid <==> p.name == "files" && BrokenFiles(p.value)
    ensures notices == [] && p.name == "compilerOptions" ==> scalars == Some(Scalars(true, "ESNext"))
  {
    hide AcceptedFiles, AcceptedOptions;
    notices, scalars, invalid := [], None, false;
    if p.name == "compilerOptions" {
      if p.value.Obj? {
        var admitted;
        notices, admitted := AuditOptions(Some(p.value.props));
        scalars := Some(admitted);
      } else {
        notices := [UnsupportedConfigField("compilerOptions expected-object")];
      }
    } else if p.name == "files" {
      notices, invalid := AuditFiles(p.value);
    } else {
      notices := [FieldNotice(p.name)];
    }
  }

  /** Scalars are admitted exactly for the accepted object, whatever the order of its properties. */
  method AuditRootObject(props: seq<Prop>) returns (audit: Audit)
    ensures audit.admitted.Some? <==> Accepted(props)
    ensures audit.admitted.Some? <==> audit.notices == []
    ensures audit.admitted.Some? ==> audit.admitted.value == Scalars(true, "ESNext")
    ensures forall n :: n in audit.notices <==> RootObjectFault(props, n)
    ensures audit.invalidFilesSchema <==> HasFirst(props, |props|, "files", BrokenFiles)
  {
    hide Accepted, GoodProp, AcceptedOptions, NamesOf, DistinctNames, PropFault, PropNoticed, HasFirst, FirstNamed, OptionMissing, OptionNoticed, BrokenFiles;
    NothingNoticed(props);
    NoNames();
    assert props[..0] == [];
    var notices: seq<Notice> := [];
    var admitted: Option<Scalars> := None;
    var invalid, filesSeen := false, false;
    var seen: set<string> := {};
    for i := 0 to |props|
      invariant seen == NamesOf(props[..i])
      invariant notices == [] <==> DistinctNames(props[..i]) && forall k | 0 <= k < i :: GoodProp(props[k])
      invariant filesSeen <==> "files" in seen
      invariant admitted.Some? ==> "compilerOptions" in seen
      invariant notices == [] && "compilerOptions" in seen ==> admitted == Some(Scalars(true, "ESNext"))
      invariant forall n :: n in notices <==> PropNoticed(props, i, n)
      invariant admitted.Some? <==> HasFirst(props, i, "compilerOptions", (v: Json) => v.Obj?)
      invariant invalid <==> HasFirst(props, i, "files", BrokenFiles)
    {
      NamesStep(props, i);
      SeenBefore(props, i);
      HasFirstStep(props, i, "compilerOptions", (v: Json) => v.Obj?);
      HasFirstStep(props, i, "files", BrokenFiles);
      ghost var before := notices;
      var p := props[i];
      if p.name in seen {
        notices := notices + [UnsupportedConfigField("duplicate-" + p.name)];
      } else {
        var more, scalars, bad := AuditProp(p);
        notices := notices + more;
        admitted := if scalars.Some? then scalars else admitted;
        invalid := invalid || bad;
        filesSeen := filesSeen || p.name == "files";
      }
      seen := seen + {p.name};
      assert notices == before + notices[|before|..];
      PropNoticedStep(props, i, before, notices[|before|..]);
    }
    assert props[..|props|] == props;
    RootAccepted(props);
    if !filesSeen {
      notices := notices + [UnsupportedConfigFiles("missing")];
    }
    var scalars;
    if admitted.Some? {
      scalars := admitted.value;
    } else {
      var missing;
      missing, scalars := AuditOptions(None);
      notices := notices + missing;
    }
    audit := Audit(if notices == [] then Some(scalars) else None, notices, invalid);
  }

  // ------------------------------------------------------------------ root identities

  function Parts(cs: seq<Component>): (parts: seq<string>) {
    if cs == [] then [] else (if cs[0].Normal? then [cs[0].name] else []) + Parts(cs[1..])
  }

  /** The normalised name of a root. */
  function Identity(root: string): Option<string> {
    if Absolute(root) || ParentDir in Components(root) || Parts(Components(root)) == [] then None
    else Some(Join(Parts(Components(root)), '/'))
  }

  lemma {:induction false} LastNormal(cs: seq<Component>)
    requires cs != [] && cs[|cs| - 1].Normal?
    ensures Parts(cs) != []
  {
    if |cs| > 1 {
      LastNormal(cs[1..]);
    }
  }

  /** Every root of an accepted configuration has an identity. */
  lemma GoodRootHasIdentity(root: string)
    requires GoodRoot(root)
    ensures Identity(root).Some?
  {
    LastNormal(Components(root));
  }

  lemma {:induction false} LastPart(cs: seq<Component>)
    requires cs != [] && cs[|cs| - 1].Normal?
    ensures Parts(cs) != [] && Parts(cs)[|Parts(cs)| - 1] == cs[|cs| - 1].name
  {
    if |cs| > 1 {
      LastPart(cs[1..]);
    }
  }

  lemma {:induction false} JoinEndsWithLast(parts: seq<string>) returns (front: string)
    requires parts != []
    ensures Join(parts, '/') == front + parts[|parts| - 1]
    ensures front == [] || front[|front| - 1] == '/'
  {
    front := [];
    if |parts| > 1 {
      var rest := JoinEndsWithLast(parts[1..]);
      front := parts[0] + ['/'] + rest;
    }
  }

  lemma {:induction false} ComponentsEnd(segments: seq<string>, first: bool)
    requires segments != [] && segments[|segments| - 1] !in {"", ".", ".."}
    ensures var cs := ComponentsOf(segments, first); cs != [] && cs[|cs| - 1] == Normal(segments[|segments| - 1])
  {
    if |segments| > 1 {
      ComponentsEnd(segments[1..], false);
    }
  }

  lemma {:induction false} ParentIsComponent(segments: seq<string>, first: bool, i: nat)
    requires i < |segments| && segments[i] == ".."
    ensures ParentDir in ComponentsOf(segments, first)
  {
    if i > 0 {
      ParentIsComponent(segments[1..], false, i - 1);
    }
  }

  /** A suffix without the character that ends `front` lies within the name behind it. */
  lemma SuffixOfLast(front: string, name: string, suffix: string)
    requires front == [] || front[|front| - 1] !in suffix
    ensures suffix != [] ==> (EndsWith(front + name, suffix) <==> EndsWith(name, suffix))
  {
    var s := front + name;
    if |name| >= |suffix| {
      assert s[|s| - |suffix|..] == name[|name| - |suffix|..];
    } else if |s| >= |suffix| && front != [] {
      var i := |front| - 1 - (|s| - |suffix|);
      assert s[|s| - |suffix|..][i] == front[|front| - 1] && suffix[i] in suffix;
    }
  }

  /** Declaration files are refused by the spelling of the root, so the identity of an accepted root
      is one exactly when its file name is; such a root is spelt with a separator behind the name. */
  lemma WhenIdentityIsDeclaration(root: string)
    requires GoodRoot(root)
    ensures Identity(root).Some? && (EndsWith(Identity(root).value, ".d.ts") <==> EndsWith(FileName(root).value, ".d.ts"))
    ensures EndsWith(FileName(root).value, ".d.ts") ==> Split(root, '/')[|Split(root, '/')| - 1] in {"", "."}
  {
    hide EndsWith, Extension, ComponentsOf, Parts, Split, Join;
    GoodRootHasIdentity(root);
    LastPart(Components(root));
    var front := JoinEndsWithLast(Parts(Components(root)));
    SuffixOfLast(front, FileName(root).value, ".d.ts");
    LastSegment(root);
  }

  /** Unless it is empty or a dot, the last segment of an accepted root is its file name. */
  lemma LastSegment(root: string)
    requires GoodRoot(root)
    ensures EndsWith(FileName(root).value, ".d.ts") ==> Split(root, '/')[|Split(root, '/')| - 1] in {"", "."}
  {
    hide EndsWith, Extension, ComponentsOf, Split, Join;
    var segments := Split(root, '/');
    var last := segments[|segments| - 1];
    if last == ".." {
      ParentIsComponent(segments, true, |segments| - 1);
    } else if last !in {"", "."} {
      ComponentsEnd(segments, true);
      JoinSplit(root, '/');
      var before := JoinEndsWithLast(segments);
      SuffixOfLast(before, last, ".d.ts");
    }
  }

  /** One that is accepted and names a declaration file. */
  lemma AcceptedDeclaration()
    ensures GoodRoot("a.d.ts/") && Identity("a.d.ts/") == Some("a.d.ts")
  {
    hide Split, Join, Extension;
    DeclarationSegments();
    DeclarationExtension();
    var name := "a.d.ts";
    assert ComponentsOf([""], false) == [];
    assert [name, ""][1..] == [""];
    assert Components("a.d.ts/") == [Normal(name)];
    assert Parts([Normal(name)]) == [name];
    assert Join([name], '/') == name by {
      JoinOne(name);
    }
  }

  lemma JoinOne(s: string)
    ensures Join([s], '/') == s
  {
  }

  lemma DeclarationSegments()
    ensures Split("a.d.ts/", '/') == ["a.d.ts", ""]
  {
    SplitConcat("a.d.ts", '/', "");
    SplitWhole("a.d.ts", '/');
    SplitWhole("", '/');
    assert "a.d.ts" + ['/'] + "" == "a.d.ts/";
  }

  lemma DeclarationExtension()
    ensures Extension("a.d.ts") == Some("ts")
  {
    SplitConcat("a", '.', "d.ts");
    SplitConcat("d", '.', "ts");
    SplitWhole("ts", '.');
    assert "d" + ['.'] + "ts" == "d.ts";
    assert "a" + ['.'] + "d.ts" == "a.d.ts";
  }

  ghost predicate Ordered(s: seq<string>) {
    forall i, j | 0 <= i < j < |s| :: Text.AtMost(s[i], s[j]) && s[i] != s[j]
  }

  datatype ProjectRoot = ProjectRoot(identity: string, present: bool)

  /** What the file system says of a root: no such file, a file of the project, a file outside it by a
      symbolic link, or a path that cannot be resolved. */
  datatype Found = Missing | Inside | Outside | Unresolved

  function RootNotice(root: string, find: string -> Found): seq<Notice> {
    match Identity(root)
    case None => []
    case Some(id) =>
      match find(id)
      case Missing => [MissingConfiguredRoot(id)]
      case Outside => [UnsupportedConfigRoot("symlink-escape", id)]
      case _ => []
  }

  /** The notices of all configured roots, in order and once for each mention. */
  function RootsNotices(configured: seq<string>, find: string -> Found): seq<Notice> {
    if configured == [] then []
    else RootsNotices(configured[..|configured| - 1], find) + RootNotice(configured[|configured| - 1], find)
  }

  /** A missing root is noticed, and one outside the project. */
  ghost predicate LookupFault(root: string, find: string -> Found, n: Notice) {
    exists id :: Identity(root) == Some(id) &&
                 ((find(id) == Missing && n == MissingConfiguredRoot(id))
                  || (find(id) == Outside && n == UnsupportedConfigRoot("symlink-escape", id)))
  }

  lemma {:induction false} RootsNoticed(configured: seq<string>, find: string -> Found, n: Notice)
    ensures n in RootsNotices(configured, find) <==> exists i :: 0 <= i < |configured| && LookupFault(configured[i], find, n)
  {
    hide Identity;
    if configured != [] {
      var last, front := configured[|configured| - 1], configured[..|configured| - 1];
      RootsNoticed(front, find, n);
      assert n in RootNotice(last, find) <==> LookupFault(last, find, n);
    }
  }

  ghost predicate Resolves(configured: seq<string>, find: string -> Found) {
    forall i | 0 <= i < |configured| && Identity(configured[i]).Some? :: !find(Identity(configured[i]).value).Unresolved?
  }

  function RootIdentities(roots: seq<ProjectRoot>): (r: seq<string>)
    ensures |r| == |roots| && forall i | 0 <= i < |r| :: r[i] == roots[i].identity
  {
    seq(|roots|, i requires 0 <= i < |roots| => roots[i].identity)
  }

  method InsertRoot(roots: seq<ProjectRoot>, root: ProjectRoot) returns (r: seq<ProjectRoot>)
    requires Ordered(RootIdentities(roots)) && root.identity !in RootIdentities(roots)
    ensures Ordered(RootIdentities(r))
    ensures forall x :: x in r <==> x in roots || x == root
  {
    hide Text.AtMost, Ordered;
    var k := |roots|;
    while k > 0 && !Text.AtMost(roots[k - 1].identity, root.identity)
      invariant 0 <= k <= |roots| && forall j | k <= j < |roots| :: Text.AtMost(root.identity, roots[j].identity)
    {
      k := k - 1;
      Text.Total(roots[k].identity, root.identity);
    }
    r := roots[..k] + [root] + roots[k..];
    InsertedRoots(roots, k, root);
    InsertedOrdered(RootIdentities(roots), k, root.identity);
  }

  lemma InsertedRoots(roots: seq<ProjectRoot>, k: nat, root: ProjectRoot)
    requires k <= |roots|
    ensures var r := roots[..k] + [root] + roots[k..];
            && (forall x :: x in r <==> x in roots || x == root)
            && RootIdentities(r) == RootIdentities(roots)[..k] + [root.identity] + RootIdentities(roots)[k..]
  {
    assert roots == roots[..k] + roots[k..];
  }

  lemma InsertedOrdered(s: seq<string>, k: nat, x: string)
    requires Ordered(s) && k <= |s| && x !in s && (k > 0 ==> Text.AtMost(s[k - 1], x)) && forall j | k <= j < |s| :: Text.AtMost(x, s[j])
    ensures Ordered(s[..k] + [x] + s[k..])
  {
    hide Text.AtMost;
    forall i | 0 <= i < k ensures Text.AtMost(s[i], x) && s[i] != x {
      if i < k - 1 {
        Text.Transitive(s[i], s[k - 1], x);
      }
    }
  }

  /** The identities of the configured roots, each once and in order. */
  ghost predicate Normalized(configured: seq<string>, find: string -> Found, roots: seq<ProjectRoot>) {
    && Ordered(RootIdentities(roots))
    && (forall id :: id in RootIdentities(roots) <==> exists i :: 0 <= i < |configured| && Identity(configured[i]) == Some(id))
    && (forall r | r in roots :: r.present == !find(r.identity).Missing?)
  }

  /** A root is dropped only when it has no identity, and the walk fails exactly when a root cannot be
      resolved. */
  method NormalizeRoots(configured: seq<string>, find: string -> Found) returns (ok: bool, roots: seq<ProjectRoot>, notices: seq<Notice>)
    ensures ok <==> Resolves(configured, find)
    ensures ok ==> Normalized(configured, find, roots) && notices == RootsNotices(configured, find)
    ensures ok && (forall i | 0 <= i < |configured| :: GoodRoot(configured[i])) ==>
              forall i | 0 <= i < |configured| :: Identity(configured[i]).Some? && Identity(configured[i]).value in RootIdentities(roots)
  {
    hide Identity, GoodRoot, Normalized, RootNotice;
    roots, notices := [], [];
    NothingNormalized(find);
    for i := 0 to |configured|
      invariant Resolves(configured[..i], find) && notices == RootsNotices(configured[..i], find)
      invariant Normalized(configured[..i], find, roots)
    {
      assert configured[..i + 1][..i] == configured[..i];
      if Identity(configured[i]).Some? && find(Identity(configured[i]).value).Unresolved? {
        return false, roots, notices;
      }
      roots := NormalizeRoot(configured, i, find, roots);
      notices := notices + RootNotice(configured[i], find);
    }
    assert configured[..|configured|] == configured;
    GoodRootsAreKept(configured, find, roots);
    ok := true;
  }

  lemma NothingNormalized(find: string -> Found)
    ensures Normalized([], find, [])
  {
  }

  lemma GoodRootsAreKept(configured: seq<string>, find: string -> Found, roots: seq<ProjectRoot>)
    requires Normalized(configured, find, roots)
    ensures forall i | 0 <= i < |configured| && GoodRoot(configured[i]) ::
              Identity(configured[i]).Some? && Identity(configured[i]).value in RootIdentities(roots)
  {
    hide Identity, GoodRoot, Ordered;
    forall i | 0 <= i < |configured| && GoodRoot(configured[i])
      ensures Identity(configured[i]).Some? && Identity(configured[i]).value in RootIdentities(roots)
    {
      GoodRootHasIdentity(configured[i]);
    }
  }

  method NormalizeRoot(configured: seq<string>, i: nat, find: string -> Found, roots0: seq<ProjectRoot>) returns (roots: seq<ProjectRoot>)
    requires i < |configured| && Normalized(configured[..i], find, roots0)
    ensures Normalized(configured[..i + 1], find, roots)
  {
    hide Identity, Ordered;
    roots := roots0;
    var identity := Identity(configured[i]);
    if identity.Some? {
      roots := AddRoot(roots, ProjectRoot(identity.value, !find(identity.value).Missing?));
    }
    var earlier, now := configured[..i], configured[..i + 1];
    forall id
      ensures id in RootIdentities(roots) <==> exists k :: 0 <= k < |now| && Identity(now[k]) == Some(id)
    {
      assert id in RootIdentities(roots0) <==> exists k :: 0 <= k < |earlier| && Identity(earlier[k]) == Some(id);
      if id in RootIdentities(roots0) {
        var k :| 0 <= k < |earlier| && Identity(earlier[k]) == Some(id);
        assert now[k] == earlier[k];
      } else if identity == Some(id) {
        assert now[i] == configured[i];
      } else {
        forall k | 0 <= k < |now| ensures Identity(now[k]) != Some(id) {
          assert k < i ==> now[k] == earlier[k];
        }
      }
    }
  }

  /** The first root of an identity stays. */
  method AddRoot(roots0: seq<ProjectRoot>, root: ProjectRoot) returns (roots: seq<ProjectRoot>)
    requires Ordered(RootIdentities(roots0))
    ensures Ordered(RootIdentities(roots))
    ensures forall id :: id in RootIdentities(roots) <==> id in RootIdentities(roots0) || id == root.identity
    ensures forall r | r in roots :: r in roots0 || r == root
  {
    hide Ordered;
    roots := roots0;
    if exists r | r in roots :: r.identity == root.identity {
      KnownIdentity(roots, root.identity);
    } else {
      assert root.identity !in RootIdentities(roots);
      roots := InsertRoot(roots, root);
      SameIdentities(roots0, roots, root);
    }
  }

  lemma SameIdentities(before: seq<ProjectRoot>, after: seq<ProjectRoot>, root: ProjectRoot)
    requires forall x :: x in after <==> x in before || x == root
    ensures forall id :: id in RootIdentities(after) <==> id in RootIdentities(before) || id == root.identity
  {
    forall id ensures id in RootIdentities(after) <==> exists x :: x in after && x.identity == id {
      IdentityOf(after, id);
    }
    forall id ensures id in RootIdentities(before) <==> exists x :: x in before && x.identity == id {
      IdentityOf(before, id);
    }
  }

  lemma IdentityOf(roots: seq<ProjectRoot>, id: string)
    ensures id in RootIdentities(roots) <==> exists x :: x in roots && x.identity == id
  {
    if x :| x in roots && x.identity == id {
      var k :| 0 <= k < |roots| && roots[k] == x;
      assert RootIdentities(roots)[k] == id;
    }
    if id in RootIdentities(roots) {
      var k :| 0 <= k < |roots| && RootIdentities(roots)[k] == id;
      assert roots[k] in roots;
    }
  }

  lemma KnownIdentity(roots: seq<ProjectRoot>, id: string)
    requires exists r :: r in roots && r.identity == id
    ensures id in RootIdentities(roots)
  {
    IdentityOf(roots, id);
  }

  // ------------------------------------------------------------------ normalisation is stable

  ghost predicate PlainPart(s: string) {
    s != "" && s != "." && s != ".." && '/' !in s
  }

  lemma {:induction false} PartsArePlain(segments: seq<string>, first: bool)
    requires AllLack(segments, '/')
    ensures forall i | 0 <= i < |Parts(ComponentsOf(segments, first))| :: PlainPart(Parts(ComponentsOf(segments, first))[i])
  {
    if segments != [] {
      PartsArePlain(segments[1..], false);
      var s, rest := segments[0], ComponentsOf(segments[1..], false);
      var head := if s == "" then [] else if s == "." then (if first then [CurDir] else []) else if s == ".." then [ParentDir] else [Normal(s)];
      PartsJoin(head, rest);
    }
  }

  lemma {:induction false} PartsJoin(a: seq<Component>, b: seq<Component>)
    ensures Parts(a + b) == Parts(a) + Parts(b)
  {
    hide Parts;
    if a == [] {
      NoParts();
      assert a + b == b;
    } else {
      PartsJoin(a[1..], b);
      PartsFirst(a);
      PartsFirst(a + b);
      assert (a + b)[1..] == a[1..] + b;
    }
  }

  lemma NoParts()
    ensures Parts([]) == []
  {
  }

  lemma PartsFirst(cs: seq<Component>)
    requires cs != []
    ensures Parts(cs) == (if cs[0].Normal? then [cs[0].name] else []) + Parts(cs[1..])
  {
  }

  lemma {:induction false} PlainComponents(parts: seq<string>, first: bool)
    requires forall i | 0 <= i < |parts| :: PlainPart(parts[i])
    ensures Parts(ComponentsOf(parts, first)) == parts && ParentDir !in ComponentsOf(parts, first)
  {
    if parts != [] {
      PlainComponents(parts[1..], false);
      PartsJoin([Normal(parts[0])], ComponentsOf(parts[1..], false));
      assert Parts([Normal(parts[0])]) == [parts[0]] + Parts([]);
      assert parts == [parts[0]] + parts[1..];
    }
  }

  /** An identity is its own identity. */
  lemma IdentityIsStable(root: string)
    requires Identity(root).Some?
    ensures Identity(Identity(root).value) == Identity(root)
  {
    var parts := Parts(Components(root));
    SplitLacks(root, '/', '/');
    PartsArePlain(Split(root, '/'), true);
    SplitJoin(parts, '/');
    PlainComponents(parts, true);
    var id := Join(parts, '/');
    assert id[0] == parts[0][0] && parts[0][0] in parts[0];
  }

  // ------------------------------------------------------------------ what a root names

  /** The segments that name something: neither empty nor a dot. */
  ghost function Naming(segments: seq<string>): seq<string> {
    if segments == [] then []
    else (if segments[0] == "" || segments[0] == "." then [] else [segments[0]]) + Naming(segments[1..])
  }

  lemma {:induction false} PartsAreNaming(segments: seq<string>, first: bool)
    requires ".." !in segments
    ensures Parts(ComponentsOf(segments, first)) == Naming(segments)
  {
    if segments != [] {
      assert forall s | s in segments[1..] :: s in segments;
      PartsAreNaming(segments[1..], false);
      var s, rest := segments[0], ComponentsOf(segments[1..], false);
      var head := if s == "" then [] else if s == "." then (if first then [CurDir] else []) else [Normal(s)];
      assert ComponentsOf(segments, first) == head + rest;
      PartsJoin(head, rest);
      assert Parts(head) == if s == "" || s == "." then [] else [s];
    }
  }

  lemma {:induction false} NamingLacks(segments: seq<string>, c: char)
    requires AllLack(segments, c)
    ensures AllLack(Naming(segments), c)
  {
    if segments != [] {
      NamingLacks(segments[1..], c);
    }
  }

  /** The identity of a root is made of its naming segments, all of them and in order; it has none when
      it is absolute, climbs to a parent or names nothing. */
  lemma IdentityNamesTheRoot(root: string)
    ensures Identity(root).None? <==>
            (root != [] && root[0] == '/') || ".." in Split(root, '/') || Naming(Split(root, '/')) == []
    ensures Identity(root).Some? ==> Split(Identity(root).value, '/') == Naming(Split(root, '/'))
  {
    hide Split, Join, ComponentsOf, Parts, Naming;
    var segments := Split(root, '/');
    ParentSegment(root);
    if ".." !in segments {
      PartsAreNaming(segments, true);
      SplitLacks(root, '/', '/');
      NamingLacks(segments, '/');
      if Naming(segments) != [] {
        SplitJoin(Naming(segments), '/');
      }
    }
  }

  /** Two roots share an identity exactly when they name the same. */
  lemma SameIdentity(a: string, b: string)
    requires Identity(a).Some? && Identity(b).Some?
    ensures Identity(a) == Identity(b) <==> Naming(Split(a, '/')) == Naming(Split(b, '/'))
  {
    hide Split, Join, Identity, Naming;
    IdentityNamesTheRoot(a);
    IdentityNamesTheRoot(b);
    JoinSplit(Identity(a).value, '/');
    JoinSplit(Identity(b).value, '/');
  }

  /** A root is accepted exactly when it is relative, does not climb, and names a file `stem.ts` whose
      spelling does not end in `.d.ts`. */
  lemma GoodRootSpelled(root: string)
    ensures GoodRoot(root) <==>
            && !(root != [] && root[0] == '/') && ".." !in Split(root, '/')
            && (var names := Naming(Split(root, '/'));
                names != [] && exists stem :: stem != "" && names[|names| - 1] == stem + ".ts")
            && !(exists front :: root == front + ".d.ts")
  {
    hide Split, ComponentsOf, Naming, Extension;
    ParentSegment(root);
    Suffix(root, ".d.ts");
    if ".." !in Split(root, '/') {
      FileNameIsLast(Split(root, '/'), true);
      if FileName(root).Some? {
        TypeScriptExtension(FileName(root).value);
      }
    }
  }

  lemma Suffix(s: string, suffix: string)
    ensures EndsWith(s, suffix) <==> exists front :: s == front + suffix
  {
    if EndsWith(s, suffix) {
      assert s == s[..|s| - |suffix|] + suffix;
    }
  }

  lemma {:induction false} FileNameIsLast(segments: seq<string>, first: bool)
    requires ".." !in segments
    ensures var cs, names := ComponentsOf(segments, first), Naming(segments);
            if names == [] then cs == [] || cs == [CurDir] else cs != [] && cs[|cs| - 1] == Normal(names[|names| - 1])
    decreases |segments|
  {
    if segments != [] {
      assert forall s | s in segments[1..] :: s in segments;
      FileNameIsLast(segments[1..], false);
      NoLaterDot(segments[1..]);
    }
  }

  lemma {:induction false} NoLaterDot(segments: seq<string>)
    ensures CurDir !in ComponentsOf(segments, false)
  {
    if segments != [] {
      NoLaterDot(segments[1..]);
    }
  }

  lemma TypeScriptExtension(name: string)
    ensures Extension(name) == Some("ts") <==> exists stem :: stem != "" && name == stem + ".ts"
  {
    hide Split, Join;
    var parts := Split(name, '.');
    if stem :| stem != "" && name == stem + ".ts" {
      assert name == stem + ['.'] + "ts";
      SplitConcat(stem, '.', "ts");
      SplitWhole("ts", '.');
      JoinSplit(stem, '.');
      OnlyEmpty(stem);
    }
    if Extension(name) == Some("ts") {
      JoinSplit(name, '.');
      var front := JoinBeforeLast(parts, '.');
      assert name == front + ".ts";
      if front == "" {
        SplitConcat("", '.', "ts");
        SplitWhole("ts", '.');
        SplitWhole("", '.');
        assert "" + ['.'] + "ts" == name;
      }
    }
  }

  lemma OnlyEmpty(stem: string)
    requires stem != ""
    ensures Split(stem, '.') != [""]
  {
    JoinSplit(stem, '.');
  }

  lemma {:induction false} JoinBeforeLast(parts: seq<string>, sep: char) returns (front: string)
    requires |parts| > 1
    ensures Join(parts, sep) == front + [sep] + parts[|parts| - 1]
  {
    if |parts| == 2 {
      front := parts[0];
    } else {
      var rest := JoinBeforeLast(parts[1..], sep);
      front := parts[0] + [sep] + rest;
    }
  }
}
