/** The official-suite regression ratchet: the diagnostic diff of one test and the comparison of a run
    with the committed scoreboard. */
module Scoreboard {
  import opened Counting
  import opened Wrappers

  /** A diagnostic identity: line and code. */
  type Id = (nat, nat)

  // ------------------------------------------------------------------ diff of one test

  function OnLine(ids: seq<Id>, line: nat): seq<Id> {
    if ids == [] then []
    else (if ids[0].0 == line then [ids[0]] else []) + OnLine(ids[1..], line)
  }

  lemma {:induction false} OnLineCounts(ids: seq<Id>, line: nat, id: Id)
    ensures multiset(OnLine(ids, line))[id] == if id.0 == line then multiset(ids)[id] else 0
  {
    if ids != [] {
      OnLineCounts(ids[1..], line, id);
      assert ids == [ids[0]] + ids[1..];
    }
  }

  /** List a counter, each element as often as it counts. */
  method Elements(m: multiset<Id>) returns (s: seq<Id>)
    ensures multiset(s) == m
  {
    s := [];
    var rest := m;
    while rest != multiset{}
      invariant multiset(s) + rest == m
      decreases |rest|
    {
      var x :| x in rest;
      rest := rest - multiset{x};
      s := s + [x];
    }
  }

  datatype Diff = Diff(matched: seq<Id>, missed: seq<Id>, extra: seq<Id>)

  /** `m` is `whole` cut down to the lines in `done`. */
  ghost predicate CutTo(m: multiset<Id>, whole: multiset<Id>, done: set<nat>) {
    forall id: Id :: m[id] == if id.0 in done then whole[id] else 0
  }

  lemma CutStep(m: multiset<Id>, whole: multiset<Id>, done: set<nat>, line: nat, more: multiset<Id>)
    requires CutTo(m, whole, done) && line !in done && CutTo(more, whole, {line})
    ensures CutTo(m + more, whole, done + {line})
  {
  }

  lemma LineCut(expected: seq<Id>, actual: seq<Id>, line: nat)
    ensures var e, a := multiset(OnLine(expected, line)), multiset(OnLine(actual, line));
            && CutTo(e * a, multiset(expected) * multiset(actual), {line})
            && CutTo(e - a, multiset(expected) - multiset(actual), {line})
            && CutTo(a - e, multiset(actual) - multiset(expected), {line})
  {
    hide OnLine, CutTo;
    OnLineCut(expected, line);
    OnLineCut(actual, line);
    CutsCombine(multiset(OnLine(expected, line)), multiset(OnLine(actual, line)), multiset(expected), multiset(actual), line);
  }

  lemma OnLineCut(ids: seq<Id>, line: nat)
    ensures CutTo(multiset(OnLine(ids, line)), multiset(ids), {line})
  {
    hide OnLine;
    forall id: Id ensures multiset(OnLine(ids, line))[id] == if id.0 == line then multiset(ids)[id] else 0 {
      OnLineCounts(ids, line, id);
    }
  }

  lemma CutsCombine(e: multiset<Id>, a: multiset<Id>, expected: multiset<Id>, actual: multiset<Id>, line: nat)
    requires CutTo(e, expected, {line}) && CutTo(a, actual, {line})
    ensures CutTo(e * a, expected * actual, {line})
    ensures CutTo(e - a, expected - actual, {line}) && CutTo(a - e, actual - expected, {line})
  {
  }

  lemma CutToAll(m: multiset<Id>, whole: multiset<Id>, done: set<nat>)
    requires CutTo(m, whole, done) && forall id | id in whole :: id.0 in done
    ensures m == whole
  {
  }

  function LinesOf(ids: seq<Id>): (lines: set<nat>)
    ensures forall id | id in ids :: id.0 in lines
  {
    set id | id in ids :: id.0
  }

  /** The diff is complete on the lines in `done`. */
  ghost predicate Diffed(expected: seq<Id>, actual: seq<Id>, d: Diff, done: set<nat>) {
    && CutTo(multiset(d.matched), multiset(expected) * multiset(actual), done)
    && CutTo(multiset(d.missed), multiset(expected) - multiset(actual), done)
    && CutTo(multiset(d.extra), multiset(actual) - multiset(expected), done)
  }

  /** Line by line, in any order of the lines: what both sides have, what was missed, what is extra. */
  method DiffDiagnostics(expected: seq<Id>, actual: seq<Id>) returns (d: Diff)
    ensures multiset(d.matched) == multiset(expected) * multiset(actual)
    ensures multiset(d.missed) == multiset(expected) - multiset(actual)
    ensures multiset(d.extra) == multiset(actual) - multiset(expected)
  {
    hide Diffed, LinesOf;
    var lines := LinesOf(expected) + LinesOf(actual);
    ghost var done: set<nat> := {};
    d := Diff([], [], []);
    NothingDiffed(expected, actual);
    while lines != {}
      invariant lines !! done && lines + done == LinesOf(expected) + LinesOf(actual)
      invariant Diffed(expected, actual, d, done)
      decreases lines
    {
      var line :| line in lines;
      d := DiffLine(expected, actual, line, d, done);
      lines, done := lines - {line}, done + {line};
    }
    AllDiffed(expected, actual, d, done);
  }

  method DiffLine(expected: seq<Id>, actual: seq<Id>, line: nat, before: Diff, ghost done: set<nat>) returns (d: Diff)
    requires Diffed(expected, actual, before, done) && line !in done
    ensures Diffed(expected, actual, d, done + {line})
  {
    hide CutTo;
    var e, a := multiset(OnLine(expected, line)), multiset(OnLine(actual, line));
    LineCut(expected, actual, line);
    ghost var e0, a0 := multiset(expected), multiset(actual);
    CutStep(multiset(before.matched), e0 * a0, done, line, e * a);
    CutStep(multiset(before.missed), e0 - a0, done, line, e - a);
    CutStep(multiset(before.extra), a0 - e0, done, line, a - e);
    var both := Elements(e * a);
    var missed := Elements(e - a);
    var extra := Elements(a - e);
    d := Diff(before.matched + both, before.missed + missed, before.extra + extra);
  }

  lemma NothingDiffed(expected: seq<Id>, actual: seq<Id>)
    ensures Diffed(expected, actual, Diff([], [], []), {})
  {
  }

  lemma AllDiffed(expected: seq<Id>, actual: seq<Id>, d: Diff, done: set<nat>)
    requires Diffed(expected, actual, d, done) && done == LinesOf(expected) + LinesOf(actual)
    ensures multiset(d.matched) == multiset(expected) * multiset(actual)
    ensures multiset(d.missed) == multiset(expected) - multiset(actual)
    ensures multiset(d.extra) == multiset(actual) - multiset(expected)
  {
    hide CutTo, LinesOf;
    var e0, a0 := multiset(expected), multiset(actual);
    forall id | id in e0 || id in a0 ensures id.0 in done {
      assert id in expected || id in actual;
    }
    CutToAll(multiset(d.matched), e0 * a0, done);
    CutToAll(multiset(d.missed), e0 - a0, done);
    CutToAll(multiset(d.extra), a0 - e0, done);
  }

  /** Nothing is lost: matched and missed make up the expectation, matched and extra the output. */
  lemma DiffConserves(expected: seq<Id>, actual: seq<Id>, d: Diff)
    requires multiset(d.matched) == multiset(expected) * multiset(actual)
    requires multiset(d.missed) == multiset(expected) - multiset(actual)
    requires multiset(d.extra) == multiset(actual) - multiset(expected)
    ensures multiset(d.matched) + multiset(d.missed) == multiset(expected)
    ensures multiset(d.matched) + multiset(d.extra) == multiset(actual)
    ensures |d.matched| + |d.missed| == |expected| && |d.matched| + |d.extra| == |actual|
  {
    var m, e, a := multiset(d.matched), multiset(expected), multiset(actual);
    assert m + (e - a) == e;
    assert m + (a - e) == a;
    assert |m + (e - a)| == |m| + |e - a| && |m + (a - e)| == |m| + |a - e|;
    assert |multiset(d.matched)| == |d.matched| && |multiset(d.missed)| == |d.missed| && |multiset(d.extra)| == |d.extra|;
    assert |multiset(expected)| == |expected| && |multiset(actual)| == |actual|;
  }

  // ------------------------------------------------------------------ rows

  datatype Bucket = InScope | Unsupported | Excluded(name: string)

  datatype TestResult = TestResult(
    rel: string, bucket: Bucket, matched: seq<Id>, missed: nat, extra: seq<Id>, expected: nat, incomplete: seq<string>)

  datatype Ids = Ids(matched: multiset<Id>, extra: multiset<Id>, incomplete: multiset<string>)

  /** A committed row: counts and identities may be absent. */
  datatype BaseRow = BaseRow(
    status: string, matched: Option<nat>, missed: Option<nat>, extra: Option<nat>, expected: Option<nat>, ids: Option<Ids>)

  type Board = map<string, BaseRow>

  type Run = map<string, TestResult>

  const IN_STATUS := "IN"
  const UNSUPPORTED_STATUS := "OOS:unsupported"

  function StatusText(b: Bucket): string {
    match b {
      case InScope => IN_STATUS
      case Unsupported => UNSUPPORTED_STATUS
      case Excluded(name) => "OOS:" + name
    }
  }

  /** The row that saving a result leaves behind. */
  function Saved(r: TestResult): BaseRow {
    match r.bucket {
      case InScope =>
        BaseRow(IN_STATUS, Some(|r.matched|), Some(r.missed), Some(|r.extra|), Some(r.expected),
                Some(Ids(multiset(r.matched), multiset(r.extra), multiset{})))
      case Unsupported =>
        BaseRow(UNSUPPORTED_STATUS, Some(|r.matched|), Some(r.missed), Some(|r.extra|), Some(r.expected),
                Some(Ids(multiset(r.matched), multiset(r.extra), multiset(r.incomplete))))
      case Excluded(name) => BaseRow("OOS:" + name, None, None, None, None, None)
    }
  }

  function SavedRun(run: Run): Board {
    map rel | rel in run :: Saved(run[rel])
  }

  /** A bucket name that does not read back as another status. */
  predicate Plain(b: Bucket) {
    b.Excluded? ==> b.name != "unsupported"
  }

  ghost predicate PlainRun(run: Run) {
    forall rel | rel in run :: Plain(run[rel].bucket)
  }

  // ------------------------------------------------------------------ the ratchet

  predicate BaseIn(b: BaseRow) {
    b.status == IN_STATUS
  }

  predicate BaseUnsupported(b: BaseRow) {
    b.status == UNSUPPORTED_STATUS
  }

  /** Matched identities are kept and no false positive is added; a row without identities is held to
      its counts. */
  ghost predicate DiagnosticsKept(b: BaseRow, c: TestResult) {
    match b.ids {
      case Some(ids) => ids.matched <= multiset(c.matched) && multiset(c.extra) <= ids.extra
      case None => b.matched.Some? && b.extra.Some? && b.matched.value <= |c.matched| && |c.extra| <= b.extra.value
    }
  }

  ghost predicate IncompleteKept(b: BaseRow, c: TestResult) {
    (if b.ids.Some? then b.ids.value.incomplete else multiset{}) <= multiset(c.incomplete)
  }

  /** What the ratchet promises for one test: coverage never shrinks, and a diffed test keeps its
      diagnostics; an unsupported one that stays so keeps its surfaces. */
  ghost predicate RowKept(b: BaseRow, c: TestResult) {
    && (BaseIn(b) ==> c.bucket.InScope?)
    && (BaseUnsupported(b) ==> !c.bucket.Excluded?)
    && (BaseIn(b) || BaseUnsupported(b) ==> DiagnosticsKept(b, c))
    && (BaseUnsupported(b) && c.bucket.Unsupported? ==> IncompleteKept(b, c))
  }

  ghost predicate Passes(base: Board, cur: Run) {
    base.Keys == cur.Keys && forall rel | rel in base :: RowKept(base[rel], cur[rel])
  }

  /** The identity comparison of a diffed pair: is it a regression? */
  method DiagDelta(b: BaseRow, c: TestResult) returns (regressed: bool)
    ensures regressed <==> !DiagnosticsKept(b, c)
  {
    if b.ids.None? {
      if b.matched.None? || b.extra.None? {
        return true;
      }
      return |c.matched| < b.matched.value || |c.extra| > b.extra.value;
    }
    var lost := b.ids.value.matched - multiset(c.matched);
    var new_ := multiset(c.extra) - b.ids.value.extra;
    EmptyDifference(b.ids.value.matched, multiset(c.matched));
    EmptyDifference(multiset(c.extra), b.ids.value.extra);
    return lost != multiset{} || new_ != multiset{};
  }

  lemma EmptyDifference<T>(a: multiset<T>, b: multiset<T>)
    ensures a - b == multiset{} <==> a <= b
  {
    if a - b == multiset{} {
      forall x ensures a[x] <= b[x] {
        assert (a - b)[x] == 0;
      }
    }
  }

  method IncompleteDelta(b: BaseRow, c: TestResult) returns (regressed: bool)
    ensures regressed <==> !IncompleteKept(b, c)
  {
    var before := if b.ids.Some? then b.ids.value.incomplete else multiset{};
    EmptyDifference(before, multiset(c.incomplete));
    return before - multiset(c.incomplete) != multiset{};
  }

  /** The branch taken for one test that both sides know. */
  method CompareRow(b: BaseRow, c: TestResult) returns (regressed: bool)
    ensures regressed <==> !RowKept(b, c)
  {
    var baseIn, baseUnsupported := BaseIn(b), BaseUnsupported(b);
    var curIn, curUnsupported := c.bucket.InScope?, c.bucket.Unsupported?;
    regressed := false;
    if baseIn && curIn {
      regressed := DiagDelta(b, c);
    } else if baseUnsupported && curUnsupported {
      var diag := DiagDelta(b, c);
      var surfaces := IncompleteDelta(b, c);
      regressed := diag || surfaces;
    } else if baseIn && curUnsupported {
      regressed := true;
    } else if baseUnsupported && curIn {
      regressed := DiagDelta(b, c);
    } else if (baseIn || baseUnsupported) && !(curIn || curUnsupported) {
      regressed := true;
    }
  }

  ghost predicate KeptAt(base: Board, cur: Run, rel: string) {
    rel in base && rel in cur && RowKept(base[rel], cur[rel])
  }

  /** Every test of either side is compared; tests known to one side only are regressions too. */
  method CompareScoreboard(base: Board, cur: Run) returns (passed: bool, missingFromCorpus: nat, missingFromBoard: nat)
    ensures passed <==> Passes(base, cur)
    ensures missingFromCorpus == |base.Keys - cur.Keys| && missingFromBoard == |cur.Keys - base.Keys|
  {
    hide Tally, Passes;
    missingFromCorpus, missingFromBoard := 0, 0;
    var regressions := 0;
    var names := Listing(base.Keys + cur.Keys);
    ghost var seen: set<string> := {};
    NothingTallied(base, cur);
    for i := 0 to |names|
      invariant seen == SetOf(names[..i])
      invariant Tally(base, cur, seen, regressions, missingFromCorpus, missingFromBoard)
    {
      NextMember(names, i);
      regressions, missingFromCorpus, missingFromBoard :=
        CompareTest(base, cur, names[i], seen, regressions, missingFromCorpus, missingFromBoard);
      seen := seen + {names[i]};
    }
    passed := regressions == 0;
    assert names[..|names|] == names;
    AllTallied(base, cur, seen, regressions, missingFromCorpus, missingFromBoard);
  }

  lemma NextMember<T>(s: seq<T>, i: nat)
    requires i < |s| && Distinct(s)
    ensures s[i] !in SetOf(s[..i]) && SetOf(s[..i + 1]) == SetOf(s[..i]) + {s[i]} && s[i] in SetOf(s)
  {
    assert s[..i + 1] == s[..i] + [s[i]];
  }

  /** The elements of a set, in some order. */
  method Listing<T(==)>(all: set<T>) returns (s: seq<T>)
    ensures Distinct(s) && SetOf(s) == all
  {
    s := [];
    var left := all;
    while left != {}
      invariant Distinct(s) && SetOf(s) == all - left && left <= all
      decreases left
    {
      var x :| x in left;
      assert x !in SetOf(s) && SetOf(s + [x]) == SetOf(s) + {x};
      left, s := left - {x}, s + [x];
    }
  }

  /** What the counters say about the tests compared so far. */
  ghost predicate Tally(base: Board, cur: Run, seen: set<string>, regressions: nat, noCorpus: nat, noBoard: nat) {
    && (regressions == 0 <==> forall rel | rel in seen :: KeptAt(base, cur, rel))
    && noCorpus == |(base.Keys - cur.Keys) * seen| && noBoard == |(cur.Keys - base.Keys) * seen|
  }

  lemma NothingTallied(base: Board, cur: Run)
    ensures Tally(base, cur, {}, 0, 0, 0)
  {
    assert (base.Keys - cur.Keys) * {} == {} && (cur.Keys - base.Keys) * {} == {};
  }

  lemma TallyStep(base: Board, cur: Run, seen: set<string>, regressions: nat, noCorpus: nat, noBoard: nat, rel: string)
    requires Tally(base, cur, seen, regressions, noCorpus, noBoard) && rel !in seen && (rel in base || rel in cur)
    ensures Tally(base, cur, seen + {rel}, regressions + if KeptAt(base, cur, rel) then 0 else 1,
                  noCorpus + if rel !in cur then 1 else 0, noBoard + if rel in cur && rel !in base then 1 else 0)
  {
    hide KeptAt;
    CountOne(base.Keys - cur.Keys, seen, rel);
    CountOne(cur.Keys - base.Keys, seen, rel);
  }

  lemma AllTallied(base: Board, cur: Run, seen: set<string>, regressions: nat, noCorpus: nat, noBoard: nat)
    requires Tally(base, cur, seen, regressions, noCorpus, noBoard) && seen == base.Keys + cur.Keys
    ensures regressions == 0 <==> Passes(base, cur)
    ensures noCorpus == |base.Keys - cur.Keys| && noBoard == |cur.Keys - base.Keys|
  {
    hide KeptAt;
    SameKeys(base, cur, seen);
    assert (base.Keys - cur.Keys) * seen == base.Keys - cur.Keys;
    assert (cur.Keys - base.Keys) * seen == cur.Keys - base.Keys;
  }

  method CompareTest(base: Board, cur: Run, rel: string, ghost seen: set<string>, regressions0: nat, noCorpus0: nat, noBoard0: nat)
      returns (regressions: nat, noCorpus: nat, noBoard: nat)
    requires Tally(base, cur, seen, regressions0, noCorpus0, noBoard0) && rel !in seen && (rel in base || rel in cur)
    ensures Tally(base, cur, seen + {rel}, regressions, noCorpus, noBoard)
  {
    hide Tally, RowKept;
    regressions, noCorpus, noBoard := regressions0, noCorpus0, noBoard0;
    TallyStep(base, cur, seen, regressions0, noCorpus0, noBoard0, rel);
    if rel !in cur {
      regressions, noCorpus := regressions + 1, noCorpus + 1;
    } else if rel !in base {
      regressions, noBoard := regressions + 1, noBoard + 1;
    } else {
      var regressed := CompareRow(base[rel], cur[rel]);
      if regressed {
        regressions := regressions + 1;
      }
    }
  }

  lemma SameKeys(base: Board, cur: Run, seen: set<string>)
    requires seen == base.Keys + cur.Keys
    ensures Passes(base, cur) <==> forall rel | rel in seen :: KeptAt(base, cur, rel)
  {
    hide RowKept;
    if forall rel | rel in seen :: KeptAt(base, cur, rel) {
      assert forall rel | rel in base.Keys :: rel in seen;
      assert forall rel | rel in cur.Keys :: rel in seen;
      assert base.Keys == cur.Keys;
    }
  }

  lemma CountOne(s: set<string>, seen: set<string>, x: string)
    requires x !in seen
    ensures |s * (seen + {x})| == |s * seen| + if x in s then 1 else 0
  {
    if x in s {
      assert s * (seen + {x}) == s * seen + {x};
    } else {
      assert s * (seen + {x}) == s * seen;
    }
  }

  // ------------------------------------------------------------------ laws

  lemma SavedStatus(r: TestResult)
    requires Plain(r.bucket)
    ensures BaseIn(Saved(r)) <==> r.bucket.InScope?
    ensures BaseUnsupported(Saved(r)) <==> r.bucket.Unsupported?
  {
    if r.bucket.Excluded? {
      var s := "OOS:" + r.bucket.name;
      assert s[0] == 'O' && IN_STATUS[0] == 'I';
      assert s[4..] == r.bucket.name && UNSUPPORTED_STATUS[4..] == "unsupported";
    }
  }

  lemma RowReflexive(r: TestResult)
    requires Plain(r.bucket)
    ensures RowKept(Saved(r), r)
  {
    SavedStatus(r);
  }

  lemma RowTransitive(b: BaseRow, r: TestResult, s: TestResult)
    requires Plain(r.bucket) && RowKept(b, r) && RowKept(Saved(r), s)
    ensures RowKept(b, s)
  {
    SavedStatus(r);
    if !r.bucket.Excluded? {
      FewerElements(multiset(r.matched), multiset(s.matched));
      FewerElements(multiset(s.extra), multiset(r.extra));
      assert |multiset(r.matched)| == |r.matched| && |multiset(s.matched)| == |s.matched|;
      assert |multiset(r.extra)| == |r.extra| && |multiset(s.extra)| == |s.extra|;
    }
  }

  lemma FewerElements<T>(a: multiset<T>, b: multiset<T>)
    requires a <= b
    ensures |a| <= |b|
  {
    assert b == a + (b - a);
  }

  /** A run passes against its own saved board. */
  lemma PassesReflexive(run: Run)
    requires PlainRun(run)
    ensures Passes(SavedRun(run), run)
  {
    forall rel | rel in run ensures RowKept(SavedRun(run)[rel], run[rel]) {
      RowReflexive(run[rel]);
    }
  }

  /** Passing against a passing run's saved board is passing against the original one. */
  lemma PassesTransitive(base: Board, mid: Run, cur: Run)
    requires PlainRun(mid) && Passes(base, mid) && Passes(SavedRun(mid), cur)
    ensures Passes(base, cur)
  {
    hide RowKept;
    forall rel | rel in base ensures rel in cur && RowKept(base[rel], cur[rel]) {
      assert rel in mid && rel in SavedRun(mid);
      RowTransitive(base[rel], mid[rel], cur[rel]);
    }
    assert SavedRun(mid).Keys == mid.Keys;
  }

  /** A sequence of runs, each saved as the baseline of the next. */
  ghost predicate Accepted(runs: seq<Run>) {
    && (forall i | 0 <= i < |runs| :: PlainRun(runs[i]))
    && (forall i | 0 <= i < |runs| - 1 :: Passes(SavedRun(runs[i]), runs[i + 1]))
  }

  lemma {:induction false} ChainPasses(runs: seq<Run>, i: nat, j: nat)
    requires Accepted(runs) && i <= j < |runs|
    ensures Passes(SavedRun(runs[i]), runs[j])
    decreases j - i
  {
    if i == j {
      PassesReflexive(runs[i]);
    } else {
      ChainPasses(runs, i, j - 1);
      assert Passes(SavedRun(runs[j - 1]), runs[j - 1 + 1]);
      PassesTransitive(SavedRun(runs[i]), runs[j - 1], runs[j]);
    }
  }

  /** Along any accepted chain: the corpus is fixed, an in-scope test stays in scope, a diffed one stays
      diffed, no matched identity loses multiplicity and no false positive gains any. */
  lemma ChainKeeps(runs: seq<Run>, i: nat, j: nat, rel: string)
    requires Accepted(runs) && i <= j < |runs| && rel in runs[i]
    ensures rel in runs[j]
    ensures runs[i][rel].bucket.InScope? ==> runs[j][rel].bucket.InScope?
    ensures !runs[i][rel].bucket.Excluded? ==> !runs[j][rel].bucket.Excluded?
    ensures !runs[i][rel].bucket.Excluded? ==> multiset(runs[i][rel].matched) <= multiset(runs[j][rel].matched)
    ensures !runs[i][rel].bucket.Excluded? ==> multiset(runs[j][rel].extra) <= multiset(runs[i][rel].extra)
    ensures runs[i][rel].bucket.Unsupported? && runs[j][rel].bucket.Unsupported? ==>
              multiset(runs[i][rel].incomplete) <= multiset(runs[j][rel].incomplete)
  {
    ChainPasses(runs, i, j);
    var base := SavedRun(runs[i]);
    assert rel in base && RowKept(base[rel], runs[j][rel]);
    SavedStatus(runs[i][rel]);
  }

  /** The same number of other diagnostics is not enough. */
  lemma SwapIsCaught(before: TestResult, after: TestResult)
    requires before.bucket.InScope? && |before.matched| == |after.matched| && multiset(before.matched) != multiset(after.matched)
    ensures !RowKept(Saved(before), after)
  {
    if multiset(before.matched) <= multiset(after.matched) {
      SameSize(before.matched, after.matched);
    }
  }

  /** A row without identities is held to its counts: one that keeps its identities keeps those too. */
  lemma CountsAreWeaker(before: TestResult, after: TestResult)
    requires before.bucket != Excluded("unsupported") && !before.bucket.Excluded? && RowKept(Saved(before), after)
    ensures RowKept(Saved(before).(ids := None), after)
  {
    SubsetSize(before.matched, after.matched);
    SubsetSize(after.extra, before.extra);
  }

  lemma SubsetSize(a: seq<Id>, b: seq<Id>)
    requires multiset(a) <= multiset(b)
    ensures |a| <= |b|
  {
    var rest := multiset(b) - multiset(a);
    assert multiset(b) == multiset(a) + rest;
    assert |multiset(a)| == |a| && |multiset(b)| == |b|;
  }

  /** A row without identities passes exactly on its counts, whatever the diagnostics are, and one
      without counts never does. */
  lemma CountsDecide(b: BaseRow, c: TestResult)
    requires b.ids.None? && b.status == IN_STATUS
    ensures RowKept(b, c) <==>
            && c.bucket.InScope?
            && b.matched.Some? && |c.matched| >= b.matched.value
            && b.extra.Some? && |c.extra| <= b.extra.value
  {
  }

  /** So a swap of diagnostics that identities catch goes unnoticed where only counts are recorded. */
  lemma SwapEscapesCounts(before: TestResult, after: TestResult)
    requires before.bucket.InScope? && after.bucket.InScope?
    requires |before.matched| == |after.matched| && |before.extra| == |after.extra| && multiset(before.matched) != multiset(after.matched)
    ensures RowKept(Saved(before).(ids := None), after) && !RowKept(Saved(before), after)
  {
    SwapIsCaught(before, after);
  }

  lemma SameSize(a: seq<Id>, b: seq<Id>)
    requires multiset(a) <= multiset(b) && |a| == |b|
    ensures multiset(a) == multiset(b)
  {
    var rest := multiset(b) - multiset(a);
    assert multiset(b) == multiset(a) + rest;
    assert |multiset(a)| == |a| && |multiset(b)| == |b|;
    assert |rest| == 0;
  }
}
