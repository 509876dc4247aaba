/** The differential comparator: what the allowlist cancels, what survives it, and the frozen id lists. */
module Differential {
  import opened Wrappers
  import ScoreboardText
  import Text

  datatype Diag = Diag(line: nat, column: nat, code: nat, message: string)

  /** A cancellation rule: a code of one side, of the other, or a pair. */
  datatype Rule = Rule(tk: Option<nat>, ts: Option<nat>)

  /** What is left on one line: codes only typokat has, and codes only tsc has. */
  datatype Surplus = Surplus(tk: multiset<nat>, ts: multiset<nat>)

  // ------------------------------------------------------------------ rules

  predicate Paired(r: Rule) {
    r.tk.Some? && r.ts.Some?
  }

  predicate OneSided(r: Rule) {
    r.tk.Some? != r.ts.Some?
  }

  /** How often a rule cancels. */
  function Taken(r: Rule, s: Surplus): nat {
    if Paired(r) then (if s.tk[r.tk.value] < s.ts[r.ts.value] then s.tk[r.tk.value] else s.ts[r.ts.value])
    else if r.tk.Some? then s.tk[r.tk.value]
    else if r.ts.Some? then s.ts[r.ts.value]
    else 0
  }

  function Apply(r: Rule, s: Surplus): Surplus {
    var n := Taken(r, s);
    Surplus(if r.tk.Some? then s.tk[r.tk.value := s.tk[r.tk.value] - n] else s.tk,
            if r.ts.Some? then s.ts[r.ts.value := s.ts[r.ts.value] - n] else s.ts)
  }

  function ApplyAll(rules: seq<Rule>, s: Surplus): Surplus {
    if rules == [] then s else Apply(rules[|rules| - 1], ApplyAll(rules[..|rules| - 1], s))
  }

  function Select(rules: seq<Rule>, keep: Rule -> bool): seq<Rule> {
    if rules == [] then []
    else Select(rules[..|rules| - 1], keep) + if keep(rules[|rules| - 1]) then [rules[|rules| - 1]] else []
  }

  /** Paired rules go first, so that a one-sided rule does not eat a code a pair needs. */
  function InOrder(rules: seq<Rule>): seq<Rule> {
    Select(rules, Paired) + Select(rules, OneSided)
  }

  function Residue(rules: seq<Rule>, s: Surplus): Surplus {
    ApplyAll(InOrder(rules), s)
  }

  /** What the rules that name a code on one side cancelled of it. */
  function CancelledTk(rules: seq<Rule>, s: Surplus, code: nat): nat {
    if rules == [] then 0
    else
      var last, before := rules[|rules| - 1], rules[..|rules| - 1];
      CancelledTk(before, s, code) + if last.tk == Some(code) then Taken(last, ApplyAll(before, s)) else 0
  }

  function CancelledTs(rules: seq<Rule>, s: Surplus, code: nat): nat {
    if rules == [] then 0
    else
      var last, before := rules[|rules| - 1], rules[..|rules| - 1];
      CancelledTs(before, s, code) + if last.ts == Some(code) then Taken(last, ApplyAll(before, s)) else 0
  }

  lemma {:induction false} ApplyConserves(rules: seq<Rule>, s: Surplus, code: nat)
    ensures s.tk[code] == ApplyAll(rules, s).tk[code] + CancelledTk(rules, s, code)
    ensures s.ts[code] == ApplyAll(rules, s).ts[code] + CancelledTs(rules, s, code)
  {
    if rules != [] {
      ApplyConserves(rules[..|rules| - 1], s, code);
    }
  }

  /** Nothing disappears: the surplus of every code is what the rules cancelled plus the residue. */
  lemma ResidueConserves(rules: seq<Rule>, s: Surplus, code: nat)
    ensures s.tk[code] == Residue(rules, s).tk[code] + CancelledTk(InOrder(rules), s, code)
    ensures s.ts[code] == Residue(rules, s).ts[code] + CancelledTs(InOrder(rules), s, code)
  {
    ApplyConserves(InOrder(rules), s, code);
  }

  lemma {:induction false} Selected(rules: seq<Rule>, keep: Rule -> bool)
    ensures forall r | r in Select(rules, keep) :: r in rules && keep(r)
  {
    if rules != [] {
      Selected(rules[..|rules| - 1], keep);
    }
  }

  lemma {:induction false} UnnamedStays(rules: seq<Rule>, s: Surplus, code: nat)
    ensures (forall r | r in rules :: r.tk != Some(code)) ==> ApplyAll(rules, s).tk[code] == s.tk[code]
    ensures (forall r | r in rules :: r.ts != Some(code)) ==> ApplyAll(rules, s).ts[code] == s.ts[code]
  {
    if rules != [] {
      UnnamedStays(rules[..|rules| - 1], s, code);
      assert rules[|rules| - 1] in rules;
      assert forall r | r in rules[..|rules| - 1] :: r in rules;
    }
  }

  /** A code that no rule names on its side survives in full. */
  lemma UnnamedSurvives(rules: seq<Rule>, s: Surplus, code: nat)
    ensures (forall r | r in rules :: r.tk != Some(code)) ==> Residue(rules, s).tk[code] == s.tk[code]
    ensures (forall r | r in rules :: r.ts != Some(code)) ==> Residue(rules, s).ts[code] == s.ts[code]
  {
    Selected(rules, Paired);
    Selected(rules, OneSided);
    UnnamedStays(InOrder(rules), s, code);
  }

  // ------------------------------------------------------------------ order of rules

  ghost predicate Within(a: Surplus, b: Surplus) {
    a.tk <= b.tk && a.ts <= b.ts
  }

  lemma {:induction false} ApplyJoin(a: seq<Rule>, b: seq<Rule>, s: Surplus)
    ensures ApplyAll(a + b, s) == ApplyAll(b, ApplyAll(a, s))
  {
    if b == [] {
      assert a + b == a;
    } else {
      ApplyJoin(a, b[..|b| - 1], s);
      assert (a + b)[..|a + b| - 1] == a + b[..|b| - 1];
    }
  }

  lemma ApplyShrinks(r: Rule, s: Surplus)
    ensures Within(Apply(r, s), s)
  {
  }

  lemma {:induction false} OneSidedMonotone(rules: seq<Rule>, a: Surplus, b: Surplus)
    requires Within(a, b) && forall r | r in rules :: OneSided(r)
    ensures Within(ApplyAll(rules, a), ApplyAll(rules, b))
  {
    if rules != [] {
      OneSidedMonotone(rules[..|rules| - 1], a, b);
      assert OneSided(rules[|rules| - 1]);
    }
  }

  /** Appending a rule never enlarges the residue of a line. */
  lemma AppendingNeverEnlarges(rules: seq<Rule>, r: Rule, s: Surplus)
    ensures Within(Residue(rules + [r], s), Residue(rules, s))
  {
    hide Apply, ApplyAll, Within;
    var more := rules + [r];
    assert more[..|rules|] == rules;
    var pairs, singles := Select(rules, Paired), Select(rules, OneSided);
    Selected(rules, OneSided);
    ApplyJoin(pairs, singles, s);
    if Paired(r) {
      assert Select(more, Paired) == pairs + [r] && Select(more, OneSided) == singles;
      ApplyJoin(pairs + [r], singles, s);
      ApplyJoin(pairs, [r], s);
      ApplyOne(r, ApplyAll(pairs, s));
      ApplyShrinks(r, ApplyAll(pairs, s));
      OneSidedMonotone(singles, ApplyAll(pairs + [r], s), ApplyAll(pairs, s));
    } else if OneSided(r) {
      assert Select(more, Paired) == pairs && Select(more, OneSided) == singles + [r];
      assert InOrder(more) == InOrder(rules) + [r];
      ApplyJoin(InOrder(rules), [r], s);
      ApplyOne(r, Residue(rules, s));
      ApplyShrinks(r, Residue(rules, s));
    } else {
      assert InOrder(more) == InOrder(rules);
      WithinSelf(Residue(rules, s));
    }
  }

  lemma ApplyOne(r: Rule, s: Surplus)
    ensures ApplyAll([r], s) == Apply(r, s)
  {
    assert [r][..0] == [];
  }

  lemma WithinSelf(s: Surplus)
    ensures Within(s, s)
  {
  }

  // ------------------------------------------------------------------ comparing with tsc

  function CodesOn(diags: seq<Diag>, line: nat): multiset<nat> {
    if diags == [] then multiset{}
    else CodesOn(diags[1..], line) + if diags[0].line == line then multiset{diags[0].code} else multiset{}
  }

  function SurplusOn(tk: seq<Diag>, ts: seq<Diag>, line: nat): Surplus {
    Surplus(CodesOn(tk, line) - CodesOn(ts, line), CodesOn(ts, line) - CodesOn(tk, line))
  }

  /** How many diagnostics show a code on a line. */
  ghost function CountOn(diags: seq<Diag>, line: nat, code: nat): nat {
    if diags == [] then 0
    else CountOn(diags[1..], line, code) + if diags[0].line == line && diags[0].code == code then 1 else 0
  }

  lemma {:induction false} CodesAreCounted(diags: seq<Diag>, line: nat, code: nat)
    ensures CodesOn(diags, line)[code] == CountOn(diags, line, code)
  {
    if diags != [] {
      CodesAreCounted(diags[1..], line, code);
    }
  }

  /** What typokat shows more often than tsc on a line is surplus of typokat, and the other way round. */
  lemma SurplusMeans(tk: seq<Diag>, ts: seq<Diag>, line: nat, code: nat)
    ensures var a, b, s := CountOn(tk, line, code), CountOn(ts, line, code), SurplusOn(tk, ts, line);
            s.tk[code] == (if a > b then a - b else 0) && s.ts[code] == (if b > a then b - a else 0)
  {
    CodesAreCounted(tk, line, code);
    CodesAreCounted(ts, line, code);
  }

  predicate Empty(s: Surplus) {
    s.tk == multiset{} && s.ts == multiset{}
  }

  /** How often each rule cancels when they are applied in turn. */
  function Hits(rules: seq<Rule>, s: Surplus): multiset<Rule> {
    if rules == [] then multiset{}
    else
      var last, before := rules[|rules| - 1], rules[..|rules| - 1];
      var hits := Hits(before, s);
      hits[last := hits[last] + Taken(last, ApplyAll(before, s))]
  }

  /** A rule was hit exactly when something was cancelled. */
  lemma {:induction false} NoHitNoChange(rules: seq<Rule>, s: Surplus)
    ensures Within(ApplyAll(rules, s), s)
    ensures Hits(rules, s) == multiset{} <==> ApplyAll(rules, s) == s
  {
    if rules != [] {
      var last, before := rules[|rules| - 1], rules[..|rules| - 1];
      NoHitNoChange(before, s);
      HitChanges(last, ApplyAll(before, s), s);
      assert Hits(rules, s)[last] >= Taken(last, ApplyAll(before, s));
      if Taken(last, ApplyAll(before, s)) == 0 {
        assert Hits(rules, s) == Hits(before, s);
      }
    }
  }

  /** The rules on one line, by decrementing the two counters and counting the hits. */
  method CancelLine(rules: seq<Rule>, start: Surplus, hits0: multiset<Rule>) returns (left: Surplus, hits: multiset<Rule>)
    ensures left == Residue(rules, start)
    ensures hits == hits0 + Hits(InOrder(rules), start)
  {
    hide Apply;
    left, hits := start, hits0;
    var ordered := InOrder(rules);
    for i := 0 to |ordered|
      invariant left == ApplyAll(ordered[..i], start)
      invariant hits == hits0 + Hits(ordered[..i], start)
    {
      assert ordered[..i + 1][..i] == ordered[..i];
      hits := hits[ordered[i] := hits[ordered[i]] + Taken(ordered[i], left)];
      left := Apply(ordered[i], left);
    }
    assert ordered[..|ordered|] == ordered;
  }

  lemma HitChanges(r: Rule, s: Surplus, start: Surplus)
    requires Within(s, start)
    ensures Within(Apply(r, s), start)
    ensures Apply(r, s) != start <==> s != start || Taken(r, s) > 0
  {
    var t := Apply(r, s);
    if Taken(r, s) > 0 {
      if r.tk.Some? {
        assert t.tk[r.tk.value] < s.tk[r.tk.value] <= start.tk[r.tk.value];
      } else {
        assert t.ts[r.ts.value] < s.ts[r.ts.value] <= start.ts[r.ts.value];
      }
    } else {
      assert t == s;
    }
  }

  function Lines(diags: seq<Diag>): (lines: set<nat>)
    ensures forall d | d in diags :: d.line in lines
  {
    set d | d in diags :: d.line
  }

  lemma {:induction false} CodesShow(diags: seq<Diag>, line: nat)
    ensures line in Lines(diags) <==> CodesOn(diags, line) != multiset{}
  {
    if diags != [] {
      CodesShow(diags[1..], line);
      assert Lines(diags) == Lines(diags[1..]) + {diags[0].line};
      if diags[0].line == line {
        assert diags[0].code in CodesOn(diags, line);
      }
    }
  }

  lemma {:induction false} SilentElsewhere(diags: seq<Diag>, line: nat)
    requires line !in Lines(diags)
    ensures CodesOn(diags, line) == multiset{}
  {
    if diags != [] {
      assert diags[0] in diags;
      assert forall d | d in diags[1..] :: d in diags;
      SilentElsewhere(diags[1..], line);
    }
  }

  ghost predicate IsGreatest(lines: set<nat>, line: nat) {
    line in lines && forall other | other in lines :: other <= line
  }

  predicate IsLeast(lines: set<nat>, line: nat) {
    line in lines && forall other | other in lines :: line <= other
  }

  lemma {:induction false} Ends(lines: set<nat>) returns (least: nat, greatest: nat)
    requires lines != {}
    ensures IsLeast(lines, least) && IsGreatest(lines, greatest)
  {
    var line :| line in lines;
    least, greatest := line, line;
    if lines != {line} {
      least, greatest := Ends(lines - {line});
      assert forall other | other in lines :: other == line || other in lines - {line};
      least := if line < least then line else least;
      greatest := if line > greatest then line else greatest;
    }
  }

  lemma HasGreatest(lines: set<nat>)
    requires lines != {}
    ensures exists line :: IsGreatest(lines, line)
  {
    var _, greatest := Ends(lines);
  }

  /** The hits on all of `lines` together. */
  ghost function HitsOn(tk: seq<Diag>, ts: seq<Diag>, rules: seq<Rule>, lines: set<nat>): multiset<Rule> {
    if lines == {} then multiset{}
    else
      HasGreatest(lines);
      var line :| IsGreatest(lines, line);
      HitsOn(tk, ts, rules, lines - {line}) + Hits(InOrder(rules), SurplusOn(tk, ts, line))
  }

  lemma HitsWithNext(tk: seq<Diag>, ts: seq<Diag>, rules: seq<Rule>, lines: set<nat>, line: nat)
    requires forall other | other in lines :: other < line
    ensures HitsOn(tk, ts, rules, lines + {line})
         == HitsOn(tk, ts, rules, lines) + Hits(InOrder(rules), SurplusOn(tk, ts, line))
  {
    hide SurplusOn, Hits, InOrder;
    var all := lines + {line};
    HasGreatest(all);
    forall top | IsGreatest(all, top) ensures top == line {
    }
    assert IsGreatest(all, line);
    assert all - {line} == lines;
  }

  /** The same surplus on every line gives the same hits. */
  lemma {:induction false} SameHits(tk: seq<Diag>, ts: seq<Diag>, tk2: seq<Diag>, ts2: seq<Diag>, rules: seq<Rule>, lines: set<nat>)
    requires forall line :: SurplusOn(tk, ts, line) == SurplusOn(tk2, ts2, line)
    ensures HitsOn(tk, ts, rules, lines) == HitsOn(tk2, ts2, rules, lines)
  {
    hide SurplusOn, Hits, InOrder;
    if lines != {} {
      var _, line := Ends(lines);
      SameHits(tk, ts, tk2, ts2, rules, lines - {line});
      forall top | IsGreatest(lines, top) ensures top == line {
      }
      assert SurplusOn(tk, ts, line) == SurplusOn(tk2, ts2, line);
    }
  }

  lemma {:induction false} NoHitsNoChange(tk: seq<Diag>, ts: seq<Diag>, rules: seq<Rule>, lines: set<nat>)
    ensures HitsOn(tk, ts, rules, lines) == multiset{} <==>
            forall line | line in lines :: Residue(rules, SurplusOn(tk, ts, line)) == SurplusOn(tk, ts, line)
  {
    hide SurplusOn, ApplyAll, Hits, InOrder;
    if lines != {} {
      HasGreatest(lines);
      var top :| IsGreatest(lines, top)
                 && HitsOn(tk, ts, rules, lines) == HitsOn(tk, ts, rules, lines - {top}) + Hits(InOrder(rules), SurplusOn(tk, ts, top));
      NoHitsNoChange(tk, ts, rules, lines - {top});
      NoHitNoChange(InOrder(rules), SurplusOn(tk, ts, top));
      forall line | line in lines ensures line == top || line in lines - {top} {
      }
      SumIsEmpty(HitsOn(tk, ts, rules, lines - {top}), Hits(InOrder(rules), SurplusOn(tk, ts, top)));
    }
  }

  lemma SumIsEmpty(a: multiset<Rule>, b: multiset<Rule>)
    ensures a + b == multiset{} <==> a == multiset{} && b == multiset{}
  {
    assert |a + b| == |a| + |b|;
  }

  /** A typokat incomplete record is a residue nothing cancels. */
  datatype Comparison = Comparison(residues: map<nat, Surplus>, incompletes: multiset<string>, hits: multiset<Rule>)

  ghost predicate Compares(tk: seq<Diag>, incompletes: seq<string>, ts: seq<Diag>, rules: seq<Rule>, c: Comparison) {
    && (forall line :: line in c.residues <==> !Empty(Residue(rules, SurplusOn(tk, ts, line))))
    && (forall line | line in c.residues :: c.residues[line] == Residue(rules, SurplusOn(tk, ts, line)))
    && c.incompletes == multiset(incompletes)
    && c.hits == HitsOn(tk, ts, rules, Lines(tk) + Lines(ts))
  }

  ghost predicate ComparedOn(tk: seq<Diag>, ts: seq<Diag>, rules: seq<Rule>, done: set<nat>, residues: map<nat, Surplus>) {
    && (forall line :: line in residues <==> line in done && !Empty(Residue(rules, SurplusOn(tk, ts, line))))
    && (forall line | line in residues :: residues[line] == Residue(rules, SurplusOn(tk, ts, line)))
  }

  /** Line by line in ascending order. */
  method CompareTsc(tk: seq<Diag>, incompletes: seq<string>, ts: seq<Diag>, rules: seq<Rule>) returns (c: Comparison)
    ensures Compares(tk, incompletes, ts, rules, c)
  {
    hide Compares, ComparedOn, Lines, HitsOn, Hits, InOrder, SurplusOn;
    var lines := Lines(tk) + Lines(ts);
    ghost var done: set<nat> := {};
    var residues: map<nat, Surplus> := map[];
    var hits: multiset<Rule> := multiset{};
    NothingCompared(tk, ts, rules);
    while lines != {}
      invariant lines + done == Lines(tk) + Lines(ts)
      invariant forall early, late | early in done && late in lines :: early < late
      invariant ComparedOn(tk, ts, rules, done, residues) && hits == HitsOn(tk, ts, rules, done)
      decreases lines
    {
      assert exists line :: IsLeast(lines, line) by {
        var least, _ := Ends(lines);
      }
      var line :| IsLeast(lines, line);
      HitsWithNext(tk, ts, rules, done, line);
      residues, hits := CompareLine(tk, ts, rules, line, residues, hits, done);
      lines, done := lines - {line}, done + {line};
    }
    c := Comparison(residues, multiset(incompletes), hits);
    assert done == Lines(tk) + Lines(ts);
    AllCompared(tk, incompletes, ts, rules, c, done);
  }

  method CompareLine(tk: seq<Diag>, ts: seq<Diag>, rules: seq<Rule>, line: nat, residues0: map<nat, Surplus>, hits0: multiset<Rule>, ghost done: set<nat>)
      returns (residues: map<nat, Surplus>, hits: multiset<Rule>)
    requires ComparedOn(tk, ts, rules, done, residues0) && line !in done
    ensures ComparedOn(tk, ts, rules, done + {line}, residues)
    ensures hits == hits0 + Hits(InOrder(rules), SurplusOn(tk, ts, line))
  {
    hide Residue, SurplusOn, Empty, Hits, InOrder;
    var left;
    left, hits := CancelLine(rules, SurplusOn(tk, ts, line), hits0);
    residues := if Empty(left) then residues0 else residues0[line := left];
  }

  lemma NothingCompared(tk: seq<Diag>, ts: seq<Diag>, rules: seq<Rule>)
    ensures ComparedOn(tk, ts, rules, {}, map[]) && HitsOn(tk, ts, rules, {}) == multiset{}
  {
  }

  lemma AllCompared(tk: seq<Diag>, incompletes: seq<string>, ts: seq<Diag>, rules: seq<Rule>, c: Comparison, done: set<nat>)
    requires done == Lines(tk) + Lines(ts) && ComparedOn(tk, ts, rules, done, c.residues)
    requires c.incompletes == multiset(incompletes) && c.hits == HitsOn(tk, ts, rules, done)
    ensures Compares(tk, incompletes, ts, rules, c)
  {
    hide Residue, SurplusOn, Lines, HitsOn;
    forall line: nat | line !in done
      ensures Empty(SurplusOn(tk, ts, line)) && Residue(rules, SurplusOn(tk, ts, line)) == SurplusOn(tk, ts, line)
    {
      NothingElsewhere(tk, ts, rules, line);
    }
  }

  lemma NothingElsewhere(tk: seq<Diag>, ts: seq<Diag>, rules: seq<Rule>, line: nat)
    requires line !in Lines(tk) && line !in Lines(ts)
    ensures Empty(SurplusOn(tk, ts, line)) && Residue(rules, SurplusOn(tk, ts, line)) == SurplusOn(tk, ts, line)
  {
    hide Residue;
    SilentElsewhere(tk, line);
    SilentElsewhere(ts, line);
    EmptyStaysEmpty(rules, SurplusOn(tk, ts, line));
  }

  lemma EmptyStaysEmpty(rules: seq<Rule>, s: Surplus)
    requires Empty(s)
    ensures Residue(rules, s) == s
  {
    hide Residue;
    var left := Residue(rules, s);
    forall code: nat ensures left.tk[code] == 0 && left.ts[code] == 0 {
      ResidueConserves(rules, s, code);
    }
    assert left.tk == multiset{} && left.ts == multiset{};
  }

  // ------------------------------------------------------------------ verdict

  datatype Verdict = Match | Allowed | Diverge

  function Classify(c: Comparison): Verdict {
    if c.residues != map[] || c.incompletes != multiset{} then Diverge else if c.hits != multiset{} then Allowed else Match
  }

  /** The two tools agree line by line. */
  ghost predicate Agree(tk: seq<Diag>, ts: seq<Diag>) {
    forall line :: CodesOn(tk, line) == CodesOn(ts, line)
  }

  /** Match is agreement; anything else is a divergence unless the rules cancel all of it. */
  lemma VerdictMeans(tk: seq<Diag>, incompletes: seq<string>, ts: seq<Diag>, rules: seq<Rule>, c: Comparison)
    requires Compares(tk, incompletes, ts, rules, c)
    ensures Classify(c) == Match <==> Agree(tk, ts) && incompletes == []
    ensures Classify(c) == Diverge <==> incompletes != [] || exists line :: !Empty(Residue(rules, SurplusOn(tk, ts, line)))
  {
    hide Residue, CodesOn, HitsOn, Lines;
    assert |multiset(incompletes)| == |incompletes|;
    NoHitsNoChange(tk, ts, rules, Lines(tk) + Lines(ts));
    forall line: nat | line !in Lines(tk) + Lines(ts)
      ensures Residue(rules, SurplusOn(tk, ts, line)) == SurplusOn(tk, ts, line)
    {
      NothingElsewhere(tk, ts, rules, line);
    }
    assert c.residues == map[] <==> forall line :: line !in c.residues;
    forall line ensures CodesOn(tk, line) == CodesOn(ts, line) <==> Empty(SurplusOn(tk, ts, line)) {
      NoSurplus(CodesOn(tk, line), CodesOn(ts, line));
    }
    if Agree(tk, ts) {
      forall line ensures Residue(rules, SurplusOn(tk, ts, line)) == SurplusOn(tk, ts, line) {
        EmptyStaysEmpty(rules, SurplusOn(tk, ts, line));
      }
    }
  }

  lemma NoSurplus(a: multiset<nat>, b: multiset<nat>)
    ensures a == b <==> a - b == multiset{} && b - a == multiset{}
  {
    if a - b == multiset{} && b - a == multiset{} {
      forall x ensures a[x] == b[x] {
        assert (a - b)[x] == 0 && (b - a)[x] == 0;
      }
    }
  }

  // ------------------------------------------------------------------ frozen ids

  function Ident(d: Diag): string {
    ScoreboardText.IdText((d.line, d.code))
  }

  function Idents(diags: seq<Diag>): (r: seq<string>)
    ensures |r| == |diags| && forall i | 0 <= i < |r| :: r[i] == Ident(diags[i])
  {
    seq(|diags|, i requires 0 <= i < |diags| => Ident(diags[i]))
  }

  /** The sorted id list a scoreboard freezes. */
  method OutcomeIds(diags: seq<Diag>) returns (ids: seq<string>)
    ensures Text.Sorted(ids) && multiset(ids) == multiset(Idents(diags))
  {
    ids := Text.Sort(Idents(diags));
  }

  /** A diagnostic rebuilt from its id. */
  function Thawed(id: string): Option<Diag> {
    match ScoreboardText.ParseId(id)
    case Some(pair) => Some(Diag(pair.0, 0, pair.1, ""))
    case None => None
  }

  method FromIds(ids: seq<string>) returns (diags: Option<seq<Diag>>)
    ensures diags.Some? <==> forall i | 0 <= i < |ids| :: Thawed(ids[i]).Some?
    ensures diags.Some? ==> |diags.value| == |ids| && forall i | 0 <= i < |ids| :: Thawed(ids[i]) == Some(diags.value[i])
  {
    var out: seq<Diag> := [];
    for i := 0 to |ids|
      invariant |out| == i && forall j | 0 <= j < i :: Thawed(ids[j]) == Some(out[j])
    {
      var d := Thawed(ids[i]);
      if d.None? {
        return None;
      }
      out := out + [d.value];
    }
    return Some(out);
  }

  /** How often a line shows a code. */
  lemma {:induction false} CodesAreIds(diags: seq<Diag>, line: nat, code: nat)
    ensures CodesOn(diags, line)[code] == multiset(Idents(diags))[ScoreboardText.IdText((line, code))]
  {
    hide ScoreboardText.IdText, ScoreboardText.ParseId;
    if diags != [] {
      CodesAreIds(diags[1..], line, code);
      ScoreboardText.IdSurvives((line, code));
      ScoreboardText.IdSurvives((diags[0].line, diags[0].code));
      assert Idents(diags) == [Ident(diags[0])] + Idents(diags[1..]);
    }
  }

  lemma ThawedIdent(d: Diag)
    ensures Thawed(Ident(d)).Some? && Ident(Thawed(Ident(d)).value) == Ident(d)
  {
    ScoreboardText.IdSurvives((d.line, d.code));
  }

  /** Freezing and thawing keeps every line's codes. */
  lemma FrozenCodes(diags: seq<Diag>, ids: seq<string>, thawed: seq<Diag>, line: nat)
    requires multiset(ids) == multiset(Idents(diags))
    requires |thawed| == |ids| && forall i | 0 <= i < |ids| :: Thawed(ids[i]) == Some(thawed[i])
    ensures CodesOn(thawed, line) == CodesOn(diags, line)
  {
    hide CodesOn, Thawed, Ident;
    Text.SameLength(ids, Idents(diags));
    forall i | 0 <= i < |ids| ensures Idents(thawed)[i] == ids[i] {
      assert ids[i] in Idents(diags);
      var k :| 0 <= k < |diags| && Idents(diags)[k] == ids[i];
      ThawedIdent(diags[k]);
    }
    assert Idents(thawed) == ids;
    forall code ensures CodesOn(thawed, line)[code] == CodesOn(diags, line)[code] {
      CodesAreIds(thawed, line, code);
      CodesAreIds(diags, line, code);
    }
  }

  /** Without incompletes, comparing the frozen id lists gives the live comparison. */
  method CompareFrozen(tk: seq<Diag>, ts: seq<Diag>, rules: seq<Rule>) returns (c: Comparison)
    ensures Compares(tk, [], ts, rules, c)
  {
    hide Residue, CodesOn, Thawed, Ident, HitsOn, Lines;
    var tkIds := OutcomeIds(tk);
    var tsIds := OutcomeIds(ts);
    AllThaw(tk, tkIds);
    AllThaw(ts, tsIds);
    var tkBack := FromIds(tkIds);
    var tsBack := FromIds(tsIds);
    c := CompareTsc(tkBack.value, [], tsBack.value, rules);
    forall line
      ensures SurplusOn(tkBack.value, tsBack.value, line) == SurplusOn(tk, ts, line)
      ensures line in Lines(tkBack.value) + Lines(tsBack.value) <==> line in Lines(tk) + Lines(ts)
    {
      FrozenCodes(tk, tkIds, tkBack.value, line);
      FrozenCodes(ts, tsIds, tsBack.value, line);
      CodesShow(tk, line);
      CodesShow(ts, line);
      CodesShow(tkBack.value, line);
      CodesShow(tsBack.value, line);
    }
    assert Lines(tkBack.value) + Lines(tsBack.value) == Lines(tk) + Lines(ts);
    SameHits(tk, ts, tkBack.value, tsBack.value, rules, Lines(tk) + Lines(ts));
  }

  lemma AllThaw(diags: seq<Diag>, ids: seq<string>)
    requires multiset(ids) == multiset(Idents(diags))
    ensures forall i | 0 <= i < |ids| :: Thawed(ids[i]).Some?
  {
    hide Thawed, Ident;
    Text.SameLength(ids, Idents(diags));
    forall i | 0 <= i < |ids| ensures Thawed(ids[i]).Some? {
      assert ids[i] in Idents(diags);
      var k :| 0 <= k < |diags| && Idents(diags)[k] == ids[i];
      ThawedIdent(diags[k]);
    }
  }
}
