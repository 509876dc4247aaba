/** The order of allowlist rules: when inserting a rule is harmless, and the inputs on which it is not. */
module AllowlistOrder {
  import opened Wrappers
  import opened Differential

  // ------------------------------------------------------------------ inserting a rule

  /** Two pairs that share one code and no more. */
  predicate SharesOne(p: Rule, r: Rule) {
    (p.tk == r.tk) != (p.ts == r.ts)
  }

  /** A later pair that competes with an inserted one: they share one code, and the later pair is not
      idle anyway because it also stands earlier or follows a copy of the inserted pair. */
  ghost predicate Rival(earlier: seq<Rule>, r: Rule, later: seq<Rule>, i: nat) {
    r !in earlier && i < |later| && r !in later[..i] && SharesOne(later[i], r) && later[i] !in earlier
  }

  ghost predicate NoRival(earlier: seq<Rule>, r: Rule, later: seq<Rule>) {
    forall i: nat :: !Rival(earlier, r, later, i)
  }

  lemma {:induction false} SelectJoin(a: seq<Rule>, b: seq<Rule>, keep: Rule -> bool)
    ensures Select(a + b, keep) == Select(a, keep) + Select(b, keep)
  {
    if b == [] {
      assert a + b == a;
    } else {
      SelectJoin(a, b[..|b| - 1], keep);
      assert (a + b)[..|a + b| - 1] == a + b[..|b| - 1];
    }
  }

  lemma {:induction false} AllShrink(rules: seq<Rule>, s: Surplus)
    ensures Within(ApplyAll(rules, s), s)
  {
    if rules != [] {
      AllShrink(rules[..|rules| - 1], s);
      ApplyShrinks(rules[|rules| - 1], ApplyAll(rules[..|rules| - 1], s));
    }
  }

  /** A pair that was applied has nothing left to take. */
  lemma {:induction false} AppliedIsIdle(rules: seq<Rule>, p: Rule, s: Surplus)
    requires p in rules && Paired(p)
    ensures Taken(p, ApplyAll(rules, s)) == 0
  {
    var last, before := rules[|rules| - 1], rules[..|rules| - 1];
    ApplyShrinks(last, ApplyAll(before, s));
    if last != p {
      AppliedIsIdle(before, p, s);
    }
  }

  lemma PairsCommute(p: Rule, r: Rule, s: Surplus)
    requires Paired(p) && Paired(r) && p.tk != r.tk && p.ts != r.ts
    ensures Apply(p, Apply(r, s)) == Apply(r, Apply(p, s))
  {
    var n, m := Taken(p, s), Taken(r, s);
    assert Taken(p, Apply(r, s)) == n && Taken(r, Apply(p, s)) == m;
    Reorder(s.tk, p.tk.value, s.tk[p.tk.value] - n, r.tk.value, s.tk[r.tk.value] - m);
    Reorder(s.ts, p.ts.value, s.ts[p.ts.value] - n, r.ts.value, s.ts[r.ts.value] - m);
  }

  lemma Reorder(counts: multiset<nat>, a: nat, n: nat, b: nat, m: nat)
    requires a != b
    ensures counts[a := n][b := m] == counts[b := m][a := n]
  {
  }

  lemma ApplyFirst(rules: seq<Rule>, s: Surplus)
    requires rules != []
    ensures ApplyAll(rules, s) == ApplyAll(rules[1..], Apply(rules[0], s))
  {
    assert rules == [rules[0]] + rules[1..];
    ApplyJoin([rules[0]], rules[1..], s);
    ApplyOne(rules[0], s);
  }

  lemma ApplyNone(s: Surplus)
    ensures ApplyAll([], s) == s
  {
  }

  lemma AppliedTwice(r: Rule, s: Surplus)
    requires Paired(r)
    ensures Apply(r, Apply(r, s)) == Apply(r, s)
  {
    NothingToCancel(r, Apply(r, s));
  }

  lemma IdleStaysIdle(p: Rule, other: Rule, s: Surplus)
    requires Paired(p) && Taken(p, s) == 0
    ensures Taken(p, Apply(other, s)) == 0
  {
    ApplyShrinks(other, s);
  }

  lemma StepAside(p: Rule, r: Rule, s: Surplus)
    requires Paired(p) && Paired(r) && p != r && (SharesOne(p, r) ==> Taken(p, s) == 0)
    ensures Apply(p, Apply(r, s)) == Apply(r, Apply(p, s))
  {
    hide Apply, Taken;
    if SharesOne(p, r) {
      IdleStaysIdle(p, r, s);
      NothingToCancel(p, s);
      NothingToCancel(p, Apply(r, s));
    } else {
      PairsCommute(p, r, s);
    }
  }

  /** A pair slides past the pairs it shares no code with, past idle ones, and into its own copy. */
  lemma {:induction false} Slide(later: seq<Rule>, r: Rule, s: Surplus)
    requires Paired(r) && forall p | p in later :: Paired(p)
    requires forall i | 0 <= i < |later| && r !in later[..i] && SharesOne(later[i], r) :: Taken(later[i], s) == 0
    ensures Within(ApplyAll(later, Apply(r, s)), ApplyAll(later, s))
    decreases |later|
  {
    hide ApplyAll, Apply, Taken, Within;
    if later == [] {
      ApplyNone(s);
      ApplyNone(Apply(r, s));
      ApplyShrinks(r, s);
    } else {
      var p, rest := later[0], later[1..];
      ApplyFirst(later, s);
      ApplyFirst(later, Apply(r, s));
      if p == r {
        AppliedTwice(r, s);
        WithinSelf(ApplyAll(rest, Apply(r, s)));
      } else {
        assert r !in later[..0];
        forall i | 0 <= i < |rest| && r !in rest[..i] && SharesOne(rest[i], r) ensures Taken(rest[i], Apply(p, s)) == 0 {
          assert later[..i + 1] == [p] + rest[..i] && rest[i] == later[i + 1];
          IdleStaysIdle(rest[i], p, s);
        }
        StepAside(p, r, s);
        Slide(rest, r, Apply(p, s));
      }
    }
  }

  /** Inserting a rule that is one-sided, or a pair without a rival among the later pairs, never
      enlarges a residue. */
  lemma SafeInsertion(before: seq<Rule>, r: Rule, after: seq<Rule>, s: Surplus)
    requires Paired(r) ==> NoRival(Select(before, Paired), r, Select(after, Paired))
    ensures Within(Residue(before + [r] + after, s), Residue(before + after, s))
  {
    hide Apply, ApplyAll, Within, NoRival, InOrder, Select;
    var earlier, later := Select(before, Paired), Select(after, Paired);
    var first, last := Select(before, OneSided), Select(after, OneSided);
    Selected(before, OneSided);
    Selected(after, OneSided);
    SplitInsertion(before, r, after);
    if Paired(r) {
      PairSlides(before, r, after, s);
      assert first + [] + last == first + last;
      ApplyJoin(earlier + [r] + later, first + last, s);
      ApplyJoin(earlier + later, first + last, s);
      OneSidedMonotone(first + last, ApplyAll(earlier + [r] + later, s), ApplyAll(earlier + later, s));
    } else if OneSided(r) {
      var start := earlier + later + first;
      assert earlier + [] + later + (first + [r] + last) == start + [r] + last;
      assert earlier + later + (first + last) == start + last;
      ApplyJoin(start + [r], last, s);
      ApplyJoin(start, [r], s);
      ApplyJoin(start, last, s);
      ApplyOne(r, ApplyAll(start, s));
      ApplyShrinks(r, ApplyAll(start, s));
      OneSidedMonotone(last, ApplyAll(start + [r], s), ApplyAll(start, s));
    } else {
      assert earlier + [] + later == earlier + later && first + [] + last == first + last;
      WithinSelf(Residue(before + after, s));
    }
  }

  lemma SplitInsertion(before: seq<Rule>, r: Rule, after: seq<Rule>)
    ensures var earlier, later := Select(before, Paired), Select(after, Paired);
            var first, last := Select(before, OneSided), Select(after, OneSided);
            && InOrder(before + after) == earlier + later + (first + last)
            && InOrder(before + [r] + after)
            == earlier + (if Paired(r) then [r] else []) + later + (first + (if OneSided(r) then [r] else []) + last)
  {
    forall keep: Rule -> bool
      ensures Select(before + after, keep) == Select(before, keep) + Select(after, keep)
      ensures Select(before + [r] + after, keep) == Select(before, keep) + (if keep(r) then [r] else []) + Select(after, keep)
    {
      SelectJoin(before, after, keep);
      SelectJoin(before + [r], after, keep);
      SelectJoin(before, [r], keep);
      assert [r][..0] == [];
      assert Select([r], keep) == if keep(r) then [r] else [];
    }
  }

  lemma PairSlides(before: seq<Rule>, r: Rule, after: seq<Rule>, s: Surplus)
    requires Paired(r) && NoRival(Select(before, Paired), r, Select(after, Paired))
    ensures var earlier, later := Select(before, Paired), Select(after, Paired);
            Within(ApplyAll(earlier + [r] + later, s), ApplyAll(earlier + later, s))
  {
    hide Apply, ApplyAll;
    var earlier, later := Select(before, Paired), Select(after, Paired);
    Selected(before, Paired);
    Selected(after, Paired);
    ApplyJoin(earlier + [r], later, s);
    ApplyJoin(earlier, [r], s);
    ApplyJoin(earlier, later, s);
    var t := ApplyAll(earlier, s);
    ApplyOne(r, t);
    if r in earlier {
      AppliedIsIdle(earlier, r, s);
      NothingToCancel(r, t);
      WithinSelf(ApplyAll(later, t));
    } else {
      forall i | 0 <= i < |later| && r !in later[..i] && SharesOne(later[i], r) ensures Taken(later[i], t) == 0 {
        assert !Rival(earlier, r, later, i);
        AppliedIsIdle(earlier, later[i], s);
      }
      Slide(later, r, t);
    }
  }

  // The converse: a rival and its pair compete for one code.

  /** One shared tk code against the two codes it may be paired with. */
  function Contest(tk: nat, one: nat, two: nat): Surplus {
    Surplus(multiset{tk}, multiset{one, two})
  }

  lemma {:induction false} NothingMatches(rules: seq<Rule>, tk: nat, one: nat, two: nat)
    requires forall p | p in rules :: Paired(p) && p != Rule(Some(tk), Some(one)) && p != Rule(Some(tk), Some(two))
    ensures ApplyAll(rules, Contest(tk, one, two)) == Contest(tk, one, two)
  {
    if rules != [] {
      var last, before := rules[|rules| - 1], rules[..|rules| - 1];
      assert forall p | p in before :: p in rules;
      NothingMatches(before, tk, one, two);
      assert last in rules;
      if last.tk == Some(tk) {
        assert last.ts.value != one && last.ts.value != two;
        assert multiset{one, two}[last.ts.value] == 0;
      }
      NothingToCancel(last, Contest(tk, one, two));
    }
  }

  /** The first of two rivals takes the shared code and leaves the code of the other. */
  lemma FirstWins(before: seq<Rule>, winner: Rule, after: seq<Rule>, one: nat, two: nat)
    requires Paired(winner) && winner.ts.value == one != two && forall p | p in before + after :: Paired(p)
    requires winner !in before && Rule(winner.tk, Some(two)) !in before
    ensures ApplyAll(before + [winner] + after, Contest(winner.tk.value, one, two)) == Surplus(multiset{}, multiset{two})
  {
    var tk := winner.tk.value;
    var s := Contest(tk, one, two);
    assert forall p | p in before :: p in before + after;
    assert forall p | p in after :: p in before + after;
    NothingMatches(before, tk, one, two);
    ApplyJoin(before + [winner], after, s);
    ApplyJoin(before, [winner], s);
    ApplyOne(winner, s);
    var left := Surplus(multiset{}, multiset{two});
    assert Apply(winner, s).tk == left.tk && Apply(winner, s).ts == left.ts;
    NothingOnOneSide(after, left);
  }

  lemma {:induction false} NothingOnOneSide(rules: seq<Rule>, s: Surplus)
    requires s.tk == multiset{} && forall p | p in rules :: Paired(p)
    ensures ApplyAll(rules, s) == s
  {
    if rules != [] {
      NothingOnOneSide(rules[..|rules| - 1], s);
      assert rules[|rules| - 1] in rules;
      NothingToCancel(rules[|rules| - 1], s);
    }
  }

  /** A rival that shares the typokat code loses its tsc code to the residue. */
  lemma RivalBeaten(earlier: seq<Rule>, r: Rule, later: seq<Rule>, i: nat) returns (s: Surplus)
    requires Paired(r) && Rival(earlier, r, later, i) && later[i].tk == r.tk
    requires forall p | p in earlier + later :: Paired(p)
    ensures ApplyAll(earlier + [r] + later, s).ts[later[i].ts.value] == 1
    ensures ApplyAll(earlier + later, s).ts[later[i].ts.value] == 0
  {
    hide ApplyAll;
    var q := later[i];
    assert q in earlier + later;
    s := Contest(r.tk.value, r.ts.value, q.ts.value);
    FirstWins(earlier, r, later, r.ts.value, q.ts.value);
    var j := FirstCopy(later, i);
    assert s == Contest(r.tk.value, q.ts.value, r.ts.value);
    assert later == later[..j] + [q] + later[j + 1..];
    assert earlier + later == earlier + later[..j] + [q] + later[j + 1..];
    assert r !in later[..j] by {
      assert later[..j] <= later[..i];
    }
    forall p | p in earlier + later[..j] + later[j + 1..] ensures Paired(p) {
      assert p in earlier + later;
    }
    FirstWins(earlier + later[..j], q, later[j + 1..], q.ts.value, r.ts.value);
  }

  lemma FirstCopy(rules: seq<Rule>, i: nat) returns (j: nat)
    requires i < |rules|
    ensures j <= i && rules[j] == rules[i] && rules[i] !in rules[..j]
  {
    j := 0;
    while rules[j] != rules[i]
      invariant j <= i && rules[i] !in rules[..j]
      decreases i - j
    {
      j := j + 1;
    }
  }

  function Flip(r: Rule): Rule {
    Rule(r.ts, r.tk)
  }

  function FlipAll(rules: seq<Rule>): (flipped: seq<Rule>)
    ensures |flipped| == |rules| && forall i | 0 <= i < |rules| :: flipped[i] == Flip(rules[i])
  {
    seq(|rules|, i requires 0 <= i < |rules| => Flip(rules[i]))
  }

  function FlipSurplus(s: Surplus): Surplus {
    Surplus(s.ts, s.tk)
  }

  lemma FlipMember(rules: seq<Rule>, r: Rule)
    ensures Flip(r) in FlipAll(rules) <==> r in rules
  {
    if r in rules {
      var i :| 0 <= i < |rules| && rules[i] == r;
      assert FlipAll(rules)[i] == Flip(r);
    }
    if Flip(r) in FlipAll(rules) {
      var i :| 0 <= i < |rules| && FlipAll(rules)[i] == Flip(r);
      assert Flip(rules[i]) == Flip(r);
    }
  }

  /** The two tools are interchangeable for pairs. */
  lemma {:induction false} FlippedPairs(rules: seq<Rule>, s: Surplus)
    requires forall p | p in rules :: Paired(p)
    ensures ApplyAll(FlipAll(rules), FlipSurplus(s)) == FlipSurplus(ApplyAll(rules, s))
  {
    if rules != [] {
      var last, before := rules[|rules| - 1], rules[..|rules| - 1];
      FlippedPairs(before, s);
      assert FlipAll(rules)[..|rules| - 1] == FlipAll(before);
      assert last in rules;
    }
  }

  /** A rival that shares the tsc code loses its typokat code to the residue. */
  lemma RivalBeatenOnOtherSide(earlier: seq<Rule>, r: Rule, later: seq<Rule>, i: nat) returns (s: Surplus)
    requires Paired(r) && Rival(earlier, r, later, i) && later[i].ts == r.ts
    requires forall p | p in earlier + later :: Paired(p)
    ensures ApplyAll(earlier + [r] + later, s).tk[later[i].tk.value] == 1
    ensures ApplyAll(earlier + later, s).tk[later[i].tk.value] == 0
  {
    hide ApplyAll;
    assert later[i] in earlier + later;
    var e, l := FlipAll(earlier), FlipAll(later);
    FlipMember(earlier, r);
    FlipMember(earlier, later[i]);
    FlipMember(later[..i], r);
    assert l[..i] == FlipAll(later[..i]);
    forall p | p in e + l ensures Paired(p) {
      assert Flip(Flip(p)) == p;
      FlipMember(earlier, Flip(p));
      FlipMember(later, Flip(p));
      assert Flip(p) in earlier + later;
    }
    var flipped := RivalBeaten(e, Flip(r), l, i);
    s := FlipSurplus(flipped);
    assert FlipSurplus(s) == flipped;
    assert FlipAll(earlier + [r] + later) == e + [Flip(r)] + l;
    assert FlipAll(earlier + later) == e + l;
    forall p | p in earlier + [r] + later ensures Paired(p) {
      assert p == r || p in earlier + later;
    }
    FlippedPairs(earlier + [r] + later, s);
    FlippedPairs(earlier + later, s);
  }

  /** A one-sided rule names the code that only the later pair has, and that the inserted pair makes it lose. */
  ghost predicate Covered(rules: seq<Rule>, q: Rule, r: Rule) {
    exists u: Rule :: u in rules && OneSided(u) && ((q.tk == r.tk && u.ts == q.ts) || (q.ts == r.ts && u.tk == q.tk))
  }

  /** A pair inserted before a rival enlarges some residue, unless a one-sided rule covers for it. */
  lemma UnsafeInsertion(before: seq<Rule>, r: Rule, after: seq<Rule>, i: nat) returns (s: Surplus)
    requires Paired(r) && Rival(Select(before, Paired), r, Select(after, Paired), i)
    requires !Covered(before + after, Select(after, Paired)[i], r)
    ensures !Within(Residue(before + [r] + after, s), Residue(before + after, s))
  {
    hide Apply, ApplyAll, InOrder, Select;
    var earlier, later := Select(before, Paired), Select(after, Paired);
    var singles := Select(before, OneSided) + Select(after, OneSided);
    Selected(before, Paired);
    Selected(after, Paired);
    Selected(before, OneSided);
    Selected(after, OneSided);
    SplitInsertion(before, r, after);
    assert Select(before, OneSided) + [] + Select(after, OneSided) == singles;
    var q := later[i];
    if q.tk == r.tk {
      s := RivalBeaten(earlier, r, later, i);
      UnnamedStays(singles, ApplyAll(earlier + [r] + later, s), q.ts.value);
    } else {
      s := RivalBeatenOnOtherSide(earlier, r, later, i);
      UnnamedStays(singles, ApplyAll(earlier + [r] + later, s), q.tk.value);
    }
    ApplyJoin(earlier + [r] + later, singles, s);
    ApplyJoin(earlier + later, singles, s);
    AllShrink(singles, ApplyAll(earlier + later, s));
  }

  // ------------------------------------------------------------------ covered rivals

  /** Which codes an inserted pair can leave less of, and which more of. */
  datatype Shift = Shift(lessTk: set<nat>, moreTs: set<nat>, moreTk: set<nat>, lessTs: set<nat>)

  ghost predicate Consistent(h: Shift) {
    h.lessTk !! h.moreTk && h.lessTs !! h.moreTs
  }

  /** A pair passes a shift on: less of one of its codes leaves more of the other. */
  ghost predicate PassesOn(h: Shift, p: Rule)
    requires Paired(p)
  {
    (p.tk.value in h.lessTk <==> p.ts.value in h.moreTs) && (p.tk.value in h.moreTk <==> p.ts.value in h.lessTs)
  }

  ghost predicate Shifted(h: Shift, a: Surplus, b: Surplus) {
    forall c: nat ::
      && (c !in h.moreTk ==> a.tk[c] <= b.tk[c]) && (c !in h.lessTk ==> a.tk[c] >= b.tk[c])
      && (c !in h.moreTs ==> a.ts[c] <= b.ts[c]) && (c !in h.lessTs ==> a.ts[c] >= b.ts[c])
  }

  lemma ShiftedStep(h: Shift, p: Rule, a: Surplus, b: Surplus)
    requires Paired(p) && Consistent(h) && Shifted(h, a, b)
    requires PassesOn(h, p) || (Taken(p, a) == 0 && Taken(p, b) == 0)
    ensures Shifted(h, Apply(p, a), Apply(p, b))
  {
    assert a.tk[p.tk.value] <= b.tk[p.tk.value] || p.tk.value in h.moreTk;
    assert a.ts[p.ts.value] <= b.ts[p.ts.value] || p.ts.value in h.moreTs;
  }

  lemma {:induction false} ShiftedAll(h: Shift, pairs: seq<Rule>, a: Surplus, b: Surplus)
    requires Consistent(h) && Shifted(h, a, b)
    requires forall p | p in pairs :: Paired(p) && (PassesOn(h, p) || (Taken(p, a) == 0 && Taken(p, b) == 0))
    ensures Shifted(h, ApplyAll(pairs, a), ApplyAll(pairs, b))
  {
    hide Shifted, Apply, PassesOn;
    if pairs != [] {
      var last, before := pairs[|pairs| - 1], pairs[..|pairs| - 1];
      assert forall p | p in before :: p in pairs;
      ShiftedAll(h, before, a, b);
      assert last in pairs;
      AllShrink(before, a);
      AllShrink(before, b);
      ShiftedStep(h, last, ApplyAll(before, a), ApplyAll(before, b));
    }
  }

  /** A one-sided rule leaves nothing of the code it names. */
  lemma {:induction false} NamedVanishes(singles: seq<Rule>, u: Rule, s: Surplus)
    requires u in singles && forall v | v in singles :: OneSided(v)
    ensures u.tk.Some? ==> ApplyAll(singles, s).tk[u.tk.value] == 0
    ensures u.ts.Some? ==> ApplyAll(singles, s).ts[u.ts.value] == 0
  {
    var last, before := singles[|singles| - 1], singles[..|singles| - 1];
    assert OneSided(last);
    ApplyShrinks(last, ApplyAll(before, s));
    if last != u {
      assert forall v | v in before :: v in singles;
      NamedVanishes(before, u, s);
    }
  }

  /** One-sided rules that name every code a shift leaves more of make up for it. */
  lemma SinglesMakeUp(h: Shift, singles: seq<Rule>, a: Surplus, b: Surplus)
    requires Shifted(h, a, b) && forall v | v in singles :: OneSided(v)
    requires forall c: nat | c in h.moreTk :: exists u :: u in singles && u.tk == Some(c)
    requires forall c: nat | c in h.moreTs :: exists u :: u in singles && u.ts == Some(c)
    ensures Within(ApplyAll(singles, a), ApplyAll(singles, b))
  {
    hide ApplyAll;
    var x, y := ApplyAll(singles, a), ApplyAll(singles, b);
    forall c: nat ensures x.tk[c] <= y.tk[c] && x.ts[c] <= y.ts[c] {
      SinglesOnCode(singles, a, b, c);
      if c in h.moreTk {
        var u :| u in singles && u.tk == Some(c);
        NamedVanishes(singles, u, a);
      }
      if c in h.moreTs {
        var u :| u in singles && u.ts == Some(c);
        NamedVanishes(singles, u, a);
      }
    }
  }

  /** What one-sided rules leave of a code depends on that code alone. */
  lemma {:induction false} SinglesOnCode(singles: seq<Rule>, a: Surplus, b: Surplus, c: nat)
    requires forall v | v in singles :: OneSided(v)
    ensures a.tk[c] <= b.tk[c] ==> ApplyAll(singles, a).tk[c] <= ApplyAll(singles, b).tk[c]
    ensures a.ts[c] <= b.ts[c] ==> ApplyAll(singles, a).ts[c] <= ApplyAll(singles, b).ts[c]
  {
    if singles != [] {
      var last, before := singles[|singles| - 1], singles[..|singles| - 1];
      assert forall v | v in before :: v in singles;
      SinglesOnCode(before, a, b, c);
      assert OneSided(last);
    }
  }

  /** Inserting a pair is safe when each code that can be left in excess, along whatever chain of later
      pairs, is named by a one-sided rule. */
  lemma CoveredInsertion(before: seq<Rule>, r: Rule, after: seq<Rule>, h: Shift, s: Surplus)
    requires Paired(r) && Consistent(h) && r.tk.value in h.lessTk && r.ts.value in h.lessTs
    requires forall p | p in after && Paired(p) :: p in before || PassesOn(h, p)
    requires forall c: nat | c in h.moreTk :: exists u :: u in before + after && OneSided(u) && u.tk == Some(c)
    requires forall c: nat | c in h.moreTs :: exists u :: u in before + after && OneSided(u) && u.ts == Some(c)
    ensures Within(Residue(before + [r] + after, s), Residue(before + after, s))
  {
    hide Apply, ApplyAll, InOrder, Select, PassesOn, Shifted, Within;
    var earlier, later := Select(before, Paired), Select(after, Paired);
    var singles := Select(before, OneSided) + Select(after, OneSided);
    assert Select(before, OneSided) + [] + Select(after, OneSided) == singles;
    SplitInsertion(before, r, after);
    KeptIn(before, Paired);
    KeptIn(after, Paired);
    KeptIn(before, OneSided);
    KeptIn(after, OneSided);
    var t := ApplyAll(earlier, s);
    ApplyJoin(earlier + [r] + later, singles, s);
    ApplyJoin(earlier + later, singles, s);
    ApplyJoin(earlier + [r], later, s);
    ApplyJoin(earlier, [r], s);
    ApplyJoin(earlier, later, s);
    ApplyOne(r, t);
    Inserted(h, r, t);
    forall p | p in later ensures Paired(p) && (PassesOn(h, p) || (Taken(p, Apply(r, t)) == 0 && Taken(p, t) == 0)) {
      if p in before {
        AppliedIsIdle(earlier, p, s);
        IdleStaysIdle(p, r, t);
      }
    }
    ShiftedAll(h, later, Apply(r, t), t);
    SinglesMakeUp(h, singles, ApplyAll(later, Apply(r, t)), ApplyAll(later, t));
  }

  lemma Inserted(h: Shift, r: Rule, t: Surplus)
    requires Paired(r) && Consistent(h) && r.tk.value in h.lessTk && r.ts.value in h.lessTs
    ensures Shifted(h, Apply(r, t), t)
  {
  }

  lemma {:induction false} KeptIn(rules: seq<Rule>, keep: Rule -> bool)
    ensures forall r :: r in Select(rules, keep) <==> r in rules && keep(r)
  {
    if rules != [] {
      KeptIn(rules[..|rules| - 1], keep);
      assert rules == rules[..|rules| - 1] + [rules[|rules| - 1]];
    }
  }

  // ------------------------------------------------------------------ when inserting is safe

  /** No pair that is not idle anyway, other than the rival itself, names the code the rival loses. */
  ghost predicate EndsThere(earlier: seq<Rule>, r: Rule, later: seq<Rule>, q: Rule) {
    forall p | p in later && p !in earlier && p != q :: (q.tk == r.tk ==> p.ts != q.ts) && (q.ts == r.ts ==> p.tk != q.tk)
  }

  ghost predicate RivalsCovered(before: seq<Rule>, r: Rule, after: seq<Rule>) {
    forall i: nat | Rival(Select(before, Paired), r, Select(after, Paired), i) ::
      Covered(before + after, Select(after, Paired)[i], r)
  }

  /** Inserting a rule is safe for every line exactly when it is one-sided, or a pair each of whose
      rivals is covered.  A covered rival must not pass its loss on, and the allowlist must not hold
      the inserted pair behind one. */
  lemma WhenInsertingIsSafe(before: seq<Rule>, r: Rule, after: seq<Rule>)
    requires var earlier, later := Select(before, Paired), Select(after, Paired);
             forall i: nat | Rival(earlier, r, later, i) && Covered(before + after, later[i], r) ::
               r !in later && EndsThere(earlier, r, later, later[i])
    ensures (forall s :: Within(Residue(before + [r] + after, s), Residue(before + after, s)))
            <==> (Paired(r) ==> RivalsCovered(before, r, after))
  {
    hide Within, Residue, Select, Covered, EndsThere;
    var earlier, later := Select(before, Paired), Select(after, Paired);
    if !Paired(r) || NoRival(earlier, r, later) {
      forall s ensures Within(Residue(before + [r] + after, s), Residue(before + after, s)) {
        SafeInsertion(before, r, after, s);
      }
    } else if RivalsCovered(before, r, after) {
      forall s ensures Within(Residue(before + [r] + after, s), Residue(before + after, s)) {
        AllRivalsCovered(before, r, after, s);
      }
    } else {
      var i: nat :| Rival(earlier, r, later, i) && !Covered(before + after, later[i], r);
      var s := UnsafeInsertion(before, r, after, i);
    }
  }

  /** The codes that rivals lose on either side. */
  ghost function LostTs(live: set<Rule>, r: Rule): set<nat> {
    set q | q in live && Paired(q) && q.tk == r.tk :: q.ts.value
  }

  ghost function LostTk(live: set<Rule>, r: Rule): set<nat> {
    set q | q in live && Paired(q) && q.ts == r.ts :: q.tk.value
  }

  lemma AllRivalsCovered(before: seq<Rule>, r: Rule, after: seq<Rule>, s: Surplus)
    requires Paired(r) && RivalsCovered(before, r, after)
    requires var earlier, later := Select(before, Paired), Select(after, Paired);
             && !NoRival(earlier, r, later) && r !in later
             && forall i: nat | Rival(earlier, r, later, i) :: EndsThere(earlier, r, later, later[i])
    ensures Within(Residue(before + [r] + after, s), Residue(before + after, s))
  {
    hide Within, Residue, Select;
    KeptIn(before, Paired);
    KeptIn(after, Paired);
    var earlier, later := Select(before, Paired), Select(after, Paired);
    var live := set p | p in later && p !in earlier;
    var h := Shift({r.tk.value}, LostTs(live, r), LostTk(live, r), {r.ts.value});
    forall q | q in live && SharesOne(q, r) ensures Covered(before + after, q, r) && EndsThere(earlier, r, later, q) {
      var i :| 0 <= i < |later| && later[i] == q;
      assert Rival(earlier, r, later, i);
    }
    forall p | p in after && Paired(p) ensures p in before || PassesOn(h, p) {
      if p !in before {
        LivePassesOn(earlier, r, later, live, h, p);
      }
    }
    forall c: nat | c in h.moreTk ensures exists u :: u in before + after && OneSided(u) && u.tk == Some(c) {
      var q :| q in live && q.ts == r.ts && q.tk.value == c;
      assert SharesOne(q, r) && Covered(before + after, q, r);
    }
    forall c: nat | c in h.moreTs ensures exists u :: u in before + after && OneSided(u) && u.ts == Some(c) {
      var q :| q in live && q.tk == r.tk && q.ts.value == c;
      assert SharesOne(q, r) && Covered(before + after, q, r);
    }
    CoveredInsertion(before, r, after, h, s);
  }

  lemma LivePassesOn(earlier: seq<Rule>, r: Rule, later: seq<Rule>, live: set<Rule>, h: Shift, p: Rule)
    requires Paired(r) && r !in live && p in live && live == set q | q in later && q !in earlier
    requires Paired(p) && forall q | q in live && SharesOne(q, r) :: EndsThere(earlier, r, later, q)
    requires h.lessTk == {r.tk.value} && h.lessTs == {r.ts.value}
    requires h.moreTs == LostTs(live, r) && h.moreTk == LostTk(live, r)
    ensures PassesOn(h, p)
  {
    assert p in later && p !in earlier && p != r;
    forall q | q in live && Paired(q) && q.tk == r.tk && q.ts == p.ts ensures p.tk == r.tk {
      assert SharesOne(q, r);
    }
    forall q | q in live && Paired(q) && q.ts == r.ts && q.tk == p.tk ensures p.ts == r.ts {
      assert SharesOne(q, r);
    }
  }

  /** Inserting a rule before others can enlarge the residue: a pair may take a code a later pair needs. */
  lemma InsertingCanEnlarge()
    ensures var r, rest := Rule(Some(1), Some(10)), [Rule(Some(2), Some(10)), Rule(Some(1), Some(11))];
            var s := Surplus(multiset{1, 2}, multiset{10, 11});
            && Residue(rest, s) == Surplus(multiset{}, multiset{})
            && Residue([r] + rest, s) == Surplus(multiset{2}, multiset{11})
  {
    hide Residue, Apply;
    var a, b, r := Rule(Some(2), Some(10)), Rule(Some(1), Some(11)), Rule(Some(1), Some(10));
    var s, mid, left := Surplus(multiset{1, 2}, multiset{10, 11}), Surplus(multiset{1}, multiset{11}), Surplus(multiset{2}, multiset{11});
    assert [r] + [a, b] == [r, a, b];
    TwoPairs(a, b, s);
    ThreePairs(r, a, b, s);
    CancelPair(2, 10, s, mid);
    CancelPair(1, 11, mid, Surplus(multiset{}, multiset{}));
    CancelPair(1, 10, s, left);
    NothingToCancel(a, left);
    NothingToCancel(b, left);
  }

  lemma TwoPairs(a: Rule, b: Rule, s: Surplus)
    requires Paired(a) && Paired(b)
    ensures Residue([a, b], s) == Apply(b, Apply(a, s))
  {
    hide Apply;
    PairsOnly([a, b]);
    ApplyOne(a, s);
    assert [a, b][..1] == [a] && ApplyAll([a, b], s) == Apply(b, ApplyAll([a], s));
  }

  lemma ThreePairs(a: Rule, b: Rule, c: Rule, s: Surplus)
    requires Paired(a) && Paired(b) && Paired(c)
    ensures Residue([a, b, c], s) == Apply(c, Apply(b, Apply(a, s)))
  {
    hide Apply;
    PairsOnly([a, b, c]);
    TwoPairs(a, b, s);
    PairsOnly([a, b]);
    assert [a, b, c][..2] == [a, b] && ApplyAll([a, b, c], s) == Apply(c, ApplyAll([a, b], s));
  }

  lemma CancelPair(tk: nat, ts: nat, s: Surplus, left: Surplus)
    requires s.tk[tk] == 1 && s.ts[ts] == 1 && left == Surplus(s.tk - multiset{tk}, s.ts - multiset{ts})
    ensures Apply(Rule(Some(tk), Some(ts)), s) == left
  {
  }

  lemma NothingToCancel(r: Rule, s: Surplus)
    requires Taken(r, s) == 0
    ensures Apply(r, s) == s
  {
  }

  lemma {:induction false} PairsOnly(rules: seq<Rule>)
    requires forall r | r in rules :: Paired(r)
    ensures InOrder(rules) == rules
  {
    if rules != [] {
      PairsOnly(rules[..|rules| - 1]);
      assert rules == rules[..|rules| - 1] + [rules[|rules| - 1]];
      assert Paired(rules[|rules| - 1]);
      NoneSelected(rules[..|rules| - 1]);
      NoneSelected(rules);
    }
  }

  lemma {:induction false} NoneSelected(rules: seq<Rule>)
    requires forall r | r in rules :: Paired(r)
    ensures Select(rules, OneSided) == []
  {
    if rules != [] {
      NoneSelected(rules[..|rules| - 1]);
      assert Paired(rules[|rules| - 1]);
    }
  }
}
