/** Greedy shrinking: over program trees within a budget of oracle calls, and over the lines of a text. */
module Shrinker {
  import opened Wrappers
  import opened ProgramTree
  import opened ProgramReductions
  import opened ProgramSteps
  import opened Delimited

  // ------------------------------------------------------------------ programs

  /** Nothing smaller that one step gives is accepted. */
  ghost predicate LocallyMinimal(p: Program, oracle: Program -> bool, size: Program -> nat) {
    forall c | Step(p, c) && size(c) < size(p) :: !oracle(c)
  }

  /** Candidate `i` is the first smaller one that is accepted. */
  ghost predicate FirstChoice(best: Program, oracle: Program -> bool, size: Program -> nat, next: Program, i: nat) {
    && i < |Reductions(best)| && Reductions(best)[i] == next
    && forall j | 0 <= j < i && size(Reductions(best)[j]) < size(best) :: !oracle(Reductions(best)[j])
  }

  /** One pass over the candidates: the first smaller one the oracle accepts. */
  method FirstAccepted(best: Program, oracle: Program -> bool, size: Program -> nat, budget: nat, calls0: nat)
      returns (found: bool, next: Program, calls: nat)
    requires calls0 < budget
    ensures calls0 <= calls <= budget
    // the first in the order in which they are tried
    ensures found ==> exists i: nat :: FirstChoice(best, oracle, size, next, i)
    ensures found ==> Step(best, next) && size(next) < size(best) && oracle(next) && calls0 < calls
    ensures !found && calls < budget ==> LocallyMinimal(best, oracle, size)
  {
    hide Reductions, Step;
    var candidates := Reductions(best);
    calls, found, next := calls0, false, best;
    for i := 0 to |candidates|
      invariant calls0 <= calls <= budget
      invariant calls < budget ==> forall j | 0 <= j < i && size(candidates[j]) < size(best) :: !oracle(candidates[j])
    {
      if calls >= budget {
        return;
      }
      if size(candidates[i]) < size(best) {
        calls := calls + 1;
        if oracle(candidates[i]) {
          ReductionsShrink(best, candidates[i]);
          assert FirstChoice(best, oracle, size, candidates[i], i);
          return true, candidates[i], calls;
        }
      }
    }
    AllStepsTried(best, oracle, size, candidates);
  }

  lemma AllStepsTried(p: Program, oracle: Program -> bool, size: Program -> nat, candidates: seq<Program>)
    requires candidates == Reductions(p)
    ensures (forall j | 0 <= j < |candidates| && size(candidates[j]) < size(p) :: !oracle(candidates[j])) ==> LocallyMinimal(p, oracle, size)
  {
    hide Reductions, Step;
    forall c | Step(p, c) ensures exists j :: 0 <= j < |candidates| && candidates[j] == c {
      ReductionsShrink(p, c);
    }
  }

  /** Take the first accepted reduction and start over, until nothing shrinks or the budget is spent. */
  method ShrinkProgram(prog: Program, oracle: Program -> bool, size: Program -> nat, budget: nat)
      returns (best: Program, calls: nat)
    ensures calls <= budget
    ensures Pruned(prog, best) || (oracle(best) && exists start :: Pruned(prog, start) && size(best) < size(start))
    ensures calls < budget ==> LocallyMinimal(best, oracle, size)
    ensures WellFormed(prog) ==>
              && WellFormed(best)
              && (Pruned(prog, best) || exists start :: Pruned(prog, start) && ProgramWeight(best) < ProgramWeight(start))
  {
    hide WellFormed, Reductions, LocallyMinimal, ProgramWeight, Pruned, Step;
    PruneIsPruned(prog, Prune(prog));
    best, calls := Prune(prog), 0;
    if WellFormed(prog) {
      PruneKeeps(prog);
    }
    var changed := true;
    while changed && calls < budget
      invariant calls <= budget
      invariant best == Prune(prog) || (oracle(best) && size(best) < size(Prune(prog)))
      invariant WellFormed(prog) ==>
                  && WellFormed(best)
                  && (best == Prune(prog) || ProgramWeight(best) < ProgramWeight(Prune(prog)))
      invariant !changed && calls < budget ==> LocallyMinimal(best, oracle, size)
      decreases changed, size(best)
    {
      var next;
      changed, next, calls := FirstAccepted(best, oracle, size, budget, calls);
      if changed {
        ReductionsShrink(best, next);
        if WellFormed(prog) {
          ReductionsAreSound(best, next);
        }
        best := next;
      }
    }
  }

  // ------------------------------------------------------------------ texts

  /** The text without line `i`. */
  function WithoutLine(text: string, i: nat): string
    requires i < |Split(text, '\n')|
  {
    Join(Without(Split(text, '\n'), i), '\n')
  }

  lemma {:induction false} JoinWithout(parts: seq<string>, sep: char, i: nat)
    requires i < |parts|
    ensures |Join(Without(parts, i), sep)| + |parts[i]| <= |Join(parts, sep)|
  {
    var fewer := Without(parts, i);
    if |parts| > 1 {
      if i == 0 {
        assert fewer == parts[1..];
      } else {
        JoinWithout(parts[1..], sep, i - 1);
        assert fewer[0] == parts[0] && fewer[1..] == Without(parts[1..], i - 1);
      }
    }
  }

  /** The lines of what is left are the others. */
  lemma OtherLinesStay(text: string, i: nat)
    requires i < |Split(text, '\n')| && |Split(text, '\n')| > 1
    ensures Split(WithoutLine(text, i), '\n') == Split(text, '\n')[..i] + Split(text, '\n')[i + 1..]
  {
    hide Split, Join;
    var rest := Split(text, '\n')[..i] + Split(text, '\n')[i + 1..];
    SplitLacks(text, '\n', '\n');
    SplitJoin(rest, '\n');
  }

  lemma RemovalShortens(text: string, i: nat)
    requires i < |Split(text, '\n')| && !Blank(Split(text, '\n')[i])
    ensures |WithoutLine(text, i)| < |text|
  {
    JoinWithout(Split(text, '\n'), '\n', i);
    JoinSplit(text, '\n');
  }

  /** No single line that is not blank can go. */
  ghost predicate LineMinimal(text: string, oracle: string -> bool) {
    forall i | 0 <= i < |Split(text, '\n')| && !Blank(Split(text, '\n')[i]) :: !oracle(WithoutLine(text, i))
  }

  predicate EndsInNewline(text: string) {
    text != [] && text[|text| - 1] == '\n'
  }

  /** The text without the last of its first `end` lines that is not blank and can go. */
  function DropBefore(text: string, oracle: string -> bool, end: nat): (next: Option<string>)
    requires end <= |Split(text, '\n')|
    ensures next.Some? ==> oracle(next.value) && |next.value| < |text|
    ensures next.Some? ==> EndsInNewline(text) ==> EndsInNewline(next.value) || next.value == []
  {
    if end == 0 then None
    else if !Blank(Split(text, '\n')[end - 1]) && oracle(WithoutLine(text, end - 1)) then
      RemovalShortens(text, end - 1);
      RemovalKeepsNewline(text, end - 1);
      Some(WithoutLine(text, end - 1))
    else DropBefore(text, oracle, end - 1)
  }

  /** Lines dropped one at a time until none can go. */
  function Settled(text: string, oracle: string -> bool): (best: string)
    ensures best == text || oracle(best)
    ensures EndsInNewline(text) && !oracle([]) ==> EndsInNewline(best)
    decreases |text|
  {
    var next := DropBefore(text, oracle, |Split(text, '\n')|);
    if next.Some? then Settled(next.value, oracle) else text
  }

  function Newlined(text: string): string {
    if EndsInNewline(text) then text else text + "\n"
  }

  /** Where the polish of lines starts: the oracle may turn down the removal of the origin comment,
      which `strip` does, and of the name prefix, which `unprefix` does when there is one. */
  function Entry(source: string, oracle: string -> bool, strip: string -> string, unprefix: Option<string -> string>): (text: string)
    ensures text == source || oracle(text)
  {
    var text := if oracle(strip(source)) then strip(source) else source;
    if unprefix.Some? && oracle(unprefix.value(text)) then unprefix.value(text) else text
  }

  /** A text ends in a newline when its last line is empty; a line that is not blank is another one. */
  lemma {:induction false} SplitEnds(text: string)
    ensures EndsInNewline(text) <==> |Split(text, '\n')| > 1 && Split(text, '\n')[|Split(text, '\n')| - 1] == []
  {
    if text != [] {
      SplitEnds(text[1..]);
    }
  }

  lemma {:induction false} JoinEnds(parts: seq<string>)
    requires |parts| > 1 && parts[|parts| - 1] == []
    ensures EndsInNewline(Join(parts, '\n'))
  {
    if |parts| > 2 {
      JoinEnds(parts[1..]);
    }
  }

  /** Removing a line that is not blank keeps a final newline or leaves nothing. */
  lemma RemovalKeepsNewline(text: string, i: nat)
    requires i < |Split(text, '\n')| && !Blank(Split(text, '\n')[i])
    ensures EndsInNewline(text) ==> EndsInNewline(WithoutLine(text, i)) || WithoutLine(text, i) == []
  {
    SplitEnds(text);
    var fewer := Without(Split(text, '\n'), i);
    if EndsInNewline(text) && |fewer| > 1 {
      JoinEnds(fewer);
    }
  }

  /** The polish of lines answers with its input or with an accepted text, whatever the oracle, if
      and only if that input ends in a newline. */
  lemma FinalNewlineIsGuarded(text: string)
    ensures (forall oracle: string -> bool | !oracle([]) ::
               Newlined(Settled(text, oracle)) == text || oracle(Newlined(Settled(text, oracle))))
            <==> EndsInNewline(text)
  {
    if !EndsInNewline(text) {
      var refuses: string -> bool := s => false;
      assert Newlined(Settled(text, refuses)) == text + "\n";
    }
  }

  /** Rewriting never loses the final newline of a text it does not empty: removing comment lines,
      leading newlines or a name prefix cannot. */
  ghost predicate KeepsNewline(rewrite: string -> string) {
    forall text | EndsInNewline(text) :: EndsInNewline(rewrite(text)) || rewrite(text) == []
  }

  /** Over whole runs: the answer is the source or accepted, whatever the oracle, if and only if the
      source ends in a newline. */
  lemma WhenPolishIsGuarded(source: string, strip: string -> string, unprefix: Option<string -> string>)
    requires KeepsNewline(strip) && (unprefix.Some? ==> KeepsNewline(unprefix.value))
    ensures (forall oracle: string -> bool | !oracle([]) ::
               var result := Newlined(Settled(Entry(source, oracle, strip, unprefix), oracle));
               result == source || oracle(result))
            <==> EndsInNewline(source)
  {
    if EndsInNewline(source) {
      forall oracle: string -> bool | !oracle([])
        ensures EndsInNewline(Entry(source, oracle, strip, unprefix))
      {
      }
    } else {
      var refuses: string -> bool := s => false;
      assert Newlined(Settled(Entry(source, refuses, strip, unprefix), refuses)) == source + "\n";
    }
  }

  /** The oracle accepts the source alone, and the answer is another text. */
  lemma FinalNewlineIsUnguarded()
    ensures var oracle: string -> bool := s => s == "x";
            oracle("x") && Newlined(Settled("x", oracle)) == "x\n" && !oracle("x\n")
  {
  }

  /** Bottom up, the first line whose removal the oracle accepts. */
  method DropLine(text: string, oracle: string -> bool) returns (dropped: bool, next: string)
    ensures var drop := DropBefore(text, oracle, |Split(text, '\n')|);
            dropped == drop.Some? && next == if drop.Some? then drop.value else text
    ensures !dropped ==> LineMinimal(text, oracle)
  {
    hide Split, Join;
    var i := |Split(text, '\n')|;
    while i > 0
      invariant 0 <= i <= |Split(text, '\n')|
      invariant DropBefore(text, oracle, |Split(text, '\n')|) == DropBefore(text, oracle, i)
      invariant forall j | i <= j < |Split(text, '\n')| && !Blank(Split(text, '\n')[j]) :: !oracle(WithoutLine(text, j))
    {
      i := i - 1;
      if !Blank(Split(text, '\n')[i]) {
        if oracle(WithoutLine(text, i)) {
          return true, WithoutLine(text, i);
        }
      }
    }
    return false, text;
  }

  /** The oracle-guarded polish.  Only the final newline is added without asking, so the answer is
      sure to be the source or an accepted text only when the lines are polished from a text that
      ends in a newline. */
  method ShrinkText(source: string, oracle: string -> bool, strip: string -> string, unprefix: Option<string -> string>)
      returns (result: string, ghost best: string)
    ensures best == Settled(Entry(source, oracle, strip, unprefix), oracle) && result == Newlined(best)
    ensures best == source || oracle(best)
    ensures LineMinimal(best, oracle)
    ensures EndsInNewline(Entry(source, oracle, strip, unprefix)) && !oracle([]) ==> result == source || oracle(result)
  {
    hide LineMinimal, DropBefore;
    var text := source;
    var stripped := strip(text);
    if stripped != text && oracle(stripped) {
      text := stripped;
    }
    if unprefix.Some? {
      var unprefixed := unprefix.value(text);
      if unprefixed != text && oracle(unprefixed) {
        text := unprefixed;
      }
    }
    var changed := true;
    assert text == Entry(source, oracle, strip, unprefix);
    while changed
      invariant Settled(text, oracle) == Settled(Entry(source, oracle, strip, unprefix), oracle)
      invariant !changed ==> LineMinimal(text, oracle) && text == Settled(text, oracle)
      decreases changed, |text|
    {
      changed, text := DropLine(text, oracle);
    }
    best := text;
    result := if text != [] && text[|text| - 1] == '\n' then text else text + "\n";
  }
}
