/** The benchmark's diagnostic transcripts: an automaton over classified output lines that accepts
    exactly the transcripts made of well-formed diagnostic blocks. */
module Transcript {
  import opened Wrappers
  import opened Text
  import Delimited

  datatype Kind = Wrapper | TypeLine | MissingLine | ArityLine | Elision

  /** An output line as the tool's regular expressions classify it. */
  datatype Line =
    | Primary(path: string, row: string, column: string, code: string)
    | Incomplete(path: string, text: string)
    | Reason(kind: Kind, depth: nat)
    | Indented
    | Other

  /** The file names a transcript may mention, with their logical names. */
  type Paths = map<string, string>

  datatype Block = Block(head: Line, chain: seq<Line>)

  datatype ContractError = Malformed(at: nat) | UnexpectedPath(at: nat) | Unfinished

  const CHAIN_CODES: set<string> := {"2322", "2344", "2345", "2416"}
  const FULL_DEPTH: nat := 16
  const ELISION_DEPTH: nat := 17
  const TERMINAL_DEPTH: nat := 18

  // ------------------------------------------------------------------ grammar

  predicate IsHead(l: Line) {
    l.Primary? || l.Incomplete?
  }

  predicate Last(k: Kind) {
    k == MissingLine || k == ArityLine
  }

  ghost predicate Numbered(c: seq<Line>) {
    forall k | 0 <= k < |c| :: c[k].Reason? && c[k].depth == k + 1
  }

  /** Line k has depth k; a wrapper is never last; a missing-property or arity line always is; levels are
      elided only at depth 17, with exactly one line after the elision; nothing else is that deep. */
  ghost predicate WellFormedChain(c: seq<Line>) {
    && Numbered(c)
    && (forall k | 0 <= k < |c| && c[k].kind == Wrapper :: k + 1 < |c|)
    && (forall k | 0 <= k < |c| && Last(c[k].kind) :: k + 1 == |c|)
    && (forall k | 0 <= k < |c| && c[k].kind == Elision :: k + 1 == ELISION_DEPTH && |c| == TERMINAL_DEPTH)
    && (|c| > ELISION_DEPTH ==> |c| == TERMINAL_DEPTH && c[ELISION_DEPTH - 1].kind == Elision)
  }

  ghost predicate WellFormed(paths: Paths, b: Block) {
    && IsHead(b.head) && b.head.path in paths && WellFormedChain(b.chain)
    && (b.chain != [] ==> b.head.Primary? && b.head.code in CHAIN_CODES)
  }

  ghost function Flatten(blocks: seq<Block>): seq<Line> {
    if blocks == [] then [] else [blocks[0].head] + blocks[0].chain + Flatten(blocks[1..])
  }

  ghost predicate AllWellFormed(paths: Paths, blocks: seq<Block>) {
    forall i | 0 <= i < |blocks| :: WellFormed(paths, blocks[i])
  }

  ghost predicate Consists(paths: Paths, lines: seq<Line>, blocks: seq<Block>) {
    Flatten(blocks) == lines && AllWellFormed(paths, blocks)
  }

  ghost predicate Grammatical(paths: Paths, lines: seq<Line>) {
    exists blocks :: Consists(paths, lines, blocks)
  }

  /** No continuation of `prefix` is grammatical. */
  ghost predicate Doomed(paths: Paths, prefix: seq<Line>) {
    forall more: seq<Line> :: !Grammatical(paths, prefix + more)
  }

  function HeadText(paths: Paths, l: Line): string
    requires IsHead(l) && l.path in paths
  {
    if l.Primary? then paths[l.path] + ":" + l.row + ":" + l.column + ":" + l.code else "INCOMPLETE:" + l.text
  }

  /** The row, column and code of a diagnostic are digits. */
  ghost predicate Numeric(l: Line) {
    l.Primary? ==> ':' !in l.row && ':' !in l.column && ':' !in l.code
  }

  /** A diagnostic's text names its file, row, column and code. */
  lemma HeadTextFields(paths: Paths, l: Line)
    requires l.Primary? && l.path in paths && Numeric(l)
    ensures Delimited.Split(HeadText(paths, l), ':') == Delimited.Split(paths[l.path], ':') + [l.row, l.column, l.code]
  {
    hide Delimited.Split;
    var file := paths[l.path];
    var text := file + [':'] + l.row + [':'] + l.column + [':'] + l.code;
    assert HeadText(paths, l) == text;
    Delimited.SplitConcat(file + [':'] + l.row + [':'] + l.column, ':', l.code);
    Delimited.SplitConcat(file + [':'] + l.row, ':', l.column);
    Delimited.SplitConcat(file, ':', l.row);
    Delimited.SplitWhole(l.row, ':');
    Delimited.SplitWhole(l.column, ':');
    Delimited.SplitWhole(l.code, ':');
  }

  /** Diagnostics with equal texts agree in file, row, column and code. */
  lemma EqualTextsAgree(paths: Paths, a: Line, b: Line)
    requires a.Primary? && a.path in paths && Numeric(a) && b.Primary? && b.path in paths && Numeric(b)
    ensures HeadText(paths, a) == HeadText(paths, b) <==>
            paths[a.path] == paths[b.path] && a.row == b.row && a.column == b.column && a.code == b.code
  {
    if HeadText(paths, a) == HeadText(paths, b) {
      hide HeadText, Delimited.Split;
      HeadTextFields(paths, a);
      HeadTextFields(paths, b);
      var x, y := Delimited.Split(paths[a.path], ':'), Delimited.Split(paths[b.path], ':');
      var all := x + [a.row, a.column, a.code];
      assert all == y + [b.row, b.column, b.code];
      assert x == all[..|all| - 3] == y;
      assert all[|all| - 3] == a.row == b.row && all[|all| - 2] == a.column == b.column && all[|all| - 1] == a.code == b.code;
      Delimited.JoinSplit(paths[a.path], ':');
      Delimited.JoinSplit(paths[b.path], ':');
    }
  }

  /** The text of an incomplete record holds the whole line, and is not that of a diagnostic unless a
      file is called as if it were such a record. */
  lemma IncompleteText(paths: Paths, i: Line, l: Line)
    requires i.Incomplete? && i.path in paths
    requires IsHead(l) && l.path in paths && Numeric(l)
    ensures l.Incomplete? ==> (HeadText(paths, i) == HeadText(paths, l) <==> i.text == l.text)
    ensures l.Primary? && Delimited.Split(paths[l.path], ':')[0] != "INCOMPLETE" ==> HeadText(paths, i) != HeadText(paths, l)
  {
    hide Delimited.Split;
    var text := HeadText(paths, i);
    assert text == "INCOMPLETE" + [':'] + i.text;
    assert text[11..] == i.text;
    if l.Incomplete? {
      assert HeadText(paths, l) == "INCOMPLETE" + [':'] + l.text && HeadText(paths, l)[11..] == l.text;
    } else {
      HeadTextFields(paths, l);
      Delimited.SplitConcat("INCOMPLETE", ':', i.text);
      Delimited.SplitWhole("INCOMPLETE", ':');
      assert Delimited.Split(text, ':')[0] == "INCOMPLETE";
    }
  }

  ghost function HeadTexts(paths: Paths, blocks: seq<Block>): seq<string>
    requires AllWellFormed(paths, blocks)
  {
    seq(|blocks|, i requires 0 <= i < |blocks| => HeadText(paths, blocks[i].head))
  }

  // ------------------------------------------------------------------ open blocks

  /** A chain that some continuation completes. */
  ghost predicate Extendable(c: seq<Line>) {
    && Numbered(c) && |c| <= TERMINAL_DEPTH
    && (forall k | 0 <= k < |c| && c[k].kind == Wrapper :: k + 1 <= FULL_DEPTH)
    && (forall k | 0 <= k < |c| && Last(c[k].kind) :: k + 1 == |c|)
    && (forall k | 0 <= k < |c| && c[k].kind == Elision :: k + 1 == ELISION_DEPTH)
    && (|c| > ELISION_DEPTH ==> c[ELISION_DEPTH - 1].kind == Elision)
  }

  /** Another line must follow. */
  ghost predicate Pending(c: seq<Line>) {
    c != [] && c[|c| - 1].Reason? && c[|c| - 1].kind in {Wrapper, Elision}
  }

  ghost predicate Partial(paths: Paths, b: Block) {
    && IsHead(b.head) && b.head.path in paths && Extendable(b.chain)
    && (b.chain != [] ==> b.head.Primary? && b.head.code in CHAIN_CODES)
  }

  lemma CompleteIsWellFormed(paths: Paths, b: Block)
    ensures WellFormed(paths, b) <==> Partial(paths, b) && !Pending(b.chain)
  {
    var c := b.chain;
    if Extendable(c) && !Pending(c) {
      forall k | 0 <= k < |c| && c[k].kind == Elision ensures |c| == TERMINAL_DEPTH {
        assert k == ELISION_DEPTH - 1;
        assert k + 1 < |c|;
      }
    }
  }

  lemma PrefixIsPartial(paths: Paths, b: Block, ext: seq<Line>)
    requires Partial(paths, Block(b.head, b.chain + ext)) && ext != []
    ensures Partial(paths, Block(b.head, b.chain + [ext[0]]))
  {
    var whole, c := b.chain + ext, b.chain + [ext[0]];
    assert forall k | 0 <= k < |c| :: c[k] == whole[k];
  }

  // ------------------------------------------------------------------ parsing

  /** Whether `rest` completes the open block and goes on grammatically. */
  ghost predicate Parses(paths: Paths, b: Block, rest: seq<Line>)
    decreases |rest|
  {
    if rest == [] then !Pending(b.chain)
    else if IsHead(rest[0]) then
      !Pending(b.chain) && rest[0].path in paths && Parses(paths, Block(rest[0], []), rest[1..])
    else
      Partial(paths, Block(b.head, b.chain + [rest[0]])) && Parses(paths, Block(b.head, b.chain + [rest[0]]), rest[1..])
  }

  ghost predicate ParsesAll(paths: Paths, lines: seq<Line>) {
    lines == [] || (IsHead(lines[0]) && lines[0].path in paths && Parses(paths, Block(lines[0], []), lines[1..]))
  }

  /** `ext` completes the open block; `blocks` is the rest. */
  ghost predicate Completes(paths: Paths, b: Block, rest: seq<Line>, ext: seq<Line>, blocks: seq<Block>) {
    && rest == ext + Flatten(blocks) && WellFormed(paths, Block(b.head, b.chain + ext)) && AllWellFormed(paths, blocks)
  }

  lemma {:induction false} ParsedCompletes(paths: Paths, b: Block, rest: seq<Line>) returns (ext: seq<Line>, blocks: seq<Block>)
    requires Partial(paths, b) && Parses(paths, b, rest)
    ensures Completes(paths, b, rest, ext, blocks)
    decreases |rest|
  {
    hide Completes, Partial, Pending;
    if rest == [] {
      ext, blocks := [], [];
      NothingCompletes(paths, b);
    } else if IsHead(rest[0]) {
      FreshIsPartial(paths, rest[0]);
      var more, tail := ParsedCompletes(paths, Block(rest[0], []), rest[1..]);
      ext, blocks := [], [Block(rest[0], more)] + tail;
      HeadCompletes(paths, b, rest, more, tail);
    } else {
      var more, tail := ParsedCompletes(paths, Block(b.head, b.chain + [rest[0]]), rest[1..]);
      ext, blocks := [rest[0]] + more, tail;
      ReasonCompletes(paths, b, rest, more, tail);
    }
  }

  lemma NothingCompletes(paths: Paths, b: Block)
    requires Partial(paths, b) && !Pending(b.chain)
    ensures Completes(paths, b, [], [], [])
  {
    hide WellFormed, Partial, Pending;
    CompleteIsWellFormed(paths, b);
    assert b.chain + [] == b.chain;
  }

  lemma HeadCompletes(paths: Paths, b: Block, rest: seq<Line>, more: seq<Line>, tail: seq<Block>)
    requires Partial(paths, b) && !Pending(b.chain) && rest != []
    requires Completes(paths, Block(rest[0], []), rest[1..], more, tail)
    ensures Completes(paths, b, rest, [], [Block(rest[0], more)] + tail)
  {
    hide WellFormed, Partial, Pending;
    CompleteIsWellFormed(paths, b);
    var blocks := [Block(rest[0], more)] + tail;
    assert [] + more == more && blocks[1..] == tail && b.chain + [] == b.chain;
    assert rest == [rest[0]] + rest[1..];
  }

  lemma ReasonCompletes(paths: Paths, b: Block, rest: seq<Line>, more: seq<Line>, tail: seq<Block>)
    requires rest != [] && Completes(paths, Block(b.head, b.chain + [rest[0]]), rest[1..], more, tail)
    ensures Completes(paths, b, rest, [rest[0]] + more, tail)
  {
    hide WellFormed, Flatten;
    assert b.chain + ([rest[0]] + more) == b.chain + [rest[0]] + more;
    assert rest == [rest[0]] + rest[1..];
  }

  lemma FreshIsPartial(paths: Paths, l: Line)
    requires IsHead(l) && l.path in paths
    ensures Partial(paths, Block(l, [])) && !Pending([])
  {
  }

  lemma {:induction false} CompletesParsed(paths: Paths, b: Block, rest: seq<Line>, ext: seq<Line>, blocks: seq<Block>)
    requires Partial(paths, b) && Completes(paths, b, rest, ext, blocks)
    ensures Parses(paths, b, rest)
    decreases |rest|
  {
    hide Completes, Partial, Pending, Flatten;
    if ext != [] {
      NextCompletes(paths, b, rest, ext, blocks);
      CompletesParsed(paths, Block(b.head, b.chain + [rest[0]]), rest[1..], ext[1..], blocks);
    } else {
      BlockCompletes(paths, b, rest, blocks);
      if blocks != [] {
        CompletesParsed(paths, Block(rest[0], []), rest[1..], blocks[0].chain, blocks[1..]);
      }
    }
  }

  lemma NextCompletes(paths: Paths, b: Block, rest: seq<Line>, ext: seq<Line>, blocks: seq<Block>)
    requires Completes(paths, b, rest, ext, blocks) && ext != []
    ensures rest != [] && !IsHead(rest[0]) && Partial(paths, Block(b.head, b.chain + [rest[0]]))
    ensures Completes(paths, Block(b.head, b.chain + [rest[0]]), rest[1..], ext[1..], blocks)
  {
    hide WellFormed, Partial, Flatten;
    CompleteIsWellFormed(paths, Block(b.head, b.chain + ext));
    PrefixIsPartial(paths, b, ext);
    ChainHasNoHead(paths, Block(b.head, b.chain + ext), |b.chain|);
    assert b.chain + [ext[0]] + ext[1..] == b.chain + ext;
    assert rest[1..] == ext[1..] + Flatten(blocks);
  }

  lemma BlockCompletes(paths: Paths, b: Block, rest: seq<Line>, blocks: seq<Block>)
    requires Completes(paths, b, rest, [], blocks)
    ensures !Pending(b.chain) && (rest == [] <==> blocks == [])
    ensures blocks != [] ==> rest[0] == blocks[0].head && IsHead(rest[0]) && rest[0].path in paths
    ensures blocks != [] ==> Partial(paths, Block(rest[0], []))
    ensures blocks != [] ==> Completes(paths, Block(rest[0], []), rest[1..], blocks[0].chain, blocks[1..])
  {
    hide WellFormed, Partial, Pending, Flatten;
    assert b.chain + [] == b.chain && [] + Flatten(blocks) == Flatten(blocks);
    CompleteIsWellFormed(paths, b);
    FlattenFirst(blocks);
    if blocks != [] {
      var first := blocks[0];
      HeadIsKnown(paths, first);
      FreshIsPartial(paths, first.head);
      assert [] + first.chain == first.chain;
    }
  }

  lemma FlattenFirst(blocks: seq<Block>)
    ensures Flatten(blocks) == [] <==> blocks == []
    ensures blocks != [] ==> Flatten(blocks)[0] == blocks[0].head
    ensures blocks != [] ==> Flatten(blocks)[1..] == blocks[0].chain + Flatten(blocks[1..])
  {
    if blocks != [] {
      assert Flatten(blocks) == [blocks[0].head] + (blocks[0].chain + Flatten(blocks[1..]));
    }
  }

  lemma HeadIsKnown(paths: Paths, b: Block)
    requires WellFormed(paths, b)
    ensures IsHead(b.head) && b.head.path in paths
  {
  }

  lemma ChainHasNoHead(paths: Paths, b: Block, k: nat)
    requires WellFormed(paths, b) && k < |b.chain|
    ensures !IsHead(b.chain[k])
  {
  }

  /** Parsing decides the grammar. */
  lemma ParsesIsGrammatical(paths: Paths, lines: seq<Line>)
    ensures ParsesAll(paths, lines) <==> Grammatical(paths, lines)
  {
    hide Parses, WellFormed, Partial, Consists;
    NothingConsists(paths);
    if lines == [] {
      assert Consists(paths, lines, []);
    }
    if ParsesAll(paths, lines) && lines != [] {
      var blocks := ParsedConsists(paths, lines);
    }
    if Grammatical(paths, lines) {
      var blocks :| Consists(paths, lines, blocks);
      if blocks != [] {
        FirstBlock(paths, lines, blocks);
      }
    }
  }

  lemma NothingConsists(paths: Paths)
    ensures forall lines :: Consists(paths, lines, []) <==> lines == []
  {
  }

  lemma ParsedConsists(paths: Paths, lines: seq<Line>) returns (blocks: seq<Block>)
    requires ParsesAll(paths, lines) && lines != []
    ensures Consists(paths, lines, blocks)
  {
    hide Parses, WellFormed, Partial;
    FreshIsPartial(paths, lines[0]);
    var ext, tail := ParsedCompletes(paths, Block(lines[0], []), lines[1..]);
    blocks := [Block(lines[0], ext)] + tail;
    assert [] + ext == ext && blocks[1..] == tail && lines == [lines[0]] + lines[1..];
  }

  lemma FirstBlock(paths: Paths, lines: seq<Line>, blocks: seq<Block>)
    requires Consists(paths, lines, blocks) && blocks != []
    ensures ParsesAll(paths, lines)
  {
    hide Parses, WellFormedChain;
    var first := blocks[0];
    assert WellFormed(paths, first);
    FreshIsPartial(paths, first.head);
    assert lines[0] == first.head && lines[1..] == first.chain + Flatten(blocks[1..]);
    assert [] + first.chain == first.chain;
    CompletesParsed(paths, Block(first.head, []), lines[1..], first.chain, blocks[1..]);
  }

  // ------------------------------------------------------------------ the automaton

  /** The depth the next reason line must have; 0 when none may follow. */
  ghost function NextDepth(b: Block): nat {
    if b.head.Primary? && b.head.code in CHAIN_CODES
       && (b.chain != [] && b.chain[|b.chain| - 1].Reason? ==> !Last(b.chain[|b.chain| - 1].kind))
       && (|b.chain| < ELISION_DEPTH || (|b.chain| == ELISION_DEPTH && Pending(b.chain)))
    then |b.chain| + 1 else 0
  }

  ghost predicate Elided(b: Block) {
    b.chain != [] && b.chain[|b.chain| - 1].Reason? && b.chain[|b.chain| - 1].kind == Elision
  }

  ghost predicate Tracks(b: Block, next: nat, required: bool, terminalOnly: bool) {
    next == NextDepth(b) && required == Pending(b.chain) && terminalOnly == Elided(b)
  }

  /** One line that is no head: the state after it, unless it is malformed. */
  method Continue(line: Line, next: nat, required: bool, terminalOnly: bool, ghost paths: Paths, ghost b: Block)
      returns (ok: bool, next': nat, required': bool, terminalOnly': bool)
    requires !IsHead(line) && Partial(paths, b) && Tracks(b, next, required, terminalOnly)
    ensures ok <==> Partial(paths, Block(b.head, b.chain + [line]))
    ensures ok ==> Tracks(Block(b.head, b.chain + [line]), next', required', terminalOnly')
  {
    ok, next', required', terminalOnly' := true, 0, false, false;
    ghost var c, c' := b.chain, b.chain + [line];
    assert c'[|c|] == line && forall k | 0 <= k < |c| :: c'[k] == c[k];
    assert |c| > 0 ==> c'[|c| - 1] == c[|c| - 1];
    if next != 0 && line.Reason? && line.depth == next {
      var terminal := Last(line.kind);
      if next <= FULL_DEPTH && line.kind != Elision {
        return true, if terminal then 0 else next + 1, line.kind == Wrapper, false;
      }
      if next == ELISION_DEPTH && (terminal || line.kind == TypeLine) {
        return true, 0, false, false;
      }
      if next == ELISION_DEPTH && line.kind == Elision && !terminalOnly {
        return true, TERMINAL_DEPTH, true, true;
      }
      if next == TERMINAL_DEPTH && terminalOnly && (terminal || line.kind == TypeLine) {
        return true, 0, false, false;
      }
    }
    ok := false;
  }

  /** A required line can always be supplied. */
  lemma PartialIsViable(paths: Paths, b: Block) returns (more: seq<Line>)
    requires Partial(paths, b)
    ensures Parses(paths, b, more)
  {
    more := [];
    if Pending(b.chain) {
      var line := Reason(MissingLine, |b.chain| + 1);
      more := [line];
      var c := b.chain + [line];
      assert forall k | 0 <= k < |b.chain| :: c[k] == b.chain[k];
      assert Partial(paths, Block(b.head, c));
      assert more[1..] == [] && Parses(paths, Block(b.head, c), []);
    }
  }

  /** The open block after the lines read so far decides every continuation. */
  ghost predicate Opened(paths: Paths, done: seq<Line>, open: seq<Block>) {
    && |open| <= 1
    && (open == [] ==> done == [])
    && (open != [] ==> Partial(paths, open[0]))
    && (open != [] ==> forall more: seq<Line> :: ParsesAll(paths, done + more) <==> Parses(paths, open[0], more))
  }

  lemma OpenHead(paths: Paths, done: seq<Line>, open: seq<Block>, line: Line)
    requires Opened(paths, done, open) && IsHead(line) && line.path in paths
    requires open != [] ==> !Pending(open[0].chain)
    ensures Opened(paths, done + [line], [Block(line, [])])
  {
    hide Partial, Pending;
    FreshIsPartial(paths, line);
    forall more: seq<Line> ensures ParsesAll(paths, done + [line] + more) <==> Parses(paths, Block(line, []), more) {
      assert done + [line] + more == done + ([line] + more);
      assert ([line] + more)[1..] == more;
      if open == [] {
        assert done + ([line] + more) == [line] + more;
      }
    }
  }

  lemma OpenReason(paths: Paths, done: seq<Line>, b: Block, line: Line)
    requires Opened(paths, done, [b]) && !IsHead(line) && Partial(paths, Block(b.head, b.chain + [line]))
    ensures Opened(paths, done + [line], [Block(b.head, b.chain + [line])])
  {
    hide Partial, Pending, ParsesAll;
    var next := Block(b.head, b.chain + [line]);
    forall more: seq<Line> ensures ParsesAll(paths, done + [line] + more) <==> Parses(paths, next, more) {
      assert done + [line] + more == done + ([line] + more);
      assert ([line] + more)[1..] == more;
    }
  }

  /** The line cannot follow, whatever comes after it. */
  ghost predicate Refused(paths: Paths, open: seq<Block>, line: Line) {
    if open == [] then !IsHead(line) || line.path !in paths
    else if IsHead(line) then Pending(open[0].chain) || line.path !in paths
    else !Partial(paths, Block(open[0].head, open[0].chain + [line]))
  }

  lemma RefusedIsDoomed(paths: Paths, done: seq<Line>, open: seq<Block>, line: Line)
    requires Opened(paths, done, open) && Refused(paths, open, line)
    ensures Doomed(paths, done + [line]) && !Doomed(paths, done)
  {
    hide Partial, Pending, Grammatical;
    forall more: seq<Line> ensures !Grammatical(paths, done + [line] + more) {
      ParsesIsGrammatical(paths, done + [line] + more);
      assert done + [line] + more == done + ([line] + more);
      if open == [] {
        assert done + ([line] + more) == [line] + more;
      } else {
        assert ([line] + more)[0] == line;
      }
    }
    OpenedIsViable(paths, done, open);
  }

  lemma OpenedIsViable(paths: Paths, done: seq<Line>, open: seq<Block>)
    requires Opened(paths, done, open)
    ensures !Doomed(paths, done)
  {
    hide Partial, Pending, Grammatical, Parses;
    var more: seq<Line> := [];
    if open != [] {
      more := PartialIsViable(paths, open[0]);
    } else {
      assert done + more == [];
    }
    ParsesIsGrammatical(paths, done + more);
  }

  /** The head lines, as the tool prints them. */
  ghost function Heads(paths: Paths, lines: seq<Line>): seq<string> {
    if lines == [] then []
    else
      var l := lines[|lines| - 1];
      Heads(paths, lines[..|lines| - 1]) + if IsHead(l) && l.path in paths then [HeadText(paths, l)] else []
  }

  lemma HeadsStep(paths: Paths, lines: seq<Line>, i: nat)
    requires i < |lines|
    ensures Heads(paths, lines[..i + 1]) ==
            Heads(paths, lines[..i]) + if IsHead(lines[i]) && lines[i].path in paths then [HeadText(paths, lines[i])] else []
  {
    assert lines[..i + 1][..i] == lines[..i];
  }

  lemma {:induction false} HeadsJoin(paths: Paths, a: seq<Line>, b: seq<Line>)
    ensures Heads(paths, a + b) == Heads(paths, a) + Heads(paths, b)
  {
    if b == [] {
      assert a + b == a;
    } else {
      HeadsJoin(paths, a, b[..|b| - 1]);
      assert (a + b)[..|a + b| - 1] == a + b[..|b| - 1];
    }
  }

  lemma {:induction false} NoHeads(paths: Paths, c: seq<Line>)
    requires forall k | 0 <= k < |c| :: !IsHead(c[k])
    ensures Heads(paths, c) == []
  {
    if c != [] {
      NoHeads(paths, c[..|c| - 1]);
    }
  }

  /** Each block contributes its head. */
  lemma {:induction false} HeadsOfBlocks(paths: Paths, blocks: seq<Block>)
    requires AllWellFormed(paths, blocks)
    ensures Heads(paths, Flatten(blocks)) == HeadTexts(paths, blocks)
  {
    hide WellFormedChain;
    if blocks != [] {
      var b := blocks[0];
      assert WellFormed(paths, b);
      HeadsOfBlocks(paths, blocks[1..]);
      forall k | 0 <= k < |b.chain| ensures !IsHead(b.chain[k]) {
        ChainHasNoHead(paths, b, k);
      }
      NoHeads(paths, b.chain);
      HeadsJoin(paths, [b.head] + b.chain, Flatten(blocks[1..]));
      HeadsJoin(paths, [b.head], b.chain);
      assert [b.head][..0] == [] && Heads(paths, [b.head]) == [HeadText(paths, b.head)];
      assert HeadTexts(paths, blocks) == [HeadText(paths, b.head)] + HeadTexts(paths, blocks[1..]);
    }
  }

  // ------------------------------------------------------------------ whole transcripts

  /** A typokat transcript is accepted exactly when it is grammatical, and yields the sorted block heads.
      A rejection points at the first line after which no continuation would do. */
  method NormalizeTypokat(lines: seq<Line>, paths: Paths) returns (r: Result<seq<string>, ContractError>)
    ensures r.Ok? <==> Grammatical(paths, lines)
    ensures r.Ok? ==> Sorted(r.value)
    ensures r.Ok? ==> forall blocks | Consists(paths, lines, blocks) ::
              multiset(r.value) == multiset(HeadTexts(paths, blocks))
    // so the order in which the tool lists its blocks does not show
    ensures r.Ok? ==> forall blocks, list | Consists(paths, lines, blocks) && Sorted(list) ::
              multiset(list) == multiset(HeadTexts(paths, blocks)) ==> list == r.value
    ensures r.Err? && !r.error.Unfinished? ==> r.error.at < |lines|
    ensures r.Err? && !r.error.Unfinished? ==> Doomed(paths, lines[..r.error.at + 1]) && !Doomed(paths, lines[..r.error.at])
    ensures r.Err? && r.error.Unfinished? ==> !Doomed(paths, lines)
    // an unexpected path is blamed only on a head line, and a head line otherwise only where no head could stand
    ensures r.Err? && r.error.UnexpectedPath? ==> IsHead(lines[r.error.at]) && lines[r.error.at].path !in paths
    ensures r.Err? && r.error.Malformed? && IsHead(lines[r.error.at]) ==>
              forall head | IsHead(head) :: Doomed(paths, lines[..r.error.at] + [head])
  {
    hide Grammatical, Doomed, Opened, Partial, Tracks, Pending, HeadText, HeadTexts, Heads, Sorted, AllWellFormed, Flatten;
    var diagnostics := [];
    assert diagnostics == Heads(paths, lines[..0]) by {
      NoHeads(paths, lines[..0]);
    }
    var next, required, terminalOnly := 0, false, false;
    ghost var open: seq<Block> := [];
    NothingOpened(paths);
    for i := 0 to |lines|
      invariant Opened(paths, lines[..i], open)
      invariant open == [] ==> next == 0 && !required && !terminalOnly
      invariant open != [] ==> Tracks(open[0], next, required, terminalOnly)
      invariant diagnostics == Heads(paths, lines[..i])
    {
      var line := lines[i];
      assert lines[..i + 1] == lines[..i] + [line];
      HeadsStep(paths, lines, i);
      OpenedFacts(paths, lines[..i], open, next, required, terminalOnly);
      if IsHead(line) {
        if required {
          Refuse(paths, lines, i, open);
          NoHeadHere(paths, lines[..i], open);
          return Err(Malformed(i));
        }
        if line.path !in paths {
          Refuse(paths, lines, i, open);
          return Err(UnexpectedPath(i));
        }
        diagnostics := diagnostics + [HeadText(paths, line)];
        next := if line.Primary? && line.code in CHAIN_CODES then 1 else 0;
        required, terminalOnly := false, false;
        OpenHead(paths, lines[..i], open, line);
        open := [Block(line, [])];
        FreshTracks(line, next);
      } else if next == 0 {
        RefuseReason(paths, lines, i, open, next, required, terminalOnly);
        return Err(Malformed(i));
      } else {
        ghost var b := open[0];
        assert open == [b];
        var ok;
        ok, next, required, terminalOnly := Continue(line, next, required, terminalOnly, paths, b);
        if !ok {
          Refuse(paths, lines, i, open);
          return Err(Malformed(i));
        }
        OpenReason(paths, lines[..i], b, line);
        open := [Block(b.head, b.chain + [line])];
      }
    }
    assert lines[..|lines|] == lines;
    Finish(paths, lines, open, next, required, terminalOnly);
    if required {
      return Err(Unfinished);
    }
    var sorted := Sort(diagnostics);
    forall blocks | Consists(paths, lines, blocks) ensures multiset(sorted) == multiset(HeadTexts(paths, blocks)) {
      ConsistsHeads(paths, lines, blocks);
    }
    OneSortedList(sorted);
    return Ok(sorted);
  }

  lemma OneSortedList(sorted: seq<string>)
    requires Sorted(sorted)
    ensures forall list | Sorted(list) && multiset(list) == multiset(sorted) :: list == sorted
  {
    hide Sorted;
    forall list | Sorted(list) && multiset(list) == multiset(sorted) ensures list == sorted {
      SortedUnique(list, sorted);
    }
  }

  lemma ConsistsHeads(paths: Paths, lines: seq<Line>, blocks: seq<Block>)
    requires Consists(paths, lines, blocks)
    ensures AllWellFormed(paths, blocks) && Heads(paths, lines) == HeadTexts(paths, blocks)
  {
    HeadsOfBlocks(paths, blocks);
  }

  lemma NothingOpened(paths: Paths)
    ensures Opened(paths, [], [])
  {
  }

  lemma FreshTracks(line: Line, next: nat)
    requires IsHead(line) && next == if line.Primary? && line.code in CHAIN_CODES then 1 else 0
    ensures Tracks(Block(line, []), next, false, false)
  {
  }

  lemma OpenedFacts(paths: Paths, done: seq<Line>, open: seq<Block>, next: nat, required: bool, terminalOnly: bool)
    requires Opened(paths, done, open)
    requires open == [] ==> next == 0 && !required && !terminalOnly
    requires open != [] ==> Tracks(open[0], next, required, terminalOnly)
    ensures |open| <= 1 && (open == [] ==> done == []) && (open != [] ==> Partial(paths, open[0]))
    ensures required <==> open != [] && Pending(open[0].chain)
  {
  }

  lemma Refuse(paths: Paths, lines: seq<Line>, i: nat, open: seq<Block>)
    requires i < |lines| && Opened(paths, lines[..i], open) && Refused(paths, open, lines[i])
    ensures Doomed(paths, lines[..i + 1]) && !Doomed(paths, lines[..i]) && !Grammatical(paths, lines)
  {
    hide Opened, Refused, Grammatical;
    assert lines[..i + 1] == lines[..i] + [lines[i]];
    RefusedIsDoomed(paths, lines[..i], open, lines[i]);
    assert lines == lines[..i + 1] + lines[i + 1..];
  }

  /** While a line is required, no head will do. */
  lemma NoHeadHere(paths: Paths, done: seq<Line>, open: seq<Block>)
    requires Opened(paths, done, open) && open != [] && Pending(open[0].chain)
    ensures forall head | IsHead(head) :: Doomed(paths, done + [head])
  {
    hide Doomed, Opened, Pending, Partial;
    forall head | IsHead(head) ensures Doomed(paths, done + [head]) {
      RefusedIsDoomed(paths, done, open, head);
    }
  }

  lemma RefuseReason(paths: Paths, lines: seq<Line>, i: nat, open: seq<Block>, next: nat, required: bool, terminalOnly: bool)
    requires i < |lines| && Opened(paths, lines[..i], open) && !IsHead(lines[i]) && next == 0
    requires open != [] ==> Tracks(open[0], next, required, terminalOnly) && Partial(paths, open[0])
    ensures Doomed(paths, lines[..i + 1]) && !Doomed(paths, lines[..i]) && !Grammatical(paths, lines)
  {
    hide Opened, Doomed, Grammatical;
    if open != [] {
      NoDepthNoReason(paths, open[0], lines[i]);
    }
    Refuse(paths, lines, i, open);
  }

  lemma NoDepthNoReason(paths: Paths, b: Block, line: Line)
    requires Partial(paths, b) && NextDepth(b) == 0 && !IsHead(line)
    ensures !Partial(paths, Block(b.head, b.chain + [line]))
  {
    var c, c' := b.chain, b.chain + [line];
    assert c'[|c|] == line && forall k | 0 <= k < |c| :: c'[k] == c[k];
  }

  lemma Finish(paths: Paths, lines: seq<Line>, open: seq<Block>, next: nat, required: bool, terminalOnly: bool)
    requires Opened(paths, lines, open)
    requires open == [] ==> next == 0 && !required && !terminalOnly
    requires open != [] ==> Tracks(open[0], next, required, terminalOnly)
    ensures required <==> !Grammatical(paths, lines)
    ensures !Doomed(paths, lines)
  {
    hide Grammatical, Doomed, Partial, Pending;
    OpenedIsViable(paths, lines, open);
    ParsesIsGrammatical(paths, lines);
    assert lines + [] == lines;
  }

  /** Lines of the reference tool's transcript that continue a diagnostic. */
  predicate Continuation(l: Line) {
    match l {
      case Reason(_, depth) => depth > 0
      case Indented => true
      case Incomplete(_, text) => text != [] && text[0] in {' ', '\t'}
      case Primary(_, _, _, _) => false
      case Other => false
    }
  }

  ghost predicate TsgoLine(paths: Paths, l: Line) {
    || (l.Primary? && l.path in paths) || l.Indented? || (l.Reason? && l.depth > 0)
    || (l.Incomplete? && l.text != [] && (l.text[0] == ' ' || l.text[0] == '\t'))
  }

  /** The reference tool's heads: its diagnostics only. */
  ghost function TsgoHeads(paths: Paths, lines: seq<Line>): seq<string> {
    Heads(paths, Primaries(lines))
  }

  function Primaries(lines: seq<Line>): seq<Line> {
    if lines == [] then []
    else Primaries(lines[..|lines| - 1]) + if lines[|lines| - 1].Primary? then [lines[|lines| - 1]] else []
  }

  /** A reference transcript is accepted exactly when every line is a known diagnostic or a continuation. */
  method NormalizeTsgo(lines: seq<Line>, paths: Paths) returns (r: Result<seq<string>, ContractError>)
    ensures r.Ok? <==> forall k | 0 <= k < |lines| :: TsgoLine(paths, lines[k])
    ensures r.Ok? ==> Sorted(r.value) && multiset(r.value) == multiset(TsgoHeads(paths, lines))
    ensures r.Err? ==> r.error.Malformed? || r.error.UnexpectedPath?
    ensures r.Err? ==> r.error.at < |lines| && (r.error.UnexpectedPath? <==> lines[r.error.at].Primary?)
    ensures r.Err? ==> r.error.at < |lines| && !TsgoLine(paths, lines[r.error.at])
    ensures r.Err? ==> forall k | 0 <= k < r.error.at :: TsgoLine(paths, lines[k])
  {
    hide HeadText, Continuation, TsgoLine, TsgoHeads, Primaries, Heads, Sorted;
    var diagnostics := [];
    NothingListed(paths);
    for i := 0 to |lines|
      invariant forall k | 0 <= k < i :: TsgoLine(paths, lines[k])
      invariant diagnostics == TsgoHeads(paths, lines[..i])
    {
      var line := lines[i];
      PrimaryStep(paths, lines, i);
      ContinuationMeans(paths, line);
      if line.Primary? {
        if line.path !in paths {
          return Err(UnexpectedPath(i));
        }
        diagnostics := diagnostics + [HeadText(paths, line)];
      } else if !Continuation(line) {
        return Err(Malformed(i));
      }
    }
    assert lines[..|lines|] == lines;
    var sorted := Sort(diagnostics);
    return Ok(sorted);
  }

  lemma ContinuationMeans(paths: Paths, line: Line)
    ensures TsgoLine(paths, line) <==> if line.Primary? then line.path in paths else Continuation(line)
  {
  }

  lemma NothingListed(paths: Paths)
    ensures TsgoHeads(paths, []) == []
  {
  }

  lemma PrimaryStep(paths: Paths, lines: seq<Line>, i: nat)
    requires i < |lines|
    ensures TsgoHeads(paths, lines[..i + 1]) == TsgoHeads(paths, lines[..i]) +
            if lines[i].Primary? && lines[i].path in paths then [HeadText(paths, lines[i])] else []
  {
    assert lines[..i + 1][..i] == lines[..i];
    var before := Primaries(lines[..i]);
    assert (before + [lines[i]])[..|before|] == before;
    assert before + [] == before;
  }
}
