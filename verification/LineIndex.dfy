/** Byte offsets to lines and columns. */
module LineIndex {
  import opened Bytes
  import opened Counting

  const U32: nat := 0x1_0000_0000

  /** The start of every line, as 32-bit offsets. */
  datatype Index = Index(starts: seq<nat>, len: nat)

  datatype Position = Position(line: nat, column: nat)

  // ------------------------------------------------------------------ meaning

  ghost function Newlines(source: seq<byte>): nat {
    if source == [] then 0
    else Newlines(source[..|source| - 1]) + if source[|source| - 1] == NEWLINE then 1 else 0
  }

  /** The starts are 0 and every offset just after a newline. */
  ghost predicate Indexes(source: seq<byte>, starts: seq<nat>) {
    && Ascending(starts) && |starts| >= 1 && starts[0] == 0 && |starts| == 1 + Newlines(source)
    && (forall s | s in starts :: s <= |source|)
    && (forall k | 0 < k <= |source| :: k in starts <==> source[k - 1] == NEWLINE)
  }

  // ------------------------------------------------------------------ building

  method Build(source: seq<byte>) returns (index: Index)
    ensures |source| < U32 ==> index.len == |source| && Indexes(source, index.starts)
  {
    hide Indexes;
    var starts: seq<nat> := [0];
    NoLines();
    assert source[..0] == [];
    for i := 0 to |source|
      invariant |source| < U32 ==> Indexes(source[..i], starts)
    {
      if |source| < U32 {
        IndexStep(source, i, starts);
      }
      if source[i] == NEWLINE {
        starts := starts + [(i + 1) % U32];
      }
    }
    assert source[..|source|] == source;
    index := Index(starts, |source| % U32);
  }

  lemma NoLines()
    ensures Indexes([], [0])
  {
  }

  lemma IndexStep(source: seq<byte>, i: nat, starts: seq<nat>)
    requires i < |source| && Indexes(source[..i], starts)
    ensures Indexes(source[..i + 1], if source[i] == NEWLINE then starts + [i + 1] else starts)
  {
    hide Newlines, Ascending;
    var before, after := source[..i], source[..i + 1];
    OneMore(source, i);
    assert forall k | 0 <= k < i :: after[k] == before[k];
    if source[i] == NEWLINE {
      StillAscending(starts, i);
    } else {
      assert i + 1 !in starts;
    }
  }

  lemma OneMore(source: seq<byte>, i: nat)
    requires i < |source|
    ensures Newlines(source[..i + 1]) == Newlines(source[..i]) + if source[i] == NEWLINE then 1 else 0
  {
    assert source[..i + 1][..i] == source[..i];
  }

  lemma StillAscending(starts: seq<nat>, i: nat)
    requires Ascending(starts) && forall s | s in starts :: s <= i
    ensures Ascending(starts + [i + 1])
  {
    assert forall j | 0 <= j < |starts| :: starts[j] in starts;
  }

  // ------------------------------------------------------------------ lookup

  /** The number of starts that are at most `offset`, by binary search. */
  method PartitionPoint(starts: seq<nat>, offset: nat) returns (n: nat)
    requires Ascending(starts)
    ensures n <= |starts| && forall i | 0 <= i < |starts| :: i < n <==> starts[i] <= offset
  {
    var low, high := 0, |starts|;
    while low < high
      invariant 0 <= low <= high <= |starts|
      invariant forall i | 0 <= i < low :: starts[i] <= offset
      invariant forall i | high <= i < |starts| :: starts[i] > offset
    {
      var mid := (low + high) / 2;
      if starts[mid] <= offset {
        low := mid + 1;
      } else {
        high := mid;
      }
    }
    n := low;
  }

  /** The position is on the line after as many newlines as precede the clamped offset, and its column
      counts from that line's start. */
  ghost predicate Locates(source: seq<byte>, offset: nat, p: Position) {
    var at := Clamp(source, offset);
    && p.line == 1 + Newlines(source[..at]) && p.column >= 1
    && LineStart(source, at) + p.column - 1 == at
  }

  function Clamp(source: seq<byte>, offset: nat): nat {
    if offset < |source| then offset else |source|
  }

  /** Where the line that holds an offset begins. */
  ghost function LineStart(source: seq<byte>, at: nat): (s: nat)
    requires at <= |source|
    ensures s <= at
    ensures s > 0 ==> source[s - 1] == NEWLINE
    ensures forall k | s <= k < at :: source[k] != NEWLINE
  {
    if at == 0 || source[at - 1] == NEWLINE then at else LineStart(source, at - 1)
  }

  method LineCol(index: Index, offset: nat, ghost source: seq<byte>) returns (p: Position)
    requires |source| < U32 && index.len == |source| && Indexes(source, index.starts)
    ensures Locates(source, offset, p)
  {
    var at := if offset < index.len then offset else index.len;
    var line := PartitionPoint(index.starts, at);
    FoundLine(source, index.starts, at, line);
    line := if line < 1 then 1 else line;
    p := Position(line, at - index.starts[line - 1] + 1);
  }

  lemma FoundLine(source: seq<byte>, starts: seq<nat>, at: nat, n: nat)
    requires Indexes(source, starts) && at <= |source| && n <= |starts|
    requires forall i | 0 <= i < |starts| :: i < n <==> starts[i] <= at
    ensures n >= 1 && starts[n - 1] == LineStart(source, at) && n == 1 + Newlines(source[..at])
  {
    assert starts[0] <= at;
    var s := LineStart(source, at);
    assert s in starts by {
      if s == 0 {
        assert starts[0] in starts;
      }
    }
    var k :| 0 <= k < |starts| && starts[k] == s;
    assert starts[n - 1] in starts;
    LastStart(source, starts, at, n, k);
    CountStarts(source, starts, at, n);
  }

  lemma StartFollowsNewline(source: seq<byte>, starts: seq<nat>, i: nat)
    requires Indexes(source, starts) && 0 < i < |starts|
    ensures 0 < starts[i] <= |source| && source[starts[i] - 1] == NEWLINE
  {
    assert starts[i] in starts && starts[0] < starts[i];
  }

  lemma LastStart(source: seq<byte>, starts: seq<nat>, at: nat, n: nat, k: nat)
    requires Indexes(source, starts) && at <= |source| && 1 <= n <= |starts|
    requires forall i | 0 <= i < |starts| :: i < n <==> starts[i] <= at
    requires k < |starts| && starts[k] == LineStart(source, at)
    ensures k == n - 1
  {
    var s := LineStart(source, at);
    forall i | k < i < |starts| ensures starts[i] > at {
      StartFollowsNewline(source, starts, i);
      assert starts[i] > s;
    }
    assert starts[k] <= at && starts[n - 1] <= at;
  }

  /** The starts up to an offset are those of the text up to it. */
  lemma {:induction false} CountStarts(source: seq<byte>, starts: seq<nat>, at: nat, n: nat)
    requires Indexes(source, starts) && at <= |source| && 1 <= n <= |starts|
    requires forall i | 0 <= i < |starts| :: i < n <==> starts[i] <= at
    ensures n == 1 + Newlines(source[..at])
    decreases at
  {
    if at == 0 {
      assert |starts| > 1 ==> starts[1] > starts[0];
    } else {
      var before := source[..at];
      assert before[..at - 1] == source[..at - 1] && before[at - 1] == source[at - 1];
      if source[at - 1] == NEWLINE {
        assert at in starts;
        var k :| 0 <= k < |starts| && starts[k] == at;
        assert forall i | 0 <= i < |starts| :: i < k <==> starts[i] <= at - 1;
        assert k < n && (k + 1 < |starts| ==> starts[k + 1] > at);
        assert k == n - 1;
        CountStarts(source, starts, at - 1, k);
      } else {
        assert at !in starts;
        assert forall i | 0 <= i < |starts| :: starts[i] in starts && starts[i] != at;
        CountStarts(source, starts, at - 1, n);
      }
    }
  }

  // ------------------------------------------------------------------ order

  ghost predicate Before(p: Position, q: Position) {
    p.line < q.line || (p.line == q.line && p.column < q.column)
  }

  lemma {:induction false} NewlinesGrow(source: seq<byte>, a: nat, b: nat)
    requires a <= b <= |source|
    ensures Newlines(source[..a]) <= Newlines(source[..b])
    ensures (exists k :: a <= k < b && source[k] == NEWLINE) ==> Newlines(source[..a]) < Newlines(source[..b])
    decreases b
  {
    if a < b {
      NewlinesGrow(source, a, b - 1);
      assert source[..b][..b - 1] == source[..b - 1];
    }
  }

  /** Positions increase strictly with offsets up to the end of the source. */
  lemma PositionsIncrease(source: seq<byte>, a: nat, b: nat, p: Position, q: Position)
    requires a < b <= |source| && Locates(source, a, p) && Locates(source, b, q)
    ensures Before(p, q)
  {
    NewlinesGrow(source, a, b);
    if p.line == q.line {
      assert forall k | a <= k < b :: source[k] != NEWLINE;
      SameLine(source, a, b);
    }
  }

  lemma {:induction false} SameLine(source: seq<byte>, a: nat, b: nat)
    requires a <= b <= |source| && forall k | a <= k < b :: source[k] != NEWLINE
    ensures LineStart(source, a) == LineStart(source, b)
    decreases b
  {
    if a < b {
      SameLine(source, a, b - 1);
    }
  }

  /** A position determines its offset. */
  lemma PositionsAreUnique(source: seq<byte>, a: nat, b: nat, p: Position)
    requires a <= |source| && b <= |source| && Locates(source, a, p) && Locates(source, b, p)
    ensures a == b
  {
    if a < b {
      PositionsIncrease(source, a, b, p, p);
    } else if b < a {
      PositionsIncrease(source, b, a, p, p);
    }
  }

  /** Diagnostics sorted by byte offset are sorted by line and column. */
  lemma OffsetOrderIsPositionOrder(source: seq<byte>, offsets: seq<nat>, positions: seq<Position>)
    requires |offsets| == |positions| && forall i | 0 <= i < |offsets| :: Locates(source, offsets[i], positions[i])
    requires forall i, j | 0 <= i < j < |offsets| :: offsets[i] <= offsets[j]
    ensures forall i, j | 0 <= i < j < |positions| :: positions[i] == positions[j] || Before(positions[i], positions[j])
  {
    forall i, j | 0 <= i < j < |positions| ensures positions[i] == positions[j] || Before(positions[i], positions[j]) {
      var a, b := Clamp(source, offsets[i]), Clamp(source, offsets[j]);
      if a < b {
        PositionsIncrease(source, a, b, positions[i], positions[j]);
      }
    }
  }
}
