/** The bounded frame reader of the batch worker: what it yields depends on the bytes alone, and it
    accepts exactly the streams a sender produces. */
module Frames {
  import opened Bytes

  const MAX_FRAME: nat := 2 * 1024 * 1024

  datatype Frame = Eof | Data(payload: Bytes) | Exceeds | Unterminated

  // ------------------------------------------------------------------ meaning

  /** The length of the part before the first newline; the whole length without one. */
  function ContentLength(s: Bytes): (n: nat)
    ensures n <= |s| && NEWLINE !in s[..n] && (n < |s| ==> s[n] == NEWLINE)
  {
    if s == [] || s[0] == NEWLINE then 0
    else
      var n := 1 + ContentLength(s[1..]);
      assert s[..n] == [s[0]] + s[1..][..n - 1];
      n
  }

  /** The first frame of a stream. */
  function NextFrame(s: Bytes): Frame {
    var n := ContentLength(s);
    if s == [] then Eof
    else if n > MAX_FRAME - 1 then Exceeds
    else if n == |s| then Unterminated
    else Data(s[..n])
  }

  /** All frames of a stream and how it ends. */
  function AllFrames(s: Bytes): (seq<Bytes>, Frame)
    decreases |s|
  {
    var f := NextFrame(s);
    if f.Data? then
      var (rest, end) := AllFrames(s[|f.payload| + 1..]);
      ([f.payload] + rest, end)
    else ([], f)
  }

  // ------------------------------------------------------------------ the reader

  /** A buffered byte source.  Each chunk is what one refill of the buffer delivers. */
  class Reader {
    var chunks: seq<Bytes>

    ghost predicate Valid()
      reads this
    {
      forall i | 0 <= i < |chunks| :: chunks[i] != []
    }

    ghost function Remaining(): Bytes
      reads this
    {
      Concat(chunks)
    }

    constructor (chunks: seq<Bytes>)
      requires forall i | 0 <= i < |chunks| :: chunks[i] != []
      ensures Valid() && Remaining() == Concat(chunks)
    {
      this.chunks := chunks;
    }

    /** The buffered bytes; none only at the end of the stream. */
    function FillBuf(): (available: Bytes)
      reads this
      requires Valid()
      ensures available == [] <==> Remaining() == []
      ensures available <= Remaining()
    {
      if chunks == [] then [] else assert chunks[0] <= Concat(chunks); chunks[0]
    }

    method Consume(n: nat)
      requires Valid() && n <= |FillBuf()|
      modifies this
      ensures Valid() && Remaining() == old(Remaining())[n..]
    {
      if n == 0 {
        return;
      }
      ghost var rest := Concat(chunks[1..]);
      assert chunks[0] + rest == Remaining();
      assert (chunks[0] + rest)[n..] == chunks[0][n..] + rest;
      if n == |chunks[0]| {
        chunks := chunks[1..];
      } else {
        chunks := [chunks[0][n..]] + chunks[1..];
        assert chunks[1..] == old(chunks)[1..];
      }
    }
  }

  ghost function Concat(chunks: seq<Bytes>): Bytes {
    if chunks == [] then [] else chunks[0] + Concat(chunks[1..])
  }

  /** A newline-free prefix only adds to the content. */
  lemma {:induction false} ContentSkips(a: Bytes, b: Bytes)
    requires NEWLINE !in a
    ensures ContentLength(a + b) == |a| + ContentLength(b)
  {
    if a == [] {
      assert a + b == b;
    } else {
      assert (a + b)[1..] == a[1..] + b;
      ContentSkips(a[1..], b);
    }
  }

  lemma {:induction false} ContentOfPrefix(a: Bytes, b: Bytes)
    ensures ContentLength(a) < |a| ==> ContentLength(a + b) == ContentLength(a)
    ensures ContentLength(a) <= ContentLength(a + b)
  {
    if a != [] && a[0] != NEWLINE {
      assert (a + b)[1..] == a[1..] + b;
      ContentOfPrefix(a[1..], b);
    }
  }

  /** The bytes ran out. */
  lemma EndOfBytes(frame: Bytes)
    requires NEWLINE !in frame && |frame| <= MAX_FRAME - 1
    ensures NextFrame(frame + []) == if frame == [] then Eof else Unterminated
  {
    assert frame + [] == frame;
    ContentSkips(frame, []);
  }

  /** The content of the whole starts with the content at hand. */
  lemma ContentAtHand(frame: Bytes, available: Bytes, rest: Bytes)
    requires NEWLINE !in frame && available <= rest
    ensures ContentLength(frame + rest) >= |frame| + ContentLength(available)
    ensures ContentLength(available) < |available| ==> ContentLength(frame + rest) == |frame| + ContentLength(available)
  {
    hide ContentLength;
    assert rest == available + rest[|available|..];
    ContentSkips(frame, rest);
    ContentOfPrefix(available, rest[|available|..]);
  }

  /** The bytes at hand already exceed the bound. */
  lemma TooLong(frame: Bytes, available: Bytes, rest: Bytes)
    requires NEWLINE !in frame && available != [] && available <= rest
    requires |frame| + ContentLength(available) > MAX_FRAME - 1
    ensures NextFrame(frame + rest) == Exceeds
  {
    hide ContentLength;
    ContentAtHand(frame, available, rest);
  }

  /** The newline is at hand. */
  lemma NewlineFound(frame: Bytes, available: Bytes, rest: Bytes)
    requires NEWLINE !in frame && available <= rest && ContentLength(available) < |available|
    requires |frame| + ContentLength(available) <= MAX_FRAME - 1
    ensures NextFrame(frame + rest) == Data(frame + available[..ContentLength(available)])
    ensures rest[ContentLength(available) + 1..] == (frame + rest)[|frame| + ContentLength(available) + 1..]
  {
    hide ContentLength;
    ContentAtHand(frame, available, rest);
    SliceOver(frame, available, rest, ContentLength(available));
  }

  lemma SliceOver(frame: Bytes, available: Bytes, rest: Bytes, n: nat)
    requires available <= rest && n < |available|
    ensures (frame + rest)[..|frame| + n] == frame + available[..n]
    ensures rest[n + 1..] == (frame + rest)[|frame| + n + 1..]
  {
  }

  /** No newline at hand: all of it is content. */
  lemma AllContent(frame: Bytes, available: Bytes, rest: Bytes)
    requires NEWLINE !in frame && available <= rest && ContentLength(available) == |available|
    ensures NEWLINE !in frame + available && frame + rest == frame + available + rest[|available|..]
  {
    assert available[..|available|] == available;
  }

  /** One frame, however the bytes arrive.  The bound includes the newline. */
  method ReadFrame(reader: Reader) returns (f: Frame)
    requires reader.Valid()
    modifies reader
    ensures reader.Valid() && f == NextFrame(old(reader.Remaining()))
    ensures f.Data? ==> |f.payload| < |old(reader.Remaining())|
    ensures f.Data? ==> reader.Remaining() == old(reader.Remaining())[|f.payload| + 1..]
    ensures f.Eof? ==> reader.Remaining() == []
  {
    hide NextFrame, ContentLength, Concat;
    ghost var whole := reader.Remaining();
    var frame: Bytes := [];
    while true
      invariant reader.Valid() && NEWLINE !in frame && |frame| <= MAX_FRAME - 1
      invariant whole == frame + reader.Remaining()
      decreases |reader.Remaining()|
    {
      var available := reader.FillBuf();
      ghost var rest := reader.Remaining();
      if available == [] {
        EndOfBytes(frame);
        return if frame == [] then Eof else Unterminated;
      }
      var content := ContentLength(available);
      if |frame| + content > MAX_FRAME - 1 {
        TooLong(frame, available, rest);
        return Exceeds;
      }
      if content < |available| {
        NewlineFound(frame, available, rest);
        reader.Consume(content + 1);
        return Data(frame + available[..content]);
      }
      AllContent(frame, available, rest);
      assert available[..content] == available;
      frame := frame + available[..content];
      reader.Consume(content);
    }
  }

  /** The whole session. */
  method ReadSession(reader: Reader) returns (frames: seq<Bytes>, end: Frame)
    requires reader.Valid()
    modifies reader
    ensures frames == AllFrames(old(reader.Remaining())).0 && end == AllFrames(old(reader.Remaining())).1
  {
    hide NextFrame, Concat;
    frames := [];
    while true
      invariant reader.Valid()
      invariant AllFrames(old(reader.Remaining())).0 == frames + AllFrames(reader.Remaining()).0
      invariant AllFrames(old(reader.Remaining())).1 == AllFrames(reader.Remaining()).1
      decreases |reader.Remaining()|
    {
      var f := ReadFrame(reader);
      if !f.Data? {
        return frames, f;
      }
      frames := frames + [f.payload];
    }
  }

  /** Two deliveries of the same bytes give the same frames and the same end. */
  method DeliveryDoesNotMatter(a: seq<Bytes>, b: seq<Bytes>) returns (first: (seq<Bytes>, Frame), second: (seq<Bytes>, Frame))
    requires forall i | 0 <= i < |a| :: a[i] != []
    requires forall i | 0 <= i < |b| :: b[i] != []
    requires Concat(a) == Concat(b)
    ensures first == second
  {
    var left := new Reader(a);
    var right := new Reader(b);
    var frames, end := ReadSession(left);
    var frames', end' := ReadSession(right);
    return (frames, end), (frames', end');
  }

  // ------------------------------------------------------------------ the sender

  ghost predicate Sendable(p: Bytes) {
    NEWLINE !in p && |p| + 1 <= MAX_FRAME
  }

  function Send(payloads: seq<Bytes>): Bytes {
    if payloads == [] then [] else payloads[0] + [NEWLINE] + Send(payloads[1..])
  }

  /** Sent payloads arrive, and then the stream ends cleanly. */
  lemma {:induction false} SentIsReceived(payloads: seq<Bytes>)
    requires forall i | 0 <= i < |payloads| :: Sendable(payloads[i])
    ensures AllFrames(Send(payloads)) == (payloads, Eof)
  {
    if payloads != [] {
      var p, rest := payloads[0], Send(payloads[1..]);
      assert Sendable(p);
      var s := Send(payloads);
      assert s == p + ([NEWLINE] + rest);
      ContentSkips(p, [NEWLINE] + rest);
      assert ContentLength([NEWLINE] + rest) == 0;
      assert s[..|p|] == p && s[|p| + 1..] == rest;
      SentIsReceived(payloads[1..]);
      assert payloads == [p] + payloads[1..];
    }
  }

  lemma DataIsSendable(s: Bytes)
    ensures NextFrame(s) == Eof <==> s == []
    ensures NextFrame(s).Data? ==> |NextFrame(s).payload| < |s| && Sendable(NextFrame(s).payload)
    ensures NextFrame(s).Data? ==> s == NextFrame(s).payload + [NEWLINE] + s[|NextFrame(s).payload| + 1..]
  {
  }

  /** Only sent streams end cleanly. */
  lemma {:induction false} ReceivedWasSent(s: Bytes)
    requires AllFrames(s).1 == Eof
    ensures s == Send(AllFrames(s).0)
    ensures forall i | 0 <= i < |AllFrames(s).0| :: Sendable(AllFrames(s).0[i])
    decreases |s|
  {
    hide NextFrame;
    var f := NextFrame(s);
    DataIsSendable(s);
    if f.Data? {
      var rest := s[|f.payload| + 1..];
      ReceivedWasSent(rest);
      assert AllFrames(s).0 == [f.payload] + AllFrames(rest).0;
      assert AllFrames(s).0[1..] == AllFrames(rest).0;
    }
  }
}
