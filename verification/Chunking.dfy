/** The streaming decoder does not care how its input is cut into chunks: exactly when, and
    what comes out of a stream of well-formed frames. */
module Chunking {
  import opened Wrappers
  import opened Casts
  import opened WmbusCrc
  import opened Digits
  import opened ModeC
  import opened WirelessFrame
  import opened FrameDecoding

  datatype Outcome = Frame(frame: WMBusFrame) | Failure(error: DecodeError)

  // ---------------------------------------------------------------- feeding the decoder

  /** `try_decode_frame` until it has nothing more to say: everything it returned on the way,
      frames and errors. */
  function Drained(d: Decoder): (seq<Outcome>, Decoder)
    requires Consistent(d)
    decreases |d.buffer|
  {
    TriedShrinks(d);
    var (d1, r) := Tried(d);
    match r
    case Ok(None) => ([], d1)
    case Ok(Some(f)) => var (out, d2) := Drained(d1); ([Frame(f)] + out, d2)
    case Err(e) => var (out, d2) := Drained(d1); ([Failure(e)] + out, d2)
  }

  lemma {:induction false} TriedShrinks(d: Decoder)
    requires Consistent(d)
    ensures Consistent(Tried(d).0)
    ensures Tried(d).1 != Ok(None) ==> |Tried(d).0.buffer| < |d.buffer|
  {
    hide Process, PacketSize;
  }

  /** Add each chunk and drain after each. */
  function Fed(d: Decoder, chunks: seq<seq<Byte>>): (seq<Outcome>, Decoder)
    requires Consistent(d)
    decreases |chunks|
  {
    if chunks == [] then ([], d)
    else
      AddedConsistent(d, chunks[0]);
      var (d1, r) := Added(d, chunks[0]);
      var refused := if r.Err? then [Failure(r.error)] else [];
      var (out1, d2) := Drained(d1);
      DrainedConsistent(d1);
      var (out2, d3) := Fed(d2, chunks[1..]);
      (refused + out1 + out2, d3)
  }

  lemma {:induction false} AddedConsistent(d: Decoder, bytes: seq<Byte>)
    requires Consistent(d)
    ensures Consistent(Added(d, bytes).0)
  {
    hide PacketSize;
    assert d.expectedSize.Some? ==> (d.buffer + bytes)[..2] == d.buffer[..2];
  }

  lemma {:induction false} DrainedConsistent(d: Decoder)
    requires Consistent(d)
    ensures Consistent(Drained(d).1)
    decreases |d.buffer|
  {
    hide Process, PacketSize;
    TriedShrinks(d);
    if Tried(d).1 != Ok(None) {
      DrainedConsistent(Tried(d).0);
    }
  }

  // ---------------------------------------------------------------- one walk over the bytes

  /** What the front of a buffer is. */
  datatype Boundary = NeedMore | BadHeader | Complete(size: nat)

  function Front(buffer: seq<Byte>): (b: Boundary)
    ensures b.Complete? ==> 2 <= b.size <= |buffer|
    ensures b.BadHeader? ==> 2 <= |buffer|
  {
    if |buffer| < 2 then NeedMore
    else
      var n := PacketSize(buffer[..2]);
      if n < 0 then BadHeader else if |buffer| < n then NeedMore else Complete(n)
  }

  lemma {:induction false} FrontOfPrefix(a: seq<Byte>, b: seq<Byte>)
    requires Front(a) != NeedMore
    ensures Front(a + b) == Front(a)
    ensures Front(a).Complete? ==> (a + b)[..Front(a).size] == a[..Front(a).size]
    ensures Front(a).Complete? ==> (a + b)[Front(a).size..] == a[Front(a).size..] + b
  {
    hide PacketSize;
    assert (a + b)[..2] == a[..2];
  }

  /** What a complete frame yields; nothing at all if its own header turns out bad. */
  function Yield(frame: seq<Byte>, log: Log): (Option<Outcome>, Log) {
    var (r, log1) := Process(frame, CountReceived(log));
    match r
    case Ok(f) => (Some(Frame(f)), CountDecoded(log1))
    case Err(e) => if e.InvalidHeader? then (None, CountHeaderError(log1)) else (Some(Failure(e)), log1)
  }

  /** What draining comes to: a walk from frame boundary to frame boundary. */
  function Walk(buffer: seq<Byte>, log: Log): (seq<Outcome>, seq<Byte>, Log)
    decreases |buffer|
  {
    match Front(buffer)
    case NeedMore => ([], buffer, log)
    case BadHeader => ([Failure(InvalidHeader)], [], log)
    case Complete(n) =>
      var (o, log1) := Yield(buffer[..n], log);
      if o.None? then ([], [], log1)
      else
        var (out, rest, log2) := Walk(buffer[n..], log1);
        ([o.value] + out, rest, log2)
  }

  /** The size remembered about bytes left over from a drain. */
  function Remembered(rest: seq<Byte>): Option<nat> {
    if |rest| < 2 || PacketSize(rest[..2]) < 0 then None else Some(PacketSize(rest[..2]))
  }

  lemma {:induction false} DrainedIsWalk(d: Decoder)
    requires Consistent(d)
    ensures var (out, rest, log) := Walk(d.buffer, d.log);
            Drained(d) == (out, Decoder(rest, Remembered(rest), log))
    decreases |d.buffer|
  {
    hide Process, PacketSize;
    TriedShrinks(d);
    var (d1, r) := Tried(d);
    if r != Ok(None) {
      DrainedIsWalk(d1);
      if Front(d.buffer).BadHeader? {
        var bad := [Failure(InvalidHeader)];
        assert bad + [] == bad;
      }
    }
  }

  /** Walking the stream never throws away bytes that belong to later frames: a bad header, or
      a complete frame that turns out to have one, only ever ends the stream. */
  predicate KeepsBytes(buffer: seq<Byte>)
    decreases |buffer|
  {
    match Front(buffer)
    case NeedMore => true
    case BadHeader => |buffer| == 2
    case Complete(n) =>
      if Decode(buffer[..n]) == Err(InvalidHeader) then |buffer| == n else KeepsBytes(buffer[n..])
  }

  lemma {:induction false} YieldsNothing(frame: seq<Byte>, log: Log)
    ensures Yield(frame, log).0.None? <==> Decode(frame) == Err(InvalidHeader)
  {
    hide Decode;
  }

  /** Walking a prefix first, then its leftover with the rest, is walking the whole. */
  lemma {:induction false} WalkInTwo(a: seq<Byte>, b: seq<Byte>, log: Log)
    requires KeepsBytes(a + b)
    ensures var (out1, rest1, log1) := Walk(a, log);
            var (out2, rest2, log2) := Walk(rest1 + b, log1);
            && Walk(a + b, log) == (out1 + out2, rest2, log2)
            && KeepsBytes(rest1 + b)
    decreases |a|
  {
    hide Yield, Front, Decode;
    var (out1, rest1, log1) := Walk(a, log);
    var out2 := Walk(rest1 + b, log1).0;
    assert out1 == [] ==> out1 + out2 == out2;
    if Front(a) != NeedMore {
      FrontOfPrefix(a, b);
      if Front(a).BadHeader? {
        assert a + b == a && rest1 + b == [] && out1 + [] == out1;
      } else {
        var n := Front(a).size;
        YieldsNothing(a[..n], log);
        var (o, log') := Yield(a[..n], log);
        if o.None? {
          assert a + b == a && rest1 + b == [];
        } else {
          WalkInTwo(a[n..], b, log');
          var later := Walk(a[n..], log').0;
          assert [o.value] + (later + out2) == [o.value] + later + out2;
        }
      }
    }
  }

  // ---------------------------------------------------------------- any chunking is the same

  function Concat(chunks: seq<seq<Byte>>): seq<Byte> {
    if chunks == [] then [] else chunks[0] + Concat(chunks[1..])
  }

  /** A decoder as a drain leaves it. */
  predicate Settled(d: Decoder) {
    Front(d.buffer).NeedMore? && d.expectedSize == Remembered(d.buffer)
  }

  lemma {:induction false} WalkSettles(buffer: seq<Byte>, log: Log)
    ensures Front(Walk(buffer, log).1).NeedMore?
    ensures |Walk(buffer, log).1| <= |buffer|
    decreases |buffer|
  {
    hide Yield, PacketSize;
    if Front(buffer).Complete? && Yield(buffer[..Front(buffer).size], log).0.Some? {
      WalkSettles(buffer[Front(buffer).size..], Yield(buffer[..Front(buffer).size], log).1);
    }
  }

  lemma {:induction false} SettledConsistent(d: Decoder)
    requires Settled(d)
    ensures Consistent(d)
  {
    hide PacketSize;
  }

  /** One chunk: add it and drain. */
  lemma {:induction false} FedOneMore(d: Decoder, chunks: seq<seq<Byte>>)
    requires Settled(d) && chunks != []
    requires |d.buffer| + |chunks[0]| <= DEFAULT_CAPACITY_LIMIT
    ensures Consistent(d)
    ensures var (out1, rest1, log1) := Walk(d.buffer + chunks[0], d.log);
            var d2 := Decoder(rest1, Remembered(rest1), log1);
            && Settled(d2)
            && Fed(d, chunks) == (out1 + Fed(d2, chunks[1..]).0, Fed(d2, chunks[1..]).1)
  {
    hide Walk, PacketSize;
    SettledConsistent(d);
    AddedConsistent(d, chunks[0]);
    DrainedIsWalk(Added(d, chunks[0]).0);
    WalkSettles(d.buffer + chunks[0], d.log);
    var out1 := Walk(d.buffer + chunks[0], d.log).0;
    assert [] + out1 == out1;
  }

  /** No frame is announced longer than this. */
  const MAX_FRAME := 291

  /** The chunks never overflow the buffer: the stream is short, or every chunk leaves room for
      an incomplete frame. */
  predicate Fit(buffer: seq<Byte>, chunks: seq<seq<Byte>>) {
    || |buffer| + |Concat(chunks)| <= DEFAULT_CAPACITY_LIMIT
    || forall i | 0 <= i < |chunks| :: |chunks[i]| + MAX_FRAME <= DEFAULT_CAPACITY_LIMIT
  }

  lemma {:induction false} LeftoverIsShort(buffer: seq<Byte>)
    requires Front(buffer).NeedMore?
    ensures |buffer| < MAX_FRAME
  {
    if |buffer| >= 2 {
      AnnouncedIsShort(buffer[..2]);
    }
  }

  lemma {:induction false} AnnouncedIsShort(data: seq<Byte>)
    ensures PacketSize(data) <= MAX_FRAME
  {
  }

  lemma {:induction false} FitLater(buffer: seq<Byte>, chunks: seq<seq<Byte>>, rest: seq<Byte>)
    requires Fit(buffer, chunks) && chunks != [] && |rest| <= |buffer| + |chunks[0]|
    ensures Fit(rest, chunks[1..])
  {
  }

  /** Feeding chunk by chunk is one walk over everything, as long as no bytes are thrown away. */
  lemma {:induction false} FedIsWalk(d: Decoder, chunks: seq<seq<Byte>>)
    requires Settled(d)
    requires KeepsBytes(d.buffer + Concat(chunks))
    requires Fit(d.buffer, chunks)
    ensures Consistent(d)
    ensures var (out, rest, log) := Walk(d.buffer + Concat(chunks), d.log);
            Fed(d, chunks) == (out, Decoder(rest, Remembered(rest), log))
    decreases |chunks|
  {
    hide PacketSize, Yield, KeepsBytes;
    SettledConsistent(d);
    if chunks == [] {
      assert d.buffer + Concat(chunks) == d.buffer;
    } else {
      var first, later := d.buffer + chunks[0], Concat(chunks[1..]);
      assert d.buffer + Concat(chunks) == first + later;
      LeftoverIsShort(d.buffer);
      FedOneMore(d, chunks);
      WalkInTwo(first, later, d.log);
      WalkSettles(first, d.log);
      var (out1, rest1, log1) := Walk(first, d.log);
      FitLater(d.buffer, chunks, rest1);
      FedIsWalk(Decoder(rest1, Remembered(rest1), log1), chunks[1..]);
    }
  }

  /** Splitting a stream into chunks, any number of any sizes, and draining after each gives
      the same frames and errors in the same order, the same leftover bytes and the same
      statistics as splitting it in any other way, or not at all if it fits the buffer. */
  lemma {:induction false} ChunkingDoesNotMatter(stream: seq<Byte>, chunks: seq<seq<Byte>>, others: seq<seq<Byte>>)
    requires KeepsBytes(stream) && Concat(chunks) == stream == Concat(others)
    requires Fit([], chunks) && Fit([], others)
    ensures Fed(NEW_DECODER, chunks) == Fed(NEW_DECODER, others)
  {
    hide KeepsBytes, Walk, Fit;
    assert [] + stream == stream;
    FedIsWalk(NEW_DECODER, chunks);
    FedIsWalk(NEW_DECODER, others);
  }

  // ---------------------------------------------------------------- and only then

  lemma {:induction false} YieldCounts(frame: seq<Byte>, log: Log)
    ensures Yield(frame, log).1.stats.framesReceived == log.stats.framesReceived + 1
  {
    hide Decode;
  }

  /** Every byte fed leaves a trace: an outcome, a leftover or a count. */
  lemma {:induction false} WalkLeavesTrace(buffer: seq<Byte>, log: Log)
    requires buffer != []
    ensures Walk(buffer, log) != ([], [], log)
  {
    hide Yield, PacketSize;
    if Front(buffer).Complete? {
      YieldCounts(buffer[..Front(buffer).size], log);
    }
  }

  /** Where a stream loses bytes, cutting it there makes them count. */
  lemma {:induction false} LossPoint(buffer: seq<Byte>, log: Log) returns (cut: nat)
    requires !KeepsBytes(buffer)
    ensures cut < |buffer|
    ensures KeepsBytes(buffer[..cut])
    ensures Walk(buffer[..cut], log) == Walk(buffer, log)
    ensures Walk(buffer, log).1 == []
    decreases |buffer|
  {
    hide Yield, Decode;
    if Front(buffer).BadHeader? {
      cut := 2;
      assert buffer[..2][..2] == buffer[..2];
    } else {
      var n := Front(buffer).size;
      var (o, log1) := Yield(buffer[..n], log);
      YieldsNothing(buffer[..n], log);
      if o.None? {
        cut := n;
      } else {
        var later := LossPoint(buffer[n..], log1);
        cut := n + later;
        assert buffer[..cut][n..] == buffer[n..][..later];
      }
      FrontOfPrefix(buffer[..n], buffer[n..cut]);
      assert buffer[..n] + buffer[n..cut] == buffer[..cut];
      assert buffer[..n][..2] == buffer[..2];
      assert buffer[..cut][..n] == buffer[..n];
      if o.None? {
        assert Front(buffer[..cut]) == Complete(n);
      }
    }
  }

  /** A single chunk on a settled decoder. */
  lemma {:induction false} FedOnce(d: Decoder, chunk: seq<Byte>)
    requires Settled(d) && |d.buffer| + |chunk| <= DEFAULT_CAPACITY_LIMIT
    ensures Consistent(d)
    ensures var (out, rest, log) := Walk(d.buffer + chunk, d.log);
            Fed(d, [chunk]) == (out, Decoder(rest, Remembered(rest), log))
  {
    hide Walk, PacketSize;
    FedOneMore(d, [chunk]);
    var (out, rest, log) := Walk(d.buffer + chunk, d.log);
    var d2 := Decoder(rest, Remembered(rest), log);
    SettledConsistent(d2);
    assert [chunk][1..] == [];
    assert Fed(d2, []) == ([], d2);
    assert out + [] == out;
  }

  lemma {:induction false} ConcatTwo(a: seq<Byte>, b: seq<Byte>)
    ensures Concat([a, b]) == a + b
  {
    assert [a, b][1..] == [b] && [b][1..] == [];
    assert Concat([b]) == b + Concat([]);
  }

  lemma {:induction false} TwoChunksDiffer(stream: seq<Byte>) returns (chunks: seq<seq<Byte>>)
    requires |stream| <= DEFAULT_CAPACITY_LIMIT && !KeepsBytes(stream)
    ensures Concat(chunks) == stream
    ensures Fed(NEW_DECODER, chunks) != Fed(NEW_DECODER, [stream])
  {
    hide KeepsBytes, Walk, Yield, PacketSize, Fed, Concat;
    var d := NEW_DECODER;
    var cut := LossPoint(stream, d.log);
    var a, b := stream[..cut], stream[cut..];
    chunks := [a, b];
    assert chunks[1..] == [b];
    ConcatTwo(a, b);
    assert d.buffer + stream == stream && d.buffer + a == a;
    FedOnce(d, stream);
    FedOneMore(d, chunks);
    var (out, _, log1) := Walk(a, d.log);
    var d1 := Decoder([], None, log1);
    assert d1.buffer + b == b;
    FedOnce(d1, b);
    WalkLeavesTrace(b, log1);
    var out2 := Walk(b, log1).0;
    if out2 != [] {
      assert |out + out2| > |out|;
    }
  }

  /** Chunking independence holds of a stream exactly when walking it never discards bytes
      buffered behind a bad header. */
  lemma {:induction false} ChunkingIndependentIff(stream: seq<Byte>)
    requires |stream| <= DEFAULT_CAPACITY_LIMIT
    ensures KeepsBytes(stream) <==>
            forall chunks: seq<seq<Byte>> | Concat(chunks) == stream ::
              Fed(NEW_DECODER, chunks) == Fed(NEW_DECODER, [stream])
  {
    hide KeepsBytes, Fed;
    if KeepsBytes(stream) {
      forall chunks: seq<seq<Byte>> | Concat(chunks) == stream
        ensures Fed(NEW_DECODER, chunks) == Fed(NEW_DECODER, [stream])
      {
        assert Concat([stream]) == stream;
        ChunkingDoesNotMatter(stream, chunks, [stream]);
      }
    } else {
      var chunks := TwoChunksDiffer(stream);
    }
  }

  // ---------------------------------------------------------------- streams of real frames

  /** A link-layer frame as a meter sends it. */
  datatype Sent =
    | SentA(header: LinkHeader, app: seq<Byte>)
    | SentB(header: LinkHeader, app: seq<Byte>)

  predicate Sendable(s: Sent) {
    |s.app| <= if s.SentA? then 246 else 244
  }

  /** The boundary announced in the header is where the frame really ends. */
  predicate WellFormed(s: Sent) {
    Sendable(s) && (s.SentA? ==> |s.app| % 16 != 1)
  }

  function Encode(s: Sent): seq<Byte> {
    if s.SentA? then EncodeTypeA(s.header, s.app) else EncodeTypeB(s.header, s.app)
  }

  /** The bytes under the frame's last CRC: those of its last block. */
  function LastBlock(s: Sent): seq<Byte> {
    if s.SentB? then [Truncate(11 + |s.app|)] + s.header + s.app
    else if s.app == [] then [Truncate(9)] + s.header
    else s.app[16 * ((|s.app| - 1) / 16)..]
  }

  /** What the decoder should report, written from what was sent. */
  function Received(s: Sent): WMBusFrame {
    WrittenFits(s.header[3..7]);
    WMBusFrame(
      Truncate((if s.SentA? then 9 else 11) + |s.app|), s.header[0], Join(s.header[2], s.header[1]),
      Written(DigitsOf(s.header[3..7])), s.header[7], s.header[8],
      if s.app == [] then 0 else s.app[0], if s.app == [] then [] else s.app[1..],
      Crc(LastBlock(s)), IsEncrypted(s))
  }

  predicate IsEncrypted(s: Sent) {
    s.app != [] && s.app[0] in {0x7A, 0x7B, 0x8A, 0x8B}
  }

  function Stream(sent: seq<Sent>): seq<Byte> {
    if sent == [] then [] else Encode(sent[0]) + Stream(sent[1..])
  }

  function AllReceived(sent: seq<Sent>): seq<Outcome> {
    if sent == [] then [] else [Frame(Received(sent[0]))] + AllReceived(sent[1..])
  }

  /** The statistics and the current frame type after a delivered frame. */
  function Counted(s: Sent, log: Log): Log {
    var one := log.stats;
    Log(Some(if s.SentA? then TypeA else TypeB),
        DecodeStats(one.framesReceived + 1, one.framesDecoded + 1, one.crcErrors, one.headerErrors,
                    one.encryptionDetected + (if IsEncrypted(s) then 1 else 0),
                    one.typeAFrames + (if s.SentA? then 1 else 0), one.typeBFrames + (if s.SentB? then 1 else 0)))
  }

  lemma {:induction false} EncodedBlocksEnd(app: seq<Byte>)
    requires app != []
    ensures var raw, last := EncodeBlocks(app), app[16 * ((|app| - 1) / 16)..];
            |raw| >= 2 && raw[|raw| - 2..] == CrcBytes(Crc(last))
  {
    hide Crc, CrcBytes, EncodeBlocks;
    EncodeBlocksStep(app);
    EncodeBlocksLength(app);
    if |app| > 16 {
      var rest := app[16..];
      EncodedBlocksEnd(rest);
      EncodeBlocksLength(rest);
      assert rest[16 * ((|rest| - 1) / 16)..] == app[16 * ((|app| - 1) / 16)..];
      var raw := EncodeBlocks(app);
      assert raw[18..] == EncodeBlocks(rest);
      assert raw[|raw| - 2..] == raw[18..][|raw| - 20..];
    } else if |app| == 16 {
      assert app[16..] == [];
      assert app[..16] == app;
    }
  }

  lemma {:induction false} EncodedEnds(s: Sent)
    ensures var raw := Encode(s);
            |raw| > 2 && raw[|raw| - 2..] == CrcBytes(Crc(LastBlock(s)))
            && raw[1] == Truncate((if s.SentA? then 9 else 11) + |s.app|)
  {
    hide Crc, EncodeBlocks;
    var raw := Encode(s);
    if s.SentA? {
      var block0 := [Truncate(9 + |s.app|)] + s.header;
      var front := [TYPE_A_SYNC] + block0 + CrcBytes(Crc(block0));
      assert raw == front + EncodeBlocks(s.app);
      assert raw[1] == block0[0];
      if s.app == [] {
        assert EncodeBlocks([]) == [] by { EncodeBlocksStep([]); }
        assert raw == front;
      } else {
        EncodedBlocksEnd(s.app);
        var blocks := EncodeBlocks(s.app);
        assert raw[|raw| - 2..] == blocks[|blocks| - 2..];
      }
    }
  }

  lemma {:induction false} TrailingCrcAt(frame: seq<Byte>, crc: bv16)
    requires |frame| > 2 && frame[|frame| - 2..] == CrcBytes(crc)
    ensures TrailingCrc(frame) == crc
  {
    JoinHighLow(crc);
  }

  lemma {:induction false} EncodedYields(s: Sent, log: Log)
    requires Decode(Encode(s)) == Ok(Expected(if s.SentA? then TypeA else TypeB, s.header, s.app))
    ensures Yield(Encode(s), log) == (Some(Frame(Received(s))), Counted(s, log))
  {
    hide Decode, Encode, Crc, LastBlock, TrailingCrc, DigitsOf, Written;
    EncodedEnds(s);
    TrailingCrcAt(Encode(s), Crc(LastBlock(s)));
  }

  lemma {:induction false} FrontOfEncoded(s: Sent, rest: seq<Byte>)
    requires WellFormed(s)
    ensures Front(Encode(s) + rest) == Complete(|Encode(s)|)
    ensures Decode(Encode(s)).Ok? && Decode(Encode(s)).value.crcOk
    ensures forall log :: Yield(Encode(s), log) == (Some(Frame(Received(s))), Counted(s, log))
  {
    hide Decode, EncodeTypeA, EncodeTypeB, Expected, Yield, Received, Counted;
    var raw := Encode(s);
    if s.SentA? {
      TypeARoundTrip(s.header, s.app, []);
      assert raw + [] == raw;
      TypeAPacketSize(s.header, s.app);
      ExpectedValid(TypeA, s.header, s.app);
    } else {
      TypeBRoundTrip(s.header, s.app);
      ExpectedValid(TypeB, s.header, s.app);
    }
    forall log
      ensures Yield(raw, log) == (Some(Frame(Received(s))), Counted(s, log))
    {
      EncodedYields(s, log);
    }
    assert PacketSize(raw) == |raw|;
    assert (raw + rest)[..2] == raw[..2];
    PacketSizeOfPrefix(raw, rest);
  }

  function AllCounted(sent: seq<Sent>, log: Log): Log {
    if sent == [] then log else AllCounted(sent[1..], Counted(sent[0], log))
  }

  lemma {:induction false} StreamIsReceived(sent: seq<Sent>, log: Log)
    requires forall s | s in sent :: WellFormed(s)
    ensures KeepsBytes(Stream(sent))
    ensures Walk(Stream(sent), log) == (AllReceived(sent), [], AllCounted(sent, log))
    decreases |sent|
  {
    hide Decode, EncodeTypeA, EncodeTypeB, Front, Yield, WellFormed, Received, Counted;
    if sent != [] {
      var raw, rest := Encode(sent[0]), Stream(sent[1..]);
      FrontOfEncoded(sent[0], rest);
      assert (raw + rest)[..|raw|] == raw && (raw + rest)[|raw|..] == rest;
      StreamIsReceived(sent[1..], Yield(raw, log).1);
    }
  }

  predicate IsTypeA(s: Sent) { s.SentA? }

  predicate IsTypeB(s: Sent) { s.SentB? }

  /** How many of the frames sent are of a kind. */
  function CountOf(sent: seq<Sent>, kind: Sent -> bool): nat {
    if sent == [] then 0 else (if kind(sent[0]) then 1 else 0) + CountOf(sent[1..], kind)
  }

  lemma {:induction false} AllCountedIs(sent: seq<Sent>, log: Log)
    ensures AllCounted(sent, log).currentFrameType
         == if sent == [] then log.currentFrameType else Some(if sent[|sent| - 1].SentA? then TypeA else TypeB)
    ensures AllCounted(sent, log).stats ==
            DecodeStats(log.stats.framesReceived + |sent|, log.stats.framesDecoded + |sent|,
                        log.stats.crcErrors, log.stats.headerErrors,
                        log.stats.encryptionDetected + CountOf(sent, IsEncrypted),
                        log.stats.typeAFrames + CountOf(sent, IsTypeA),
                        log.stats.typeBFrames + CountOf(sent, IsTypeB))
    decreases |sent|
  {
    hide IsEncrypted;
    if sent != [] {
      AllCountedIs(sent[1..], Counted(sent[0], log));
    }
  }

  /** Whatever the chunking, a stream of well-formed frames comes out as exactly those frames,
      in order, with nothing left over, and the statistics count them. */
  lemma {:induction false} DecoderDeliversStream(sent: seq<Sent>, chunks: seq<seq<Byte>>)
    requires forall s | s in sent :: WellFormed(s)
    requires Concat(chunks) == Stream(sent) && Fit([], chunks)
    ensures var (out, d) := Fed(NEW_DECODER, chunks);
            && out == AllReceived(sent)
            && d.buffer == [] && d.expectedSize.None?
            && d.log.currentFrameType
               == (if sent == [] then None else Some(if sent[|sent| - 1].SentA? then TypeA else TypeB))
            && d.log.stats == DecodeStats(|sent|, |sent|, 0, 0, CountOf(sent, IsEncrypted),
                                          CountOf(sent, IsTypeA), CountOf(sent, IsTypeB))
  {
    hide KeepsBytes, Walk, Yield, PacketSize, Fit, Fed, CountOf, AllCounted, WellFormed, Stream, AllReceived, Concat;
    StreamIsReceived(sent, NEW_DECODER.log);
    assert NEW_DECODER.buffer + Concat(chunks) == Stream(sent);
    FedIsWalk(NEW_DECODER, chunks);
    AllCountedIs(sent, NEW_DECODER.log);
  }

  /** Bytes are refused if and only if more than ten megabytes would be buffered. */
  lemma {:induction false} RefusedIff(d: Decoder, bytes: seq<Byte>)
    ensures |d.buffer| + |bytes| > 10_485_760 <==> Added(d, bytes) == (d, Err(ProcessingError))
    ensures |d.buffer| + |bytes| <= 10_485_760 <==> Added(d, bytes) == (d.(buffer := d.buffer + bytes), Ok(()))
  {
  }

  /** A single frame is delivered exactly when its announced boundary is right; otherwise the
      decoder reports a CRC mismatch. */
  lemma {:induction false} DeliveredIffWellFormed(s: Sent, log: Log)
    requires Sendable(s)
    ensures Walk(Encode(s), log).0 == [Frame(Received(s))] <==> WellFormed(s)
    ensures !WellFormed(s) ==>
              var raw, out := Encode(s), Walk(Encode(s), log).0;
              && |out| > 0 && |raw| > 4
              && out[0] == Failure(CrcMismatch(Join(raw[|raw| - 4], raw[|raw| - 3]), 0))
  {
    hide Decode, EncodeTypeA, EncodeTypeB, Expected;
    if WellFormed(s) {
      StreamIsReceived([s], log);
      assert Stream([s]) == Encode(s) + Stream([]);
      assert Stream([s]) == Encode(s);
      assert AllReceived([s]) == [Frame(Received(s))] + AllReceived([]);
    } else {
      MalformedOutcome(s, log);
    }
  }

  lemma {:induction false} MalformedOutcome(s: Sent, log: Log)
    requires Sendable(s) && !WellFormed(s)
    ensures var raw, out := Encode(s), Walk(Encode(s), log).0;
            && |out| > 0 && |raw| > 4
            && out[0] == Failure(CrcMismatch(Join(raw[|raw| - 4], raw[|raw| - 3]), 0))
  {
    hide Decode, EncodeTypeA, PacketSize, Walk;
    var raw := Encode(s);
    TypeAPacketSize(s.header, s.app);
    TypeATruncated(s.header, s.app);
    PacketSizeOfPrefix(raw, []);
    LastTwo(raw);
    FailsFirst(raw, |raw| - 2, log);
  }

  lemma {:induction false} FailsFirst(buffer: seq<Byte>, n: nat, log: Log)
    requires Front(buffer) == Complete(n)
    requires Decode(buffer[..n]).Ok? && !Decode(buffer[..n]).value.crcOk
    ensures var out := Walk(buffer, log).0;
            |out| > 0 && out[0] == Failure(CrcMismatch(TrailingCrc(buffer[..n]), 0))
  {
    hide Decode, Front, TrailingCrc;
  }

  lemma {:induction false} LastTwo(raw: seq<Byte>)
    requires |raw| > 4
    ensures TrailingCrc(raw[..|raw| - 2]) == Join(raw[|raw| - 4], raw[|raw| - 3])
  {
  }

  /** What is discarded without a frame: two bytes without a sync byte among them, with
      everything behind them, and a complete frame whose first byte is none of the two sync bytes
      the link layer knows, again with everything behind it. */
  lemma {:induction false} BadHeaderDiscards(buffer: seq<Byte>, log: Log)
    requires |buffer| >= 2
    ensures {buffer[0], buffer[1]} !! {0xCD, 0xB3, 0x3D, 0xBC} ==>
              Walk(buffer, log) == ([Failure(InvalidHeader)], [], log)
    ensures !({buffer[0], buffer[1]} !! {0xCD, 0xB3, 0x3D, 0xBC}) && buffer[0] !in {0xCD, 0x3D}
            && PacketSize(buffer) <= |buffer| ==>
              Walk(buffer, log) == ([], [], log.(stats := log.stats.(framesReceived := log.stats.framesReceived + 1,
                                                                     headerErrors := log.stats.headerErrors + 1)))
  {
    hide WmbusPacketLen;
    PacketSizeOfPrefix(buffer, []);
  }

  // ---------------------------------------------------------------- exactly the well-formed streams

  lemma {:induction false} MalformedFails(s: Sent, rest: seq<Byte>, log: Log)
    requires Sendable(s) && !WellFormed(s)
    ensures Front(Encode(s) + rest) == Complete(|Encode(s)| - 2)
    ensures var (outcome, _) := Yield(Encode(s)[..|Encode(s)| - 2], log);
            outcome.Some? && outcome.value.Failure?
  {
    hide Decode, EncodeTypeA, EncodeTypeB, PacketSize, Yield;
    var raw := Encode(s);
    TypeAPacketSize(s.header, s.app);
    TypeATruncated(s.header, s.app);
    PacketSizeOfPrefix(raw, rest);
    assert (raw + rest)[..2] == raw[..2];
    MismatchFails(raw[..|raw| - 2], log);
  }

  lemma {:induction false} MismatchFails(frame: seq<Byte>, log: Log)
    requires Decode(frame).Ok? && !Decode(frame).value.crcOk
    ensures var (outcome, _) := Yield(frame, log);
            outcome.Some? && outcome.value.Failure?
  {
    hide Decode;
  }

  lemma {:induction false} FrontOfStream(sent: seq<Sent>)
    requires sent != [] && forall s | s in sent :: Sendable(s)
    ensures Front(Stream(sent)).Complete?
  {
    hide Front, Encode, WellFormed, Sendable;
    if WellFormed(sent[0]) {
      FrontOfEncoded(sent[0], Stream(sent[1..]));
    } else {
      MalformedFails(sent[0], Stream(sent[1..]), NEW_DECODER.log);
    }
  }

  /** What has been walked of a stream of frames: `j` of them as they were sent, and then a
      failure or the beginning of the others. */
  predicate WalkedSoFar(sent: seq<Sent>, j: nat, later: seq<Byte>, out: seq<Outcome>, rest: seq<Byte>) {
    && j <= |sent|
    && if j < |out| then j < |sent| && out[j].Failure?
       else
         && (forall i | 0 <= i < j :: WellFormed(sent[i]))
         && out == AllReceived(sent[..j]) && rest + later == Stream(sent[j..])
  }

  lemma {:induction false} WalkOfPart(part: seq<Byte>, later: seq<Byte>, sent: seq<Sent>, log: Log) returns (j: nat)
    requires part + later == Stream(sent) && forall s | s in sent :: Sendable(s)
    ensures WalkedSoFar(sent, j, later, Walk(part, log).0, Walk(part, log).1)
    decreases |sent|
  {
    hide Front, Yield, Encode, WellFormed, Sendable, Received;
    if Front(part) == NeedMore {
      j := 0;
      assert sent[..0] == [] && sent[0..] == sent;
    } else {
      FrontOfPrefix(part, later);
      if sent == [] {
        NothingToWalk(part, later);
        assert false;
      } else if WellFormed(sent[0]) {
        var raw, others := Encode(sent[0]), Stream(sent[1..]);
        FrontOfEncoded(sent[0], others);
        var n := |raw|;
        assert part[..n] == (part + later)[..n] == raw;
        assert part[n..] + later == (part + later)[n..] == others;
        var log1 := Yield(raw, log).1;
        var k := WalkOfPart(part[n..], later, sent[1..], log1);
        j := k + 1;
        assert sent[..j][1..] == sent[1..][..k] && sent[j..] == sent[1..][k..];
        OneMoreWalked(sent, k, later, Walk(part[n..], log1).0, Walk(part[n..], log1).1);
      } else {
        j := 0;
        MalformedFails(sent[0], Stream(sent[1..]), log);
        var n := |Encode(sent[0])| - 2;
        assert part[..n] == (part + later)[..n] == Encode(sent[0])[..n];
      }
    }
  }

  lemma {:induction false} NothingToWalk(part: seq<Byte>, later: seq<Byte>)
    requires part + later == []
    ensures Front(part) == NeedMore
  {
  }

  lemma {:induction false} OneMoreWalked(sent: seq<Sent>, k: nat, later: seq<Byte>, out: seq<Outcome>, rest: seq<Byte>)
    requires sent != [] && WellFormed(sent[0]) && WalkedSoFar(sent[1..], k, later, out, rest)
    ensures WalkedSoFar(sent, k + 1, later, [Frame(Received(sent[0]))] + out, rest)
  {
    hide WellFormed, Received;
    assert sent[..k + 1][1..] == sent[1..][..k] && sent[k + 1..] == sent[1..][k..];
  }

  lemma {:induction false} AllReceivedConcat(a: seq<Sent>, b: seq<Sent>)
    ensures AllReceived(a + b) == AllReceived(a) + AllReceived(b)
  {
    hide Received;
    if a == [] {
      assert a + b == b;
    } else {
      assert (a + b)[1..] == a[1..] + b;
      AllReceivedConcat(a[1..], b);
      var first, later := [Frame(Received(a[0]))], AllReceived(a[1..]);
      assert first + (later + AllReceived(b)) == first + later + AllReceived(b);
    }
  }

  lemma {:induction false} AllReceivedFrames(sent: seq<Sent>)
    ensures |AllReceived(sent)| == |sent|
    ensures forall i | 0 <= i < |sent| :: AllReceived(sent)[i].Frame?
  {
    hide Received;
    if sent != [] {
      AllReceivedFrames(sent[1..]);
    }
  }

  lemma {:induction false} OnlyWellFormedArrive(d: Decoder, chunks: seq<seq<Byte>>, sent: seq<Sent>)
    requires Settled(d) && Fit(d.buffer, chunks)
    requires d.buffer + Concat(chunks) == Stream(sent) && forall s | s in sent :: Sendable(s)
    ensures Consistent(d)
    ensures Fed(d, chunks).0 == AllReceived(sent) ==> forall i | 0 <= i < |sent| :: WellFormed(sent[i])
    decreases |chunks|
  {
    hide PacketSize, Yield, Walk, Front, WellFormed, Sendable, Fed, AllReceived, Stream, Fit;
    SettledConsistent(d);
    if chunks == [] {
      assert d.buffer + Concat(chunks) == d.buffer;
      if sent != [] {
        FrontOfStream(sent);
        assert false;
      }
    } else {
      var first, later := d.buffer + chunks[0], Concat(chunks[1..]);
      assert d.buffer + Concat(chunks) == first + later;
      LeftoverIsShort(d.buffer);
      FitFirst(d.buffer, chunks);
      FedOneMore(d, chunks);
      WalkSettles(first, d.log);
      var (out1, rest1, log1) := Walk(first, d.log);
      var j := WalkOfPart(first, later, sent, d.log);
      AllReceivedFrames(sent);
      AllReceivedConcat(sent[..j], sent[j..]);
      assert sent == sent[..j] + sent[j..];
      var out2 := Fed(Decoder(rest1, Remembered(rest1), log1), chunks[1..]).0;
      if j < |out1| {
        assert (out1 + out2)[j] == out1[j];
      } else {
        FitLater(d.buffer, chunks, rest1);
        OnlyWellFormedArrive(Decoder(rest1, Remembered(rest1), log1), chunks[1..], sent[j..]);
        if out1 + out2 == AllReceived(sent) {
          assert out2 == (out1 + out2)[|out1|..];
          forall i | j <= i < |sent| ensures WellFormed(sent[i]) {
            assert sent[i] == sent[j..][i - j];
          }
        }
      }
    }
  }

  lemma {:induction false} FitFirst(buffer: seq<Byte>, chunks: seq<seq<Byte>>)
    requires Fit(buffer, chunks) && chunks != [] && |buffer| < MAX_FRAME
    ensures |buffer| + |chunks[0]| <= DEFAULT_CAPACITY_LIMIT
  {
  }

  /** A stream of frames that meters can send comes out of the decoder as exactly those frames,
      however it is cut, if and only if every one of them announces its true length. */
  lemma {:induction false} StreamDeliveredIff(sent: seq<Sent>, chunks: seq<seq<Byte>>)
    requires forall s | s in sent :: Sendable(s)
    requires Concat(chunks) == Stream(sent) && Fit([], chunks)
    ensures Fed(NEW_DECODER, chunks).0 == AllReceived(sent) <==> forall s | s in sent :: WellFormed(s)
  {
    hide WellFormed, Sendable, Fed, AllReceived, Stream, Fit, PacketSize;
    assert NEW_DECODER.buffer + Concat(chunks) == Stream(sent);
    OnlyWellFormedArrive(NEW_DECODER, chunks, sent);
    if forall s | s in sent :: WellFormed(s) {
      DecoderDeliversStream(sent, chunks);
    }
  }
}
