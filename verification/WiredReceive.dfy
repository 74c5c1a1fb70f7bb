/** Receiving wired frames from a byte stream that arrives in arbitrary fragments
    (src/mbus/transport.rs, src/mbus/serial.rs).

    Timeouts and I/O failures are not part of the model: the transport only fragments and
    eventually closes. */
module WiredReceive {
  import opened Wrappers
  import opened Casts
  import opened WiredFrame

  datatype TransportError = Closed

  /** The wire: the bytes the peer has still to deliver before it closes. */
  class Transport {
    var pending: seq<Byte>

    constructor (bytes: seq<Byte>)
      ensures pending == bytes
    {
      pending := bytes;
    }

    /** Reads at least one and at most `buf.Length - from` bytes, as many as happen to have
        arrived; 0 only at the end of the stream. */
    method Read(buf: array<Byte>, from: nat) returns (n: nat)
      requires from < buf.Length
      modifies this, buf
      ensures n <= buf.Length - from && n <= |old(pending)|
      ensures n == 0 <==> old(pending) == []
      ensures pending == old(pending)[n..]
      ensures buf[..from] == old(buf[..from])
      ensures buf[from..from + n] == old(pending)[..n]
    {
      if pending == [] {
        return 0;
      }
      n :| 1 <= n <= buf.Length - from && n <= |pending|;
      forall i | 0 <= i < n {
        buf[from + i] := pending[i];
      }
      pending := pending[n..];
    }
  }

  /** Fills the buffer however the bytes are fragmented, or fails having drained the stream. */
  method FillExact(t: Transport, buf: array<Byte>) returns (r: Result<(), TransportError>)
    modifies t, buf
    ensures r.Ok? <==> buf.Length <= |old(t.pending)|
    ensures r.Ok? ==> buf[..] == old(t.pending)[..buf.Length] && t.pending == old(t.pending)[buf.Length..]
    ensures r.Err? ==> t.pending == []
  {
    var filled := 0;
    while filled < buf.Length
      invariant 0 <= filled <= buf.Length && filled <= |old(t.pending)|
      invariant t.pending == old(t.pending)[filled..]
      invariant buf[..filled] == old(t.pending)[..filled]
    {
      var n := t.Read(buf, filled);
      if n == 0 {
        return Err(Closed);
      }
      assert buf[..filled + n] == buf[..filled] + buf[filled..filled + n];
      filled := filled + n;
    }
    assert buf[..filled] == buf[..];
    return Ok(());
  }

  // ---------------------------------------------------------------- one receive

  datatype ReceiveError = Empty | SerialPortError | InvalidStart | FrameParseError

  /** Length of the frame that starts the stream, from its first bytes. */
  function TotalLength(pending: seq<Byte>): nat
    requires pending != [] && (pending[0] != 0xE5 && pending[0] != 0x10 ==> |pending| >= 2)
  {
    if pending[0] == 0xE5 then 1 else if pending[0] == 0x10 then 5 else 6 + Number(pending[1])
  }

  /** What one receive does to the stream, with no word about fragments. */
  function Received(pending: seq<Byte>): (Result<MBusFrame, ReceiveError>, seq<Byte>) {
    if pending == [] then (Err(Empty), [])
    else if pending[0] != 0xE5 && pending[0] != 0x10 && pending[0] != 0x68 then (Err(InvalidStart), pending[1..])
    else if pending[0] == 0x68 && |pending| < 3 then (Err(SerialPortError), [])
    else
      var total := TotalLength(pending);
      if |pending| < total then (Err(SerialPortError), [])
      else
        var parsed := ParseFrame(pending[..total]);
        (if parsed.Ok? then Ok(parsed.value.1) else Err(FrameParseError), pending[total..])
  }

  method RecvFrameSingleAttempt(t: Transport) returns (r: Result<MBusFrame, ReceiveError>)
    modifies t
    ensures (r, t.pending) == Received(old(t.pending))
  {
    hide ParseFrame;
    ghost var pending := t.pending;
    var start := new Byte[1];
    var n := t.Read(start, 0);
    if n == 0 {
      return Err(Empty);
    }
    assert start[0..1] == pending[..1];
    assert start[0] == pending[0];
    var buf := [start[0]];
    var totalLen;
    if start[0] == 0xE5 {
      totalLen := 1;
    } else if start[0] == 0x10 {
      totalLen := 5;
    } else if start[0] == 0x68 {
      var lenbuf := new Byte[2];
      var filled := FillExact(t, lenbuf);
      if filled.Err? {
        return Err(SerialPortError);
      }
      assert lenbuf[..] == pending[1..3];
      assert lenbuf[0] == lenbuf[..][0];
      buf := buf + lenbuf[..];
      totalLen := 6 + Number(lenbuf[0]);
    } else {
      return Err(InvalidStart);
    }
    assert buf == pending[..|buf|] && t.pending == pending[|buf|..];
    var remaining := if totalLen > |buf| then totalLen - |buf| else 0;
    if remaining > 0 {
      var rest := new Byte[remaining];
      var filled := FillExact(t, rest);
      if filled.Err? {
        return Err(SerialPortError);
      }
      assert rest[..] == pending[|buf|..totalLen];
      buf := buf + rest[..];
    }
    assert buf == pending[..totalLen] && t.pending == pending[totalLen..];
    var parsed := ParseFrame(buf);
    return if parsed.Ok? then Ok(parsed.value.1) else Err(FrameParseError);
  }

  // ---------------------------------------------------------------- streams of frames

  /** A receive consumes exactly one packed frame. */
  lemma {:induction false} ReceivesPacked(f: MBusFrame, rest: seq<Byte>)
    requires WellFormed(f)
    ensures Received(Packed(f) + rest) == (Ok(f), rest)
  {
    hide ParseFrame, ChecksumOf, LengthByte;
    var pending := Packed(f) + rest;
    var total := |Packed(f)|;
    assert pending[..total] == Packed(f) && pending[total..] == rest;
    ParseOfPack(f, []);
    assert Packed(f) + [] == Packed(f);
    if f.frameType.Control? || f.frameType.Long? {
      LengthByteRoundTrip(f);
      assert pending[1] == LengthByte(f);
    }
    assert TotalLength(pending) == total;
  }

  function PackAll(frames: seq<MBusFrame>): seq<Byte> {
    if frames == [] then [] else Packed(frames[0]) + PackAll(frames[1..])
  }

  /** `n` receives in a row: what they return and what is left on the wire. */
  function ReceivedMany(pending: seq<Byte>, n: nat): (seq<Result<MBusFrame, ReceiveError>>, seq<Byte>)
    decreases n
  {
    if n == 0 then ([], pending)
    else
      var (r, rest) := Received(pending);
      var (rs, final) := ReceivedMany(rest, n - 1);
      ([r] + rs, final)
  }

  function AllOk(frames: seq<MBusFrame>): (rs: seq<Result<MBusFrame, ReceiveError>>)
    ensures |rs| == |frames|
  {
    seq(|frames|, i requires 0 <= i < |frames| => Ok(frames[i]))
  }

  /** Repeated receives over concatenated packed frames return exactly those frames, each
      passing verification, and leave the rest of the stream untouched. */
  lemma {:induction false} StreamRoundTrip(frames: seq<MBusFrame>, rest: seq<Byte>)
    requires forall f | f in frames :: WellFormed(f)
    ensures ReceivedMany(PackAll(frames) + rest, |frames|) == (AllOk(frames), rest)
    ensures forall f | f in frames :: Verified(f)
  {
    hide Received, Packed, WellFormed, Verified;
    if frames == [] {
      assert PackAll(frames) + rest == rest;
    } else {
      var first, later := frames[0], frames[1..];
      assert PackAll(frames) + rest == Packed(first) + (PackAll(later) + rest);
      ReceivesPacked(first, PackAll(later) + rest);
      WellFormedVerified(first);
      assert forall f | f in later :: f in frames;
      StreamRoundTrip(later, rest);
      assert AllOk(frames) == [Ok(first)] + AllOk(later);
    }
  }

  lemma {:induction false} WellFormedVerified(f: MBusFrame)
    requires WellFormed(f)
    ensures Verified(f)
  {
  }

  /** The encoding is a prefix code: no packed frame is a proper prefix of another. */
  lemma {:induction false} PrefixFree(f: MBusFrame, g: MBusFrame)
    requires WellFormed(f) && WellFormed(g)
    requires Packed(f) <= Packed(g)
    ensures f == g
  {
    hide Packed, Received, WellFormed;
    var tail := Packed(g)[|Packed(f)|..];
    assert Packed(g) == Packed(f) + tail;
    ReceivesPacked(f, tail);
    ReceivesPacked(g, []);
    assert Packed(g) + [] == Packed(g);
  }

  /** So a stream decodes in one way only. */
  lemma {:induction false} UniquelyDecodable(fs: seq<MBusFrame>, gs: seq<MBusFrame>)
    requires forall f | f in fs + gs :: WellFormed(f)
    requires PackAll(fs) == PackAll(gs)
    ensures fs == gs
  {
    hide WellFormed, Packed, Received;
    if fs != [] && gs != [] {
      var a, b := PackAll(fs[1..]), PackAll(gs[1..]);
      assert fs[0] in fs + gs && gs[0] in fs + gs;
      ReceivesPacked(fs[0], a);
      ReceivesPacked(gs[0], b);
      assert fs[0] == gs[0] && a == b;
      assert forall f | f in fs[1..] + gs[1..] :: f in fs + gs;
      UniquelyDecodable(fs[1..], gs[1..]);
    }
  }

  /** Conversely, a received frame repacks to exactly the bytes taken off the wire if and only
      if its checksum verifies. */
  lemma {:induction false} ReceivedRepacks(pending: seq<Byte>)
    requires Received(pending).0.Ok?
    ensures var (r, rest) := Received(pending);
            Packed(r.value) + rest == pending <==> Verified(r.value)
  {
    hide Packed, ChecksumOf;
    var total := TotalLength(pending);
    var buf := pending[..total];
    var (left, f) := ParseFrame(buf).value;
    PackOfParse(buf, left, f);
    assert left == [] && buf[..|buf| - |left|] == buf;
    var rest := pending[total..];
    assert buf + rest == pending;
    if Packed(f) + rest == pending {
      assert |Packed(f)| == total;
      assert Packed(f) == (Packed(f) + rest)[..total];
    }
  }

  // ---------------------------------------------------------------- disturbed streams

  /** What disturbs a receive, and how much of the stream it takes. A byte that starts no frame is
      dropped alone; a frame whose stop byte is wrong is taken whole; a frame that breaks off, or
      a stream at its end, leaves nothing. */
  lemma {:induction false} Disturbed(f: MBusFrame, b: Byte, k: nat, rest: seq<Byte>)
    requires WellFormed(f)
    ensures b !in {0xE5, 0x10, 0x68} ==> Received([b] + rest) == (Err(InvalidStart), rest)
    ensures b != 0x16 && !f.frameType.Ack? ==>
              Received(Packed(f)[..|Packed(f)| - 1] + [b] + rest) == (Err(FrameParseError), rest)
    ensures k < |Packed(f)| ==>
              Received(Packed(f)[..k]) == (Err(if k == 0 then Empty else SerialPortError), [])
  {
    hide Received, Packed, WellFormed;
    if b !in {0xE5, 0x10, 0x68} {
      Noise(b, rest);
    }
    if b != 0x16 && !f.frameType.Ack? {
      WrongStop(f, b, rest);
    }
    if k < |Packed(f)| {
      BreaksOff(f, k);
    }
  }

  lemma {:induction false} Noise(b: Byte, rest: seq<Byte>)
    requires b !in {0xE5, 0x10, 0x68}
    ensures Received([b] + rest) == (Err(InvalidStart), rest)
  {
    hide ParseFrame;
    assert ([b] + rest)[1..] == rest;
  }

  lemma {:induction false} BreaksOff(f: MBusFrame, k: nat)
    requires WellFormed(f) && k < |Packed(f)|
    ensures Received(Packed(f)[..k]) == (Err(if k == 0 then Empty else SerialPortError), [])
  {
    hide ParseFrame, ChecksumOf, LengthByte, Number;
    if f.frameType.Control? || f.frameType.Long? {
      LengthOfLong(f);
    }
  }

  lemma {:induction false} WrongStop(f: MBusFrame, b: Byte, rest: seq<Byte>)
    requires WellFormed(f) && b != 0x16 && !f.frameType.Ack?
    ensures Received(Packed(f)[..|Packed(f)| - 1] + [b] + rest) == (Err(FrameParseError), rest)
  {
    hide ParseFrame, ChecksumOf, LengthByte, PayloadLength;
    var n := |Packed(f)|;
    var frame := Packed(f)[..n - 1] + [b];
    assert frame == Packed(f)[n - 1 := b];
    WrongByte(f, n - 1, b, []);
    assert frame + [] == frame;
    var pending := frame + rest;
    assert pending[..n] == frame && pending[n..] == rest;
    if f.frameType.Control? || f.frameType.Long? {
      LengthByteRoundTrip(f);
      LengthOfLong(f);
      assert pending[1] == LengthByte(f);
    }
  }

  lemma {:induction false} LengthOfLong(f: MBusFrame)
    requires WellFormed(f) && (f.frameType.Control? || f.frameType.Long?)
    ensures Number(LengthByte(f)) == |f.data| + 3 && |Packed(f)| == 9 + |f.data|
  {
    hide ChecksumOf;
    TruncateSmall(|f.data| + 3);
  }
}
