/** A stream in which some frames are damaged on the air: each of those costs itself only. */
module DamagedStreams {
  import opened Wrappers
  import opened Casts
  import opened WmbusCrc
  import opened ErrorDetection
  import opened ModeC
  import opened LinkErrors
  import opened FrameDecoding
  import opened Chunking

  type Bytes2 = raw: seq<Byte> | |raw| >= 2 witness [0, 0]

  /** A frame and the bytes that arrive for it. */
  datatype OnAir = OnAir(sent: Sent, raw: Bytes2)

  /** The bytes are the frame's, up to one burst of at most 16 bits that spares type and length
      byte. */
  ghost predicate Carried(o: OnAir) {
    && WellFormed(o.sent)
    && |o.raw| == |Encode(o.sent)| && o.raw[..2] == Encode(o.sent)[..2]
    && exists p :: DifferOnlyInBurst(Encode(o.sent), o.raw, p)
  }

  predicate Damaged(o: OnAir) { o.raw != Encode(o.sent) }

  predicate Intact(o: OnAir) { o.raw == Encode(o.sent) }

  /** The frame as sent, or an error that quotes the last two bytes. */
  function OutcomeOf(o: OnAir): Outcome {
    if Intact(o) then Frame(Received(o.sent))
    else Failure(CrcMismatch(Join(o.raw[|o.raw| - 2], o.raw[|o.raw| - 1]), 0))
  }

  function Outcomes(air: seq<OnAir>): seq<Outcome> {
    if air == [] then [] else [OutcomeOf(air[0])] + Outcomes(air[1..])
  }

  function AirBytes(air: seq<OnAir>): seq<Byte> {
    if air == [] then [] else air[0].raw + AirBytes(air[1..])
  }

  function CountAir(air: seq<OnAir>, kind: OnAir -> bool): nat {
    if air == [] then 0 else (if kind(air[0]) then 1 else 0) + CountAir(air[1..], kind)
  }

  lemma {:induction false} CarriedFront(o: OnAir, rest: seq<Byte>)
    requires Carried(o)
    ensures |o.raw| >= 13 && PacketSize(o.raw) == |o.raw|
    ensures Front(o.raw + rest) == Complete(|o.raw|)
    ensures o.raw[0] == if o.sent.SentA? then TYPE_A_SYNC else TYPE_B_SYNC
  {
    hide PacketSize, EncodeBlocks, Crc, DifferOnlyInBurst;
    var raw := Encode(o.sent);
    FrontOfEncoded(o.sent, []);
    assert raw + [] == raw;
    assert o.raw[0] == o.raw[..2][0] && raw[0] == raw[..2][0];
    PacketSizeOfPrefix(raw, []);
    PacketSizeOfPrefix(o.raw, []);
    PacketSizeOfPrefix(o.raw, rest);
    assert (o.raw + rest)[..2] == o.raw[..2];
  }

  lemma {:induction false} DecodesAnyway(raw: seq<Byte>)
    requires |raw| >= 13 && PacketSize(raw) == |raw|
    requires raw[0] == TYPE_A_SYNC || raw[0] == TYPE_B_SYNC
    ensures Decode(raw).Ok?
  {
    hide VerifyBlock, Link, DecodeTypeA;
  }

  lemma {:induction false} CarriedYields(o: OnAir, log: Log)
    requires Carried(o)
    ensures Decode(o.raw).Ok?
    ensures var (outcome, log1) := Yield(o.raw, log);
            && outcome == Some(OutcomeOf(o))
            && log1.stats.framesReceived == log.stats.framesReceived + 1
            && log1.stats.framesDecoded == log.stats.framesDecoded + (if Intact(o) then 1 else 0)
            && log1.stats.crcErrors == log.stats.crcErrors + (if Damaged(o) then 1 else 0)
            && log1.stats.headerErrors == log.stats.headerErrors
  {
    hide Decode, Encode, Yield, Received, DifferOnlyInBurst, Accepted;
    CarriedFront(o, []);
    FrontOfEncoded(o.sent, []);
    DecodesAnyway(o.raw);
    if Damaged(o) {
      var p :| DifferOnlyInBurst(Encode(o.sent), o.raw, p);
      assert Encode(o.sent) + [] == Encode(o.sent);
      EncodedAccepted(o.sent);
      BurstRejected(Encode(o.sent), o.raw, p);
      RejectedYields(o.raw, log);
    }
  }

  lemma {:induction false} EncodedAccepted(s: Sent)
    requires WellFormed(s)
    ensures Accepted(Encode(s))
  {
    hide Decode, PacketSize, Encode, Yield, Received;
    FrontOfEncoded(s, []);
    assert Encode(s) + [] == Encode(s);
    PacketSizeOfPrefix(Encode(s), []);
  }

  lemma {:induction false} RejectedYields(raw: seq<Byte>, log: Log)
    requires |raw| >= 13 && PacketSize(raw) == |raw| && Decode(raw).Ok? && !Accepted(raw)
    ensures var (outcome, log1) := Yield(raw, log);
            && outcome == Some(Failure(CrcMismatch(Join(raw[|raw| - 2], raw[|raw| - 1]), 0)))
            && log1.stats.framesReceived == log.stats.framesReceived + 1
            && log1.stats.framesDecoded == log.stats.framesDecoded
            && log1.stats.crcErrors == log.stats.crcErrors + 1
            && log1.stats.headerErrors == log.stats.headerErrors
  {
    hide Decode, PacketSize;
  }

  lemma {:induction false} AirIsWalked(air: seq<OnAir>, log: Log)
    requires forall o | o in air :: Carried(o)
    ensures KeepsBytes(AirBytes(air))
    ensures var (out, rest, log1) := Walk(AirBytes(air), log);
            && out == Outcomes(air) && rest == []
            && log1.stats.framesReceived == log.stats.framesReceived + |air|
            && log1.stats.framesDecoded == log.stats.framesDecoded + CountAir(air, Intact)
            && log1.stats.crcErrors == log.stats.crcErrors + CountAir(air, Damaged)
            && log1.stats.headerErrors == log.stats.headerErrors
    decreases |air|
  {
    hide Decode, Encode, Front, Yield, Carried, OutcomeOf, Damaged, Intact;
    if air != [] {
      var raw: seq<Byte>, rest := air[0].raw, AirBytes(air[1..]);
      CarriedFront(air[0], rest);
      CarriedYields(air[0], log);
      assert (raw + rest)[..|raw|] == raw && (raw + rest)[|raw|..] == rest;
      AirIsWalked(air[1..], Yield(raw, log).1);
    }
  }

  /** However the stream is cut: every intact frame arrives as sent, every damaged one is reported
      in its place, and the statistics say how many of each there were. */
  lemma {:induction false} DamageCostsOneFrame(air: seq<OnAir>, chunks: seq<seq<Byte>>)
    requires forall o | o in air :: Carried(o)
    requires Concat(chunks) == AirBytes(air) && Fit([], chunks)
    ensures var (out, d) := Fed(NEW_DECODER, chunks);
            && out == Outcomes(air)
            && d.buffer == [] && d.expectedSize.None?
            && d.log.stats.framesReceived == |air| && d.log.stats.headerErrors == 0
            && d.log.stats.framesDecoded == CountAir(air, Intact)
            && d.log.stats.crcErrors == CountAir(air, Damaged)
  {
    hide KeepsBytes, Walk, Yield, PacketSize, Fit, Fed, Carried, AirBytes, Outcomes, Concat, CountAir;
    AirIsWalked(air, NEW_DECODER.log);
    assert NEW_DECODER.buffer + Concat(chunks) == AirBytes(air);
    FedIsWalk(NEW_DECODER, chunks);
  }
}
