/** What a burst does to the frame at the front of a stream, where a corrupted header also moves
    the boundary at which the decoder cuts (src/wmbus/frame_decode.rs, src/wmbus/mode_c.rs). */
module StreamErrors {
  import opened Casts
  import opened Bytes
  import opened WmbusCrc
  import opened ErrorDetection
  import opened PowersOfX
  import opened ModeC
  import opened TypeSwap
  import opened LinkErrors
  import S = Chunking
  import F = FrameDecoding

  // ---------------------------------------------------------------- the front frame

  /** The decoder hands on the frame at the front of the stream, cut where its own header says. */
  predicate Delivers(s: seq<Byte>) {
    && S.Front(s).Complete?
    && Decode(s[..S.Front(s).size]).Ok? && Decode(s[..S.Front(s).size]).value.crcOk
  }

  function FrontFrame(s: seq<Byte>): (frame: seq<Byte>)
    requires S.Front(s).Complete?
  {
    s[..S.Front(s).size]
  }

  /** In terms of the decoder: the first thing it returns is a frame. */
  lemma {:induction false} DeliversFirst(s: seq<Byte>, log: F.Log)
    ensures Delivers(s) <==> S.Walk(s, log).0 != [] && S.Walk(s, log).0[0].Frame?
  {
    hide Decode, PacketSize;
  }

  lemma {:induction false} DeliveredIsAccepted(s: seq<Byte>)
    requires S.Front(s).Complete?
    ensures PacketSize(FrontFrame(s)) == |FrontFrame(s)|
    ensures Delivers(s) <==> Accepted(FrontFrame(s))
  {
    hide Decode, PacketSize;
    var n := S.Front(s).size;
    assert s[..n][..2] == s[..2];
    assert s == s[..n] + s[n..];
    PacketSizeOfPrefix(s[..n], []);
  }

  /** Every CRC that the type byte calls for is right. */
  predicate CrcsHold(frame: seq<Byte>) {
    && |frame| >= 13
    && if frame[0] == TYPE_A_SYNC then
         && VerifyBlock(frame[1..11], frame[11..13])
         && TypeABlocks(frame, 13, if Number(frame[1]) > 9 then Number(frame[1]) - 9 else 0).0
       else
         frame[0] == TYPE_B_SYNC && VerifyBlock(frame[1..|frame| - CRC_LEN], frame[|frame| - CRC_LEN..])
  }

  lemma {:induction false} AcceptedIff(frame: seq<Byte>)
    requires PacketSize(frame) == |frame|
    ensures Accepted(frame) <==> CrcsHold(frame)
  {
    hide VerifyBlock, TypeABlocks, DecodeTypeA, DecodeTypeB, WmbusPacketLen;
    if |frame| >= 13 {
      TypeACrc(frame);
      if frame[0] == TYPE_B_SYNC {
        assert PacketSize(frame) == WmbusPacketLen(Number(frame[1]), true);
        ShortPacket(Number(frame[1]));
        TypeBCrc(frame);
        assert frame[|frame| - CRC_LEN..|frame|] == frame[|frame| - CRC_LEN..];
      }
    }
  }

  lemma {:induction false} TypeACrc(raw: seq<Byte>)
    requires |raw| >= 13
    ensures DecodeTypeA(raw).crcOk
       <==> && VerifyBlock(raw[1..11], raw[11..13])
            && TypeABlocks(raw, 13, if Number(raw[1]) > 9 then Number(raw[1]) - 9 else 0).0
  {
    hide VerifyBlock, TypeABlocks, Link;
    LinkKeepsCrc(raw);
    var (ok, payload) := TypeABlocks(raw, 13, if Number(raw[1]) > 9 then Number(raw[1]) - 9 else 0);
    assert DecodeTypeA(raw) == Link(raw, TypeA, payload, VerifyBlock(raw[1..11], raw[11..13]) && ok);
  }

  // ---------------------------------------------------------------- bursts in a stream

  lemma {:induction false} BurstInPrefix(s: seq<Byte>, s': seq<Byte>, p: int, n: nat)
    requires DifferOnlyInBurst(s, s', p) && n <= |s|
    ensures DifferOnlyInBurst(s[..n], s'[..n], p)
  {
    hide Bits;
    forall k | 0 <= k < 8 * n && !(p <= k < p + 16) ensures Bits(s[..n])[k] == Bits(s'[..n])[k] {
      SliceBits(s, 0, n, k);
      SliceBits(s', 0, n, k);
      assert s[0..n] == s[..n] && s'[0..n] == s'[..n];
    }
  }

  /** The burst touches the frame at the front. */
  ghost predicate FrontHit(s: seq<Byte>, s': seq<Byte>, p: int) {
    && Delivers(s)
    && DifferOnlyInBurst(s, s', p)
    && s'[..|FrontFrame(s)|] != FrontFrame(s)
  }

  /** As long as the boundary stays where it was, the burst is noticed. */
  lemma {:induction false} SameBoundaryRejected(s: seq<Byte>, s': seq<Byte>, p: int)
    requires FrontHit(s, s', p)
    requires S.Front(s').Complete? && S.Front(s').size == S.Front(s).size
    ensures !Delivers(s')
  {
    hide DifferOnlyInBurst, Delivers, Accepted, S.Front;
    SameLengths(s, s', p);
    DeliveredIsComplete(s);
    DeliveredIsAccepted(s);
    DeliveredIsAccepted(s');
    BurstInPrefix(s, s', p, |FrontFrame(s)|);
    if Accepted(FrontFrame(s')) {
      BurstRejected(FrontFrame(s), FrontFrame(s'), p);
    }
  }

  /** With a Type A frame and the type byte spared, the burst is always noticed: the boundary can
      only move with the length byte, which has a CRC at a fixed place. */
  lemma {:induction false} TypeAAlwaysRejected(s: seq<Byte>, s': seq<Byte>, p: int)
    requires FrontHit(s, s', p) && |s| >= 1 && |s'| >= 1 && s[0] == s'[0] == TYPE_A_SYNC
    ensures !Delivers(s')
  {
    hide DifferOnlyInBurst, Delivers, CrcsHold, S.Front;
    if Delivers(s') {
      SameLengths(s, s', p);
      DeliveredHeader(s);
      DeliveredHeader(s');
      BlockUntouched(s, s', p, 1, 10);
      assert s[1] == s[1..13][0] && s'[1] == s'[1..13][0];
      SameFront(s, s');
      DeliveredIsComplete(s);
      SameBoundaryRejected(s, s', p);
    }
  }

  lemma {:induction false} DeliveredHeader(s: seq<Byte>)
    requires Delivers(s) && s[0] == TYPE_A_SYNC
    ensures |s| >= 13 && VerifyBlock(s[1..11], s[11..13])
  {
    hide Accepted, VerifyBlock, TypeABlocks, BlocksEnd, S.Front;
    DeliveredIsComplete(s);
    DeliveredIsAccepted(s);
    var frame := FrontFrame(s);
    AcceptedA(frame);
    assert frame[1..11] == s[1..11] && frame[11..13] == s[11..13];
  }

  lemma {:induction false} DeliveredIsComplete(s: seq<Byte>)
    requires Delivers(s)
    ensures S.Front(s).Complete? && 2 <= S.Front(s).size <= |s|
  {
    hide Decode;
  }

  lemma {:induction false} SameFront(s: seq<Byte>, s': seq<Byte>)
    requires |s| == |s'| >= 2 && s[0] == s'[0] && s[1] == s'[1]
    ensures S.Front(s) == S.Front(s')
  {
    hide PacketSize;
    assert s[..2] == s'[..2];
  }

  /** Exactly when a burst that hits the front frame makes the decoder deliver another frame
      instead: the boundary has moved, the frame up to there is present, its CRCs are right, and
      it is not one Type A frame in place of another. */
  lemma {:induction false} AnotherFrameIff(s: seq<Byte>, s': seq<Byte>, p: int)
    requires FrontHit(s, s', p)
    ensures Delivers(s') <==>
            && S.Front(s').Complete? && S.Front(s').size != S.Front(s).size
            && CrcsHold(FrontFrame(s'))
            && !(s[0] == TYPE_A_SYNC && s'[0] == TYPE_A_SYNC)
  {
    hide DifferOnlyInBurst, Delivers, CrcsHold, Accepted, S.Front, PacketSize;
    SameLengths(s, s', p);
    DeliveredIsComplete(s);
    if S.Front(s').Complete? {
      DeliveredIsAccepted(s');
      AcceptedIff(FrontFrame(s'));
      if S.Front(s').size == S.Front(s).size {
        SameBoundaryRejected(s, s', p);
      } else if s[0] == TYPE_A_SYNC && s'[0] == TYPE_A_SYNC {
        TypeAAlwaysRejected(s, s', p);
      }
    } else {
      OnlyComplete(s');
    }
  }

  lemma {:induction false} OnlyComplete(s: seq<Byte>)
    ensures Delivers(s) ==> S.Front(s).Complete?
  {
    hide Decode, S.Front;
  }

  /** With a Type B frame and the type byte spared: another frame is delivered if and only if the
      length byte has changed, as many bytes as it now announces are there, at least 13, and one
      CRC holds over them. */
  lemma {:induction false} TypeBAnotherFrameIff(s: seq<Byte>, s': seq<Byte>, p: int)
    requires FrontHit(s, s', p) && |s| >= 2 && |s'| == |s| && s[0] == s'[0] == TYPE_B_SYNC
    ensures var end := Number(s'[1]);
            Delivers(s') <==>
            && s'[1] != s[1]
            && 13 <= end + CRC_LEN <= |s'|
            && VerifyBlock(s'[1..end], s'[end..end + CRC_LEN])
  {
    hide DifferOnlyInBurst, Delivers, VerifyBlock, CrcsHold, S.Front;
    AnotherFrameIff(s, s', p);
    DeliveredIsComplete(s);
    FrontOfTypeB(s);
    FrontOfTypeB(s');
    var end := Number(s'[1]);
    if s'[1] != s[1] && Number(s[1]) == end {
      SameNumber(s[1], s'[1]);
    }
    if S.Front(s').Complete? {
      CrcsHoldB(s', end + CRC_LEN);
    }
  }

  lemma {:induction false} CrcsHoldB(s: seq<Byte>, n: nat)
    requires 2 <= n <= |s| && s[0] == TYPE_B_SYNC
    ensures CrcsHold(s[..n]) <==> n >= 13 && VerifyBlock(s[1..n - CRC_LEN], s[n - CRC_LEN..n])
  {
    hide VerifyBlock, TypeABlocks;
    var frame := s[..n];
    if n >= 13 {
      assert frame[1..n - CRC_LEN] == s[1..n - CRC_LEN] && frame[n - CRC_LEN..] == s[n - CRC_LEN..n];
    }
  }

  lemma {:induction false} FrontOfTypeB(s: seq<Byte>)
    requires |s| >= 2 && s[0] == TYPE_B_SYNC
    ensures S.Front(s).Complete? <==> Number(s[1]) + CRC_LEN <= |s|
    ensures S.Front(s).Complete? ==> S.Front(s).size == Number(s[1]) + CRC_LEN
  {
  }

  // ---------------------------------------------------------------- it does happen

  lemma {:induction false} SmallNumbers()
    ensures Truncate(9) == 0x09 && Truncate(11) == 0x0B && Truncate(13) == 0x0D
  {
    NumbersOf();
    TruncateOf(9, 0x09);
    TruncateOf(11, 0x0B);
    TruncateOf(13, 0x0D);
  }

  lemma {:induction false} NumbersOf()
    ensures 9 == Number(0x09) && 11 == Number(0x0B) && 13 == Number(0x0D)
  {
  }

  lemma {:induction false} LengthBits()
    ensures ByteBits(0x0B) == [false, false, false, false, true, false, true, true]
    ensures ByteBits(0x0D) == [false, false, false, false, true, true, false, true]
  {
    ByteMasks();
  }

  /** The CRC of the header with the length byte of a Type B frame without data. */
  function ShortCrc(header: LinkHeader): seq<Byte> { CrcBytes(Crc([Truncate(11)] + header)) }

  /** Two flipped bits in the length byte turn a Type B frame of 13 bytes into one of 15, if the
      next two bytes are right; and that one, which carries the first one's CRC as its data, into
      the one of 13. */
  lemma {:induction false} TwoBitsMoveBoundary(header: LinkHeader)
    ensures var long := EncodeTypeB(header, ShortCrc(header));
            var short := EncodeTypeB(header, []) + long[13..];
            && DifferInTwo(short, long, 13, 14) && DifferOnlyInBurst(short, long, 13)
            && Delivers(short) && S.Front(short) == S.Complete(13)
            && Delivers(long) && S.Front(long) == S.Complete(15)
  {
    hide Crc, Decode, Bits, S.Front, PacketSize, Delivers;
    var long := EncodeTypeB(header, ShortCrc(header));
    var first := EncodeTypeB(header, []);
    var short := first + long[13..];
    SmallNumbers();
    assert [Truncate(11)] + header + [] == [Truncate(11)] + header;
    assert first == [TYPE_B_SYNC] + ([Truncate(11)] + header) + ShortCrc(header);
    assert |long| == 15 && |short| == 15;
    assert short[0] == long[0] && short[1] == 0x0B && long[1] == 0x0D;
    assert short[2..] == header + ShortCrc(header) + long[13..];
    assert long[2..13] == header + ShortCrc(header);
    assert long[2..] == long[2..13] + long[13..];
    LengthByteHit(short, long);
    TypeBRoundTrip(header, []);
    TypeBRoundTrip(header, ShortCrc(header));
    DecodedFront(first, long[13..]);
    DecodedFront(long, []);
    assert long + [] == long;
  }

  lemma {:induction false} LengthByteHit(s: seq<Byte>, s': seq<Byte>)
    requires |s| == |s'| >= 2 && s[0] == s'[0] && s[1] == 0x0B && s'[1] == 0x0D && s[2..] == s'[2..]
    ensures DifferInTwo(s, s', 13, 14) && DifferOnlyInBurst(s, s', 13)
  {
    hide Bits, ByteBits;
    LengthBits();
    FirstByteBits(s);
    FirstByteBits(s');
    FirstByteBits(s[1..]);
    FirstByteBits(s'[1..]);
    assert s[1..][1..] == s[2..] && s'[1..][1..] == s'[2..];
    var a, b, rest := ByteBits(0x0B), ByteBits(0x0D), Bits(s[2..]);
    assert Bits(s) == ByteBits(s[0]) + (a + rest) && Bits(s') == ByteBits(s[0]) + (b + rest);
    forall k | 0 <= k < 8 * |s| ensures Bits(s)[k] != Bits(s')[k] <==> k == 13 || k == 14 {
      if 8 <= k < 16 {
        assert Bits(s)[k] == a[k - 8] && Bits(s')[k] == b[k - 8];
      }
    }
  }

  /** A frame that decodes and announces its own length is delivered, whatever follows. */
  lemma {:induction false} DecodedFront(frame: seq<Byte>, after: seq<Byte>)
    requires |frame| >= 2 && PacketSize(frame) == |frame|
    requires Decode(frame).Ok? && Decode(frame).value.crcOk
    ensures S.Front(frame + after) == S.Complete(|frame|) && Delivers(frame + after)
  {
    hide Decode, PacketSize;
    PacketSizeOfPrefix(frame, after);
    assert (frame + after)[..2] == frame[..2];
    assert (frame + after)[..|frame|] == frame;
  }

  /** The CRC of the header of a Type A frame without data. */
  function HeaderCrc(header: LinkHeader): seq<Byte> { CrcBytes(Crc([Truncate(9)] + header)) }

  /** Five flipped bits in the type byte and the length byte turn a Type A frame of 13 bytes into
      a Type B frame of 15, if the next two bytes are right, and the other way round. */
  lemma {:induction false} TypeHitMovesBoundary(header: LinkHeader)
    ensures var b := EncodeTypeB(header, HeaderCrc(header));
            var a := EncodeTypeA(header, []) + b[13..];
            && DifferOnlyInBurst(a, b, 0)
            && Delivers(a) && S.Front(a) == S.Complete(13)
            && Delivers(b) && S.Front(b) == S.Complete(15)
  {
    hide Crc, Decode, Bits, S.Front, PacketSize, Delivers;
    var b := EncodeTypeB(header, HeaderCrc(header));
    var first := EncodeTypeA(header, []);
    var a := first + b[13..];
    SmallNumbers();
    assert EncodeBlocks([]) == [];
    assert first == [TYPE_A_SYNC] + ([Truncate(9)] + header) + HeaderCrc(header);
    assert |b| == 15 && |a| == 15;
    assert a[2..] == header + HeaderCrc(header) + b[13..];
    assert b[2..13] == header + HeaderCrc(header);
    assert b[2..] == b[2..13] + b[13..];
    TwoBytesHit(a, b);
    TypeARoundTrip(header, [], []);
    assert first + [] == first;
    TypeAPacketSize(header, []);
    TypeBRoundTrip(header, HeaderCrc(header));
    DecodedFront(first, b[13..]);
    DecodedFront(b, []);
    assert b + [] == b;
  }

  lemma {:induction false} TwoBytesHit(s: seq<Byte>, s': seq<Byte>)
    requires |s| == |s'| >= 2 && s[2..] == s'[2..]
    ensures DifferOnlyInBurst(s, s', 0)
  {
    hide Bits;
    forall k | 16 <= k < 8 * |s| ensures Bits(s)[k] == Bits(s')[k] {
      SliceBits(s, 2, |s|, k - 16);
      SliceBits(s', 2, |s|, k - 16);
      assert s[2..|s|] == s[2..] && s'[2..|s|] == s'[2..];
    }
  }
}
