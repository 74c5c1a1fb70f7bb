/** What transmission errors do to a mode C frame (src/wmbus/mode_c.rs). */
module LinkErrors {
  import opened Casts
  import opened Bytes
  import opened WmbusCrc
  import opened ErrorDetection
  import opened TypeSwap
  import opened ModeC

  /** A frame as the receive path hands it on and accepts it: cut at the length it announces,
      and with every CRC valid. */
  predicate Accepted(raw: seq<Byte>) {
    && PacketSize(raw) == |raw|
    && Decode(raw).Ok? && Decode(raw).value.crcOk
  }

  // ---------------------------------------------------------------- blocks under a burst

  lemma {:induction false} SliceBits(w: seq<Byte>, i: nat, j: nat, k: nat)
    requires i <= j <= |w| && k < 8 * (j - i)
    ensures Bits(w[i..j])[k] == Bits(w)[8 * i + k]
  {
    hide Bits;
    assert w == w[..i] + (w[i..j] + w[j..]);
    BitsConcat(w[..i], w[i..j] + w[j..]);
    BitsConcat(w[i..j], w[j..]);
  }

  /** A block that verifies before and after the burst was not touched by it. */
  lemma {:induction false} BlockUntouched(raw: seq<Byte>, raw': seq<Byte>, p: int, i: nat, n: nat)
    requires DifferOnlyInBurst(raw, raw', p) && i + n + CRC_LEN <= |raw|
    requires VerifyBlock(raw[i..i + n], raw[i + n..i + n + CRC_LEN])
    requires VerifyBlock(raw'[i..i + n], raw'[i + n..i + n + CRC_LEN])
    ensures raw[i..i + n + CRC_LEN] == raw'[i..i + n + CRC_LEN]
  {
    hide Bits, Crc;
    var j := i + n + CRC_LEN;
    var a, b := raw[i..j], raw'[i..j];
    forall k | 0 <= k < 8 * |a| && !(p - 8 * i <= k < p - 8 * i + 16)
      ensures Bits(a)[k] == Bits(b)[k]
    {
      SliceBits(raw, i, j, k);
      SliceBits(raw', i, j, k);
    }
    BlockVerifies(raw, i, n);
    BlockVerifies(raw', i, n);
    if a != b {
      BurstDetected(a, b, p - 8 * i);
    }
  }

  lemma {:induction false} BlocksUntouched(raw: seq<Byte>, raw': seq<Byte>, p: int, pos: nat, remaining: nat)
    requires DifferOnlyInBurst(raw, raw', p) && pos <= |raw|
    requires TypeABlocks(raw, pos, remaining).0 && TypeABlocks(raw', pos, remaining).0
    ensures BlocksEnd(pos, remaining) <= |raw|
    ensures raw[pos..BlocksEnd(pos, remaining)] == raw'[pos..BlocksEnd(pos, remaining)]
    decreases remaining
  {
    hide DifferOnlyInBurst, VerifyBlock, TypeABlocks, BlocksEnd;
    SameLengths(raw, raw', p);
    TypeABlocksStep(raw, pos, remaining);
    TypeABlocksStep(raw', pos, remaining);
    BlocksEndStep(pos, remaining);
    if remaining > 0 {
      var n := if remaining < TYPE_A_BLOCK_LEN then remaining else TYPE_A_BLOCK_LEN;
      BlockUntouched(raw, raw', p, pos, n);
      if remaining > TYPE_A_BLOCK_LEN {
        var next, end := pos + n + CRC_LEN, BlocksEnd(pos, remaining);
        BlocksUntouched(raw, raw', p, next, remaining - n);
        BlocksEndStep(next, remaining - n);
        assert raw[pos..end] == raw[pos..next] + raw[next..end];
        assert raw'[pos..end] == raw'[pos..next] + raw'[next..end];
      }
    }
  }

  lemma {:induction false} SameLengths(raw: seq<Byte>, raw': seq<Byte>, p: int)
    requires DifferOnlyInBurst(raw, raw', p)
    ensures |raw| == |raw'|
  {
  }

  // ---------------------------------------------------------------- accepted frames

  lemma {:induction false} AcceptedA(raw: seq<Byte>)
    requires Accepted(raw) && raw[0] == TYPE_A_SYNC
    ensures |raw| >= 13 && Number(raw[1]) >= 9 && |raw| == BlocksEnd(13, Number(raw[1]) - 9)
    ensures VerifyBlock(raw[1..11], raw[11..13]) && TypeABlocks(raw, 13, Number(raw[1]) - 9).0
  {
    hide VerifyBlock, TypeABlocks, Link, WmbusPacketLen;
    LinkKeepsCrc(raw);
    assert PacketSize(raw) == WmbusPacketLen(Number(raw[1]), false);
    ShortPacket(Number(raw[1]));
    var m := Number(raw[1]) - 9;
    AnnouncedLength(m);
    BlocksFit(raw, 13, m);
  }

  lemma {:induction false} ShortPacket(l: nat)
    ensures l < 9 ==> WmbusPacketLen(l, false) < 13
    ensures WmbusPacketLen(l, false) >= l + 4 && WmbusPacketLen(l, true) == l + 2
  {
  }

  lemma {:induction false} BlocksFit(raw: seq<Byte>, pos: nat, remaining: nat)
    requires pos <= |raw| && TypeABlocks(raw, pos, remaining).0
    ensures BlocksEnd(pos, remaining) <= |raw|
    decreases remaining
  {
    hide VerifyBlock, TypeABlocks, BlocksEnd;
    TypeABlocksStep(raw, pos, remaining);
    BlocksEndStep(pos, remaining);
    if remaining > TYPE_A_BLOCK_LEN {
      BlocksFit(raw, pos + TYPE_A_BLOCK_LEN + CRC_LEN, remaining - TYPE_A_BLOCK_LEN);
    }
  }

  lemma {:induction false} AcceptedB(raw: seq<Byte>)
    requires Accepted(raw) && raw[0] == TYPE_B_SYNC
    ensures |raw| >= 13 && |raw| == Number(raw[1]) + CRC_LEN
    ensures VerifyBlock(raw[1..|raw| - CRC_LEN], raw[|raw| - CRC_LEN..])
  {
    hide VerifyBlock, Link, DecodeTypeB, WmbusPacketLen;
    assert PacketSize(raw) == WmbusPacketLen(Number(raw[1]), true);
    ShortPacket(Number(raw[1]));
    TypeBCrc(raw);
    assert raw[|raw| - CRC_LEN..|raw|] == raw[|raw| - CRC_LEN..];
  }

  lemma {:induction false} AcceptedSync(raw: seq<Byte>)
    requires Accepted(raw)
    ensures |raw| >= 2 && (raw[0] == TYPE_A_SYNC || raw[0] == TYPE_B_SYNC)
  {
    hide DecodeTypeA, DecodeTypeB, PacketSize;
  }

  // ---------------------------------------------------------------- bursts

  /** No burst of at most 16 bits turns an accepted mode C frame into another accepted one of the
      same length: not where it touches the CRCs' blocks, and not where it hits the type byte,
      which no CRC covers. */
  lemma {:induction false} BurstRejected(raw: seq<Byte>, raw': seq<Byte>, p: int)
    requires Accepted(raw) && DifferOnlyInBurst(raw, raw', p) && raw' != raw
    ensures !Accepted(raw')
  {
    hide Accepted, DifferOnlyInBurst;
    if Accepted(raw') {
      AcceptedSync(raw);
      AcceptedSync(raw');
      if raw[0] == raw'[0] {
        if raw[0] == TYPE_A_SYNC {
          UntouchedA(raw, raw', p);
        } else {
          UntouchedB(raw, raw', p);
        }
      } else {
        TypeHitSparesRest(raw, raw', p);
        if raw[0] == TYPE_A_SYNC {
          NeverBoth(raw, raw');
        } else {
          NeverBoth(raw', raw);
        }
      }
    }
  }

  lemma {:induction false} TypesDifferAtFront()
    ensures forall k | 0 <= k < 4 :: ByteBits(TYPE_A_SYNC)[k] != ByteBits(TYPE_B_SYNC)[k]
  {
    ByteMasks();
  }

  /** The two type bytes differ in their first four bits, so a burst that swaps them ends within
      the length byte. */
  lemma {:induction false} TypeHitSparesRest(raw: seq<Byte>, raw': seq<Byte>, p: int)
    requires DifferOnlyInBurst(raw, raw', p) && |raw| >= 2
    requires {raw[0], raw'[0]} == {TYPE_A_SYNC, TYPE_B_SYNC} && raw[0] != raw'[0]
    ensures raw[2..] == raw'[2..]
  {
    hide Bits, ByteBits;
    TypesDifferAtFront();
    FirstByteBits(raw);
    FirstByteBits(raw');
    assert Bits(raw)[0] != Bits(raw')[0];
    assert p <= 0;
    var a, b := raw[2..], raw'[2..];
    forall k | 0 <= k < 8 * |a| ensures Bits(a)[k] == Bits(b)[k] {
      SliceBits(raw, 2, |raw|, k);
      SliceBits(raw', 2, |raw|, k);
      assert raw[2..|raw|] == a && raw'[2..|raw|] == b;
    }
    BitsInjective(a, b);
  }

  /** Of two byte strings that agree from the third byte on, not both are accepted, one as Type A
      and the other as Type B. */
  lemma {:induction false} NeverBoth(a: seq<Byte>, b: seq<Byte>)
    requires |a| == |b| >= 2 && a[2..] == b[2..]
    requires a[0] == TYPE_A_SYNC && b[0] == TYPE_B_SYNC
    ensures !(Accepted(a) && Accepted(b))
  {
    hide Accepted, VerifyBlock, VerifyCrcBe, TypeABlocks, BlocksEnd;
    if Accepted(a) && Accepted(b) {
      AcceptedA(a);
      AcceptedB(b);
      AcceptedBWhole(b);
      AnnouncedIsLonger(13, Number(a[1]) - 9);
      NotBothTypes(a, b, Number(a[1]) - 9);
    }
  }

  lemma {:induction false} AcceptedBWhole(raw: seq<Byte>)
    requires |raw| >= 13 && VerifyBlock(raw[1..|raw| - CRC_LEN], raw[|raw| - CRC_LEN..])
    ensures VerifyCrcBe(raw[1..])
  {
    hide Crc;
    var w := raw[1..];
    assert w[..|w| - 2] == raw[1..|raw| - CRC_LEN] && w[|w| - 2..] == raw[|raw| - CRC_LEN..];
  }

  lemma {:induction false} AnnouncedIsLonger(pos: nat, remaining: nat)
    ensures BlocksEnd(pos, remaining) >= pos + remaining
  {
  }

  lemma {:induction false} UntouchedA(raw: seq<Byte>, raw': seq<Byte>, p: int)
    requires Accepted(raw) && Accepted(raw') && DifferOnlyInBurst(raw, raw', p)
    requires raw[0] == raw'[0] == TYPE_A_SYNC
    ensures raw == raw'
  {
    hide Accepted, DifferOnlyInBurst, VerifyBlock, TypeABlocks, BlocksEnd;
    AcceptedA(raw);
    AcceptedA(raw');
    BlockUntouched(raw, raw', p, 1, 10);
    assert raw[1] == raw[1..13][0] && raw'[1] == raw'[1..13][0];
    BlocksUntouched(raw, raw', p, 13, Number(raw[1]) - 9);
    assert raw[13..|raw|] == raw[13..] && raw'[13..|raw|] == raw'[13..];
    assert raw == [raw[0]] + raw[1..13] + raw[13..];
    assert raw' == [raw'[0]] + raw'[1..13] + raw'[13..];
  }

  lemma {:induction false} UntouchedB(raw: seq<Byte>, raw': seq<Byte>, p: int)
    requires Accepted(raw) && Accepted(raw') && DifferOnlyInBurst(raw, raw', p)
    requires raw[0] == raw'[0] == TYPE_B_SYNC
    ensures raw == raw'
  {
    hide Accepted, DifferOnlyInBurst, VerifyBlock;
    AcceptedB(raw);
    AcceptedB(raw');
    SameLengths(raw, raw', p);
    var n := |raw| - 3;
    assert raw[1 + n..] == raw[1 + n..1 + n + CRC_LEN] && raw'[1 + n..] == raw'[1 + n..1 + n + CRC_LEN];
    BlockUntouched(raw, raw', p, 1, n);
    assert raw == [raw[0]] + raw[1..1 + n + CRC_LEN];
    assert raw' == [raw'[0]] + raw'[1..1 + n + CRC_LEN];
  }
}
