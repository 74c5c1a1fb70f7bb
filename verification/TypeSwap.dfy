/** What becomes of a Type A frame whose type byte is hit so that it reads as Type B, or the other
    way round: within one length the one CRC of Type B never agrees with the many of Type A. */
module TypeSwap {
  import opened Casts
  import opened Bytes
  import opened WmbusCrc
  import opened ErrorDetection
  import opened PowersOfX
  import opened ModeC

  // ---------------------------------------------------------------- all ones, shifted

  /** The all-ones remainder times x^(63 + 7 q). */
  function OnesShifted(q: nat): bv16 {
    Shift(0xFFFF, 63 + 7 * q)
  }

  /** The sum of the first of them. */
  function Gap(q: nat): bv16 {
    if q == 0 then OnesShifted(0) else Xor(Gap(q - 1), OnesShifted(q))
  }

  lemma {:induction false} OnesShiftedFirst()
    ensures OnesShifted(0) == 0x8E60
  {
    FirstOnes();
    ShiftSum(0xFFFF, 8, 8);
    ShiftSum(0xFFFF, 16, 8);
    ShiftSum(0xFFFF, 24, 8);
    ShiftSum(0xFFFF, 32, 8);
    ShiftSum(0xFFFF, 40, 8);
    ShiftSum(0xFFFF, 48, 8);
    ShiftSum(0xFFFF, 56, 7);
    hide Shift;
  }

  lemma {:induction false} FirstOnes()
    ensures Shift(0xFFFF, 8) == 0x5348 && Shift(0x5348, 8) == 0xA366 && Shift(0xA366, 8) == 0x4558
    ensures Shift(0x4558, 8) == 0xADC7 && Shift(0xADC7, 8) == 0xBD4B && Shift(0xBD4B, 8) == 0xA0B4
    ensures Shift(0xA0B4, 8) == 0xD0F7 && Shift(0xD0F7, 7) == 0x8E60
  {
    hide Shift;
    Steps(0xFFFF);
    Steps(0x5348);
    Steps(0xA366);
    Steps(0x4558);
    Steps(0xADC7);
    Steps(0xBD4B);
    Steps(0xA0B4);
    Steps(0xD0F7);
  }

  lemma {:induction false} OnesShiftedNext(q: nat)
    ensures OnesShifted(q + 1) == Shift(OnesShifted(q), 7)
  {
    ShiftSum(0xFFFF, 63 + 7 * q, 7);
  }

  lemma {:induction false} ShiftedLow()
    ensures Shift(0x8E60, 7) == 0xBF0D && Shift(0xBF0D, 7) == 0x4E3F && Shift(0x4E3F, 7) == 0xB320
    ensures Shift(0xB320, 7) == 0xD7E1 && Shift(0xD7E1, 7) == 0x42CF && Shift(0x42CF, 7) == 0x447E
    ensures Shift(0x447E, 7) == 0x5B51
  {
    hide Shift;
    Steps(0x8E60);
    Steps(0xBF0D);
    Steps(0x4E3F);
    Steps(0xB320);
    Steps(0xD7E1);
    Steps(0x42CF);
    Steps(0x447E);
  }

  lemma {:induction false} ShiftedHigh()
    ensures Shift(0x5B51, 7) == 0xA8A7 && Shift(0xA8A7, 7) == 0x0ADD && Shift(0x0ADD, 7) == 0xA671
    ensures Shift(0xA671, 7) == 0xD3E6 && Shift(0xD3E6, 7) == 0x3B85 && Shift(0x3B85, 7) == 0x4DC3
    ensures Shift(0x4DC3, 7) == 0x7045 && Shift(0x7045, 7) == 0x7BA9
  {
    hide Shift;
    Steps(0x5B51);
    Steps(0xA8A7);
    Steps(0x0ADD);
    Steps(0xA671);
    Steps(0xD3E6);
    Steps(0x3B85);
    Steps(0x4DC3);
    Steps(0x7045);
  }

  lemma {:induction false} OnesShiftedTable()
    ensures OnesShifted(0) == 0x8E60 && OnesShifted(1) == 0xBF0D && OnesShifted(2) == 0x4E3F && OnesShifted(3) == 0xB320
    ensures OnesShifted(4) == 0xD7E1 && OnesShifted(5) == 0x42CF && OnesShifted(6) == 0x447E && OnesShifted(7) == 0x5B51
    ensures OnesShifted(8) == 0xA8A7 && OnesShifted(9) == 0x0ADD && OnesShifted(10) == 0xA671
    ensures OnesShifted(11) == 0xD3E6 && OnesShifted(12) == 0x3B85 && OnesShifted(13) == 0x4DC3
    ensures OnesShifted(14) == 0x7045 && OnesShifted(15) == 0x7BA9
  {
    hide Shift, OnesShifted;
    OnesShiftedFirst();
    ShiftedLow();
    ShiftedHigh();
    OnesShiftedNext(0);
    OnesShiftedNext(1);
    OnesShiftedNext(2);
    OnesShiftedNext(3);
    OnesShiftedNext(4);
    OnesShiftedNext(5);
    OnesShiftedNext(6);
    OnesShiftedNext(7);
    OnesShiftedNext(8);
    OnesShiftedNext(9);
    OnesShiftedNext(10);
    OnesShiftedNext(11);
    OnesShiftedNext(12);
    OnesShiftedNext(13);
    OnesShiftedNext(14);
  }

  lemma {:induction false} GapTable()
    ensures Gap(0) == 0x8E60 && Gap(1) == 0x316D && Gap(2) == 0x7F52 && Gap(3) == 0xCC72
    ensures Gap(4) == 0x1B93 && Gap(5) == 0x595C && Gap(6) == 0x1D22 && Gap(7) == 0x4673
    ensures Gap(8) == 0xEED4 && Gap(9) == 0xE409 && Gap(10) == 0x4278 && Gap(11) == 0x919E
    ensures Gap(12) == 0xAA1B && Gap(13) == 0xE7D8 && Gap(14) == 0x979D && Gap(15) == 0xEC34
  {
    hide OnesShifted;
    OnesShiftedTable();
    assert Gap(2) == 0x7F52;
    assert Gap(4) == 0x1B93;
    assert Gap(6) == 0x1D22;
    assert Gap(8) == 0xEED4;
    assert Gap(10) == 0x4278;
    assert Gap(12) == 0xAA1B;
    assert Gap(14) == 0x979D;
  }

  predicate Wide(w: bv16) { w > 0xFF }

  lemma {:induction false} GapIsWide(q: nat)
    requires q <= 15
    ensures Wide(Gap(q))
  {
    hide Gap;
    GapTable();
    if q < 8 {
      if q == 0 {} else if q == 1 {} else if q == 2 {} else if q == 3 {}
      else if q == 4 {} else if q == 5 {} else if q == 6 {} else { assert q == 7; }
    } else {
      if q == 8 {} else if q == 9 {} else if q == 10 {} else if q == 11 {}
      else if q == 12 {} else if q == 13 {} else if q == 14 {} else { assert q == 15; }
    }
  }

  lemma {:induction false} WideHigh(w: bv16)
    requires Wide(w)
    ensures High(w) != 0
  {
  }

  /** A wide word is no byte, read as a polynomial. */
  lemma {:induction false} WideIsNoByte(w: bv16, byte: seq<bool>)
    requires Wide(w) && |byte| == 8
    ensures Coeffs(w) != Zeros(8) + byte
  {
    hide Coeffs, Wide, ByteBits;
    WideHigh(w);
    JoinHighLow(w);
    CoeffsJoin(High(w), Low(w));
    ZeroByte();
    if Coeffs(w) == Zeros(8) + byte {
      assert ByteBits(High(w)) == Coeffs(w)[..8] == Zeros(8) == ByteBits(0);
      ByteBitsInjective(High(w), 0);
    }
  }

  // ---------------------------------------------------------------- a changed first byte

  /** The remainder after a block that verifies and `q` more, if only the first byte of the
      first block is changed, by `d`: the header block has 11 bytes after it, the others 18 in
      all. */
  function Drift(q: nat, d: seq<bool>): (u: seq<bool>)
    requires |d| == 16
    ensures |u| == 16
  {
    if q == 0 then Diff(Ones(16), Times(d, 88)) else Diff(Ones(16), Times(Drift(q - 1, d), 144))
  }

  lemma {:induction false} OnesWord()
    ensures Coeffs(0xFFFF) == Ones(16)
  {
    Masks();
    forall k | 0 <= k < 16 ensures HasBit(0xFFFF, Mask(k)) {
    }
  }

  lemma {:induction false} OnesShiftedIs(q: nat)
    ensures Times(Coeffs(OnesShifted(q)), 88 + 144 * q) == Ones(16)
  {
    hide Times, Shift, Coeffs;
    OnesWord();
    CoeffsShift(0xFFFF, 63 + 7 * q);
    TimesIs(Ones(16), 63 + 7 * q);
    TimesSum(Ones(16), 63 + 7 * q, 88 + 144 * q);
    TimesMultiple(Ones(16), q + 1);
  }

  lemma {:induction false} TimesIs(r: seq<bool>, n: nat)
    requires |r| == 16
    ensures Times(r, n) == Remainder(r, Zeros(n))
  {
  }

  lemma {:induction false} DiffSwap(a: seq<bool>, b: seq<bool>, c: seq<bool>)
    requires |a| == |b| == |c|
    ensures Diff(Diff(a, b), c) == Diff(b, Diff(a, c))
  {
  }

  lemma {:induction false} DriftForm(q: nat, d: seq<bool>)
    requires |d| == 16
    ensures Drift(q, d) == Times(Diff(Coeffs(Gap(q)), d), 88 + 144 * q)
  {
    hide Times, Coeffs, OnesShifted, Xor;
    OnesShiftedIs(q);
    if q == 0 {
      TimesDiff(Coeffs(Gap(0)), d, 88);
    } else {
      var g, t := Coeffs(Gap(q - 1)), Coeffs(OnesShifted(q));
      DriftForm(q - 1, d);
      TimesSum(Diff(g, d), 88 + 144 * (q - 1), 144);
      CoeffsXor(Gap(q - 1), OnesShifted(q));
      DiffSwap(g, t, d);
      TimesDiff(t, Diff(g, d), 88 + 144 * q);
    }
  }

  /** Whatever byte the change is, the drift never comes to zero within a frame. */
  lemma {:induction false} DriftIsNotZero(q: nat, byte: seq<bool>)
    requires q <= 15 && |byte| == 8
    ensures Drift(q, Zeros(8) + byte) != Zeros(16)
  {
    hide Drift, Gap, Coeffs, Remainder;
    var d := Zeros(8) + byte;
    DriftForm(q, d);
    GapIsWide(q);
    WideIsNoByte(Gap(q), byte);
    ZerosKeepNonzero(Diff(Coeffs(Gap(q)), d), 88 + 144 * q);
    DiffZero(Coeffs(Gap(q)), d);
  }

  lemma {:induction false} DriftIsNotOnes(q: nat, byte: seq<bool>)
    requires q <= 16 && |byte| == 8 && byte != Zeros(8)
    ensures Drift(q, Zeros(8) + byte) != Ones(16)
  {
    hide Remainder;
    var d := Zeros(8) + byte;
    var before, n := if q == 0 then d else Drift(q - 1, d), if q == 0 then 88 else 144;
    if q == 0 {
      assert d[8..] == byte;
      assert Zeros(16)[8..] == Zeros(8);
    } else {
      DriftIsNotZero(q - 1, byte);
    }
    NotOnes(before, n);
  }

  // ---------------------------------------------------------------- the blocks as one message

  function BlocksEnd(pos: nat, remaining: nat): nat { pos + remaining + 2 * ((remaining + 15) / 16) }

  lemma {:induction false} BlocksEndStep(pos: nat, remaining: nat)
    ensures pos <= BlocksEnd(pos, remaining)
    ensures remaining == 0 ==> BlocksEnd(pos, remaining) == pos
    ensures 0 < remaining <= 16 ==> BlocksEnd(pos, remaining) == pos + remaining + 2
    ensures remaining > 16 ==> BlocksEnd(pos, remaining) == BlocksEnd(pos + 18, remaining - 16)
  {
  }

  lemma {:induction false} BlockVerifies(raw: seq<Byte>, i: nat, n: nat)
    requires i + n + CRC_LEN <= |raw|
    ensures VerifyBlock(raw[i..i + n], raw[i + n..i + n + CRC_LEN]) <==> VerifyCrcBe(raw[i..i + n + CRC_LEN])
  {
    hide Crc;
    var w := raw[i..i + n + CRC_LEN];
    assert w[..n] == raw[i..i + n] && w[n..] == raw[i + n..i + n + CRC_LEN];
  }

  /** Dividing on through a block that verifies. */
  lemma {:induction false} ThroughBlock(u: seq<bool>, block: seq<Byte>)
    requires |u| == 16 && VerifyCrcBe(block)
    ensures Remainder(u, Bits(block)) == Diff(Ones(16), Times(u, 8 * |block|))
  {
    hide Remainder, Bits, Crc;
    var n := 8 * |block|;
    VerifyIsRemainder(block);
    assert Diff(u, Zeros(16)) == u && Diff(Zeros(n), Bits(block)) == Bits(block);
    RemainderLinear(u, Zeros(16), Zeros(n), Bits(block));
    assert Diff(Times(u, n), Ones(16)) == Diff(Ones(16), Times(u, n));
  }

  lemma {:induction false} ThroughSlices(u: seq<bool>, raw: seq<Byte>, i: nat, j: nat, k: nat)
    requires |u| == 16 && i <= j <= k <= |raw|
    ensures Remainder(u, Bits(raw[i..k])) == Remainder(Remainder(u, Bits(raw[i..j])), Bits(raw[j..k]))
  {
    hide Remainder, Bits;
    assert raw[i..k] == raw[i..j] + raw[j..k];
    BitsConcat(raw[i..j], raw[j..k]);
    RemainderConcat(u, Bits(raw[i..j]), Bits(raw[j..k]));
  }

  /** A drift carried through the remaining data blocks never comes out as all ones. */
  lemma {:induction false} DriftThroughBlocks(raw: seq<Byte>, pos: nat, remaining: nat, q: nat, byte: seq<bool>)
    requires pos <= |raw| && TypeABlocks(raw, pos, remaining).0
    requires |byte| == 8 && byte != Zeros(8) && q + (remaining + 15) / 16 <= 16
    ensures BlocksEnd(pos, remaining) <= |raw|
    ensures Remainder(Drift(q, Zeros(8) + byte), Bits(raw[pos..BlocksEnd(pos, remaining)])) != Ones(16)
    decreases remaining
  {
    hide TypeABlocks, VerifyBlock, VerifyCrcBe, Remainder, Bits, BlocksEnd, Drift;
    var u, end := Drift(q, Zeros(8) + byte), BlocksEnd(pos, remaining);
    TypeABlocksStep(raw, pos, remaining);
    BlocksEndStep(pos, remaining);
    if remaining == 0 {
      DriftIsNotOnes(q, byte);
      NothingMore(u, raw[pos..end]);
    } else {
      var n := if remaining < TYPE_A_BLOCK_LEN then remaining else TYPE_A_BLOCK_LEN;
      var next := pos + n + CRC_LEN;
      BlockVerifies(raw, pos, n);
      ThroughBlock(u, raw[pos..next]);
      if remaining < TYPE_A_BLOCK_LEN {
        DriftIsNotZero(q, byte);
        NotOnes(u, 8 * (n + CRC_LEN));
      } else {
        NextDrift(q, Zeros(8) + byte);
        DriftThroughBlocks(raw, next, remaining - n, q + 1, byte);
        BlocksEndStep(next, remaining - n);
        ThroughSlices(u, raw, pos, next, end);
      }
    }
  }

  lemma {:induction false} NextDrift(q: nat, d: seq<bool>)
    requires |d| == 16
    ensures Drift(q + 1, d) == Diff(Ones(16), Times(Drift(q, d), 144))
  {
  }

  lemma {:induction false} NothingMore(u: seq<bool>, bytes: seq<Byte>)
    requires |u| == 16 && bytes == []
    ensures Remainder(u, Bits(bytes)) == u
  {
  }

  lemma {:induction false} NotOnes(u: seq<bool>, n: nat)
    requires |u| == 16 && u != Zeros(16)
    ensures Diff(Ones(16), Times(u, n)) != Ones(16)
  {
    hide Remainder;
    ZerosKeepNonzero(u, n);
    OnesMinus(Times(u, n));
  }

  lemma {:induction false} OnesMinus(r: seq<bool>)
    requires |r| == 16
    ensures Diff(Ones(16), r) == Ones(16) <==> r == Zeros(16)
  {
    if Diff(Ones(16), r) == Ones(16) {
      forall k | 0 <= k < 16 ensures r[k] == Zeros(16)[k] {
        assert Diff(Ones(16), r)[k];
      }
    }
  }

  lemma {:induction false} ChangedFirstByte(a: seq<Byte>, b: seq<Byte>)
    requires |a| == |b| == 12 && a[1..] == b[1..] && VerifyCrcBe(a)
    ensures Remainder(Zeros(16), Bits(b)) == Drift(0, Zeros(8) + Diff(ByteBits(a[0]), ByteBits(b[0])))
  {
    hide Remainder, Bits, ByteBits, VerifyCrcBe;
    var z, byte := Zeros(16), Diff(ByteBits(a[0]), ByteBits(b[0]));
    VerifyIsRemainder(a);
    FirstByteBits(a);
    FirstByteBits(b);
    assert Bits(b) == Diff(Bits(a), byte + Zeros(88));
    assert Diff(z, z) == z;
    RemainderLinear(z, z, Bits(a), byte + Zeros(88));
    RemainderConcat(z, byte, Zeros(88));
    ShortIsRemainder(byte);
  }

  lemma {:induction false} FirstByteBits(a: seq<Byte>)
    requires a != []
    ensures Bits(a) == ByteBits(a[0]) + Bits(a[1..])
  {
  }

  /** A valid Type A frame and a byte string with the same bytes from the third on: read as Type
      B, with one CRC over all of it, the second never validates unless the length byte is the
      same too. */
  lemma {:induction false} NotBothTypes(a: seq<Byte>, b: seq<Byte>, remaining: nat)
    requires |a| == |b| == BlocksEnd(13, remaining) && a[2..] == b[2..] && a[1] != b[1] && remaining <= 246
    requires VerifyBlock(a[1..11], a[11..13]) && TypeABlocks(a, 13, remaining).0
    ensures !VerifyCrcBe(b[1..])
  {
    hide TypeABlocks, VerifyBlock, VerifyCrcBe, Remainder, Bits, ByteBits, BlocksEnd, Drift;
    var n := |a|;
    BlocksEndStep(13, remaining);
    BlockVerifies(a, 1, 10);
    assert a[1..13][1..] == a[2..][..11] == b[1..13][1..];
    ChangedFirstByte(a[1..13], b[1..13]);
    var byte := Diff(ByteBits(a[1]), ByteBits(b[1]));
    DiffZero(ByteBits(a[1]), ByteBits(b[1]));
    if byte == Zeros(8) {
      ByteBitsInjective(a[1], b[1]);
    }
    DriftThroughBlocks(a, 13, remaining, 0, byte);
    assert a[13..n] == a[2..][11..] == b[13..n];
    ThroughSlices(Zeros(16), b, 1, 13, n);
    assert b[1..n] == b[1..];
    VerifyIsRemainder(b[1..]);
  }
}
