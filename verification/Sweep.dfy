/** The airwave sweep (metermon-rs/src/sweep.rs): frames and bursts in a raw bit stream without
    byte alignment. The two burst scorers are a parameter. */
module Sweeping {
  import opened Casts
  import opened Bytes
  import M = ModeC

  const C_SYNC: bv32 := 0x543D54
  const MIN_FRAME := 13
  const MAX_FRAME := 64
  const MIN_RUN := 16
  const MIN_BITS := 400

  // ---------------------------------------------------------------- single bits

  function Shifted(b: Byte, k: nat): Byte
    requires k < 8
  {
    (b >> (7 - k)) & 1
  }

  /** The bit as it is read: by shifting its byte down. */
  function Bit(d: seq<Byte>, i: nat): (b: bool)
    requires i < 8 * |d|
  {
    Shifted(d[i / 8], i % 8) == 1
  }

  lemma {:induction false} ShiftedIsBit(b: Byte, k: nat)
    requires k < 8
    ensures (Shifted(b, k) == 1) == Has(b, ByteMask(k))
  {
    ByteMasks();
    if k == 0 { ShiftedLow(b); } else if k == 1 { ShiftedLow(b); } else if k == 2 { ShiftedLow(b); }
    else if k == 3 { ShiftedLow(b); } else { ShiftedHigh(b); }
  }

  lemma {:induction false} ShiftedLow(b: Byte)
    ensures (Shifted(b, 0) == 1) == Has(b, 0x80) && (Shifted(b, 1) == 1) == Has(b, 0x40)
    ensures (Shifted(b, 2) == 1) == Has(b, 0x20) && (Shifted(b, 3) == 1) == Has(b, 0x10)
  {
  }

  lemma {:induction false} ShiftedHigh(b: Byte)
    ensures (Shifted(b, 4) == 1) == Has(b, 0x08) && (Shifted(b, 5) == 1) == Has(b, 0x04)
    ensures (Shifted(b, 6) == 1) == Has(b, 0x02) && (Shifted(b, 7) == 1) == Has(b, 0x01)
  {
  }

  /** Every read gives the bit of the stream at that position. */
  lemma {:induction false} BitOfStream(d: seq<Byte>, i: nat)
    requires i < 8 * |d|
    ensures Bit(d, i) == Bits(d)[i]
  {
    hide Shifted, ByteMask, Has;
    BitsAt(d, i);
    ShiftedIsBit(d[i / 8], i % 8);
  }

  // ---------------------------------------------------------------- bytes at any bit offset

  function Pushed(b: Byte, x: bool): Byte { (b << 1) | (if x then 1 else 0) }

  lemma {:induction false} PushedBits(b: Byte, x: bool)
    ensures ByteBits(Pushed(b, x)) == ByteBits(b)[1..] + [x]
  {
    hide Pushed, Has;
    ByteMasks();
    PushedHas(b, x);
    var p := Pushed(b, x);
    var bits := ByteBits(b)[1..] + [x];
    forall k | 0 <= k < 8 ensures ByteBits(p)[k] == bits[k] {
      if k < 7 {
        assert bits[k] == ByteBits(b)[k + 1];
        if k == 0 {} else if k == 1 {} else if k == 2 {} else if k == 3 {}
        else if k == 4 {} else if k == 5 {} else { assert k == 6; }
      }
    }
  }

  lemma {:induction false} PushedHas(b: Byte, x: bool)
    ensures Has(Pushed(b, x), 0x80) == Has(b, 0x40) && Has(Pushed(b, x), 0x40) == Has(b, 0x20)
    ensures Has(Pushed(b, x), 0x20) == Has(b, 0x10) && Has(Pushed(b, x), 0x10) == Has(b, 0x08)
    ensures Has(Pushed(b, x), 0x08) == Has(b, 0x04) && Has(Pushed(b, x), 0x04) == Has(b, 0x02)
    ensures Has(Pushed(b, x), 0x02) == Has(b, 0x01) && Has(Pushed(b, x), 0x01) == x
  {
  }

  function FromBits(bits: seq<bool>): Byte {
    if bits == [] then 0 else Pushed(FromBits(bits[..|bits| - 1]), bits[|bits| - 1])
  }

  lemma {:induction false} FromBitsHolds(bits: seq<bool>)
    requires |bits| <= 8
    ensures ByteBits(FromBits(bits))[8 - |bits|..] == bits
  {
    hide Pushed, ByteBits;
    if bits != [] {
      var init := bits[..|bits| - 1];
      FromBitsHolds(init);
      PushedBits(FromBits(init), bits[|bits| - 1]);
      assert bits == init + [bits[|bits| - 1]];
      var before := ByteBits(FromBits(init));
      assert (before[1..] + [bits[|bits| - 1]])[8 - |bits|..] == before[9 - |bits|..] + [bits[|bits| - 1]];
    }
  }

  method ByteAt(d: seq<Byte>, offset: nat) returns (b: Byte)
    requires offset + 8 <= 8 * |d|
    ensures b == FromBits(Bits(d)[offset..offset + 8])
    ensures ByteBits(b) == Bits(d)[offset..offset + 8]
  {
    hide Bit, Pushed, Bits, ByteBits;
    var bits := Bits(d);
    b := 0;
    for k := 0 to 8
      invariant b == FromBits(bits[offset..offset + k])
    {
      BitOfStream(d, offset + k);
      var s := bits[offset..offset + k + 1];
      assert s[..k] == bits[offset..offset + k] && s[k] == bits[offset + k];
      b := Pushed(b, Bit(d, offset + k));
    }
    FromBitsHolds(bits[offset..offset + 8]);
  }

  // ---------------------------------------------------------------- the rolling accumulator

  function Rolled(acc: bv32, x: bool): bv32 { ((acc << 1) | (if x then 1 else 0)) & 0x00FFFFFF }

  function Roll(bits: seq<bool>): bv32 {
    if bits == [] then 0 else Rolled(Roll(bits[..|bits| - 1]), bits[|bits| - 1])
  }

  predicate Test(acc: bv32, mask: bv32) { acc & mask != 0 }

  function Doubled(m: bv32): bv32 { m << 1 }

  predicate Small(m: bv32) { m <= 0x7FFFFF }

  function Mask(k: nat): bv32 {
    if k == 0 then 1 else Doubled(Mask(k - 1))
  }

  lemma {:induction false} RolledTest(acc: bv32, x: bool, m: bv32)
    requires Small(m)
    ensures Test(Rolled(acc, x), Doubled(m)) == Test(acc, m)
    ensures Test(Rolled(acc, x), 1) == x
  {
  }

  lemma {:induction false} Masks()
    ensures Mask(0) == 0x1 && Mask(1) == 0x2 && Mask(2) == 0x4 && Mask(3) == 0x8
    ensures Mask(4) == 0x10 && Mask(5) == 0x20 && Mask(6) == 0x40 && Mask(7) == 0x80
    ensures Mask(8) == 0x100 && Mask(9) == 0x200 && Mask(10) == 0x400 && Mask(11) == 0x800
    ensures Mask(12) == 0x1000 && Mask(13) == 0x2000 && Mask(14) == 0x4000 && Mask(15) == 0x8000
    ensures Mask(16) == 0x10000 && Mask(17) == 0x20000 && Mask(18) == 0x40000 && Mask(19) == 0x80000
    ensures Mask(20) == 0x100000 && Mask(21) == 0x200000 && Mask(22) == 0x400000 && Mask(23) == 0x800000
  {
    assert Mask(2) == 0x4; assert Mask(4) == 0x10; assert Mask(6) == 0x40; assert Mask(8) == 0x100;
    assert Mask(10) == 0x400; assert Mask(12) == 0x1000; assert Mask(14) == 0x4000; assert Mask(16) == 0x10000;
    assert Mask(18) == 0x40000; assert Mask(20) == 0x100000; assert Mask(22) == 0x400000;
  }

  lemma {:induction false} SmallMask(k: nat)
    requires k < 23
    ensures Small(Mask(k))
  {
    hide Mask;
    Masks();
    if k < 8 { SmallMaskLow(k); } else if k < 16 { SmallMaskMid(k); } else { SmallMaskHigh(k); }
  }

  lemma {:induction false} SmallMaskLow(k: nat)
    requires k < 8
    ensures Small(Mask(k))
  {
    hide Mask;
    Masks();
    if k == 0 {} else if k == 1 {} else if k == 2 {} else if k == 3 {} else if k == 4 {}
    else if k == 5 {} else if k == 6 {} else { assert k == 7; }
  }

  lemma {:induction false} SmallMaskMid(k: nat)
    requires 8 <= k < 16
    ensures Small(Mask(k))
  {
    hide Mask;
    Masks();
    if k == 8 {} else if k == 9 {} else if k == 10 {} else if k == 11 {} else if k == 12 {}
    else if k == 13 {} else if k == 14 {} else { assert k == 15; }
  }

  lemma {:induction false} SmallMaskHigh(k: nat)
    requires 16 <= k < 23
    ensures Small(Mask(k))
  {
    hide Mask;
    Masks();
    if k == 16 {} else if k == 17 {} else if k == 18 {} else if k == 19 {} else if k == 20 {}
    else if k == 21 {} else { assert k == 22; }
  }

  /** The accumulator holds the last 24 bits. */
  lemma {:induction false} RollHolds(bits: seq<bool>, k: nat)
    requires k < 24 && k < |bits|
    ensures Test(Roll(bits), Mask(k)) == bits[|bits| - 1 - k]
    decreases k
  {
    hide Rolled, Test, Small, Doubled;
    var init, last := bits[..|bits| - 1], bits[|bits| - 1];
    if k == 0 {
      SmallMask(0);
      RolledTest(Roll(init), last, Mask(0));
    } else {
      SmallMask(k - 1);
      RollHolds(init, k - 1);
      RolledTest(Roll(init), last, Mask(k - 1));
    }
  }

  predicate Narrow(acc: bv32) { acc <= 0x00FFFFFF }

  lemma {:induction false} RollNarrow(bits: seq<bool>)
    ensures Narrow(Roll(bits))
  {
  }

  const SYNC_BYTES: seq<Byte> := [0x54, 0x3D, 0x54]

  function SyncBits(): (bits: seq<bool>)
    ensures |bits| == 24
  {
    Bits(SYNC_BYTES)
  }

  function AccBits(acc: bv32): (bits: seq<bool>)
    ensures |bits| == 24
  {
    seq(24, k requires 0 <= k < 24 => Test(acc, Mask(23 - k)))
  }

  lemma {:induction false} SameTests(a: bv32, b: bv32)
    requires Narrow(a) && Narrow(b)
    requires Test(a, 0x1) == Test(b, 0x1) && Test(a, 0x2) == Test(b, 0x2) && Test(a, 0x4) == Test(b, 0x4)
    requires Test(a, 0x8) == Test(b, 0x8) && Test(a, 0x10) == Test(b, 0x10) && Test(a, 0x20) == Test(b, 0x20)
    requires Test(a, 0x40) == Test(b, 0x40) && Test(a, 0x80) == Test(b, 0x80)
    requires Test(a, 0x100) == Test(b, 0x100)
    requires Test(a, 0x200) == Test(b, 0x200) && Test(a, 0x400) == Test(b, 0x400)
    requires Test(a, 0x800) == Test(b, 0x800)
    requires Test(a, 0x1000) == Test(b, 0x1000) && Test(a, 0x2000) == Test(b, 0x2000)
    requires Test(a, 0x4000) == Test(b, 0x4000)
    requires Test(a, 0x8000) == Test(b, 0x8000) && Test(a, 0x10000) == Test(b, 0x10000)
    requires Test(a, 0x20000) == Test(b, 0x20000)
    requires Test(a, 0x40000) == Test(b, 0x40000) && Test(a, 0x80000) == Test(b, 0x80000)
    requires Test(a, 0x100000) == Test(b, 0x100000)
    requires Test(a, 0x200000) == Test(b, 0x200000) && Test(a, 0x400000) == Test(b, 0x400000)
    requires Test(a, 0x800000) == Test(b, 0x800000)
    ensures a == b
  {
  }

  lemma {:induction false} AccBitsInjective(a: bv32, b: bv32)
    requires Narrow(a) && Narrow(b) && AccBits(a) == AccBits(b)
    ensures a == b
  {
    hide Test, Mask, Narrow;
    forall k | 0 <= k < 24 ensures Test(a, Mask(k)) == Test(b, Mask(k)) {
      assert AccBits(a)[23 - k] == AccBits(b)[23 - k];
    }
    Masks();
    SameTests(a, b);
  }

  lemma {:induction false} BitsOf54()
    ensures ByteBits(0x54) == [false, true, false, true, false, true, false, false]
  {
    ByteMasks();
  }

  lemma {:induction false} BitsOf3D()
    ensures ByteBits(0x3D) == [false, false, true, true, true, true, false, true]
  {
    ByteMasks();
  }

  lemma {:induction false} SyncBitsAre()
    ensures SyncBits() == ByteBits(0x54) + ByteBits(0x3D) + ByteBits(0x54)
  {
    hide ByteBits;
    BitsConcat([0x54], [0x3D, 0x54]);
    BitsConcat([0x3D], [0x54]);
    assert SYNC_BYTES == [0x54] + ([0x3D] + [0x54]);
    assert Bits([]) == [];
    assert Bits([0x54]) == ByteBits(0x54) && Bits([0x3D]) == ByteBits(0x3D);
  }

  lemma {:induction false} SyncTests()
    ensures Test(C_SYNC, 0x800000) == false && Test(C_SYNC, 0x400000) == true && Test(C_SYNC, 0x200000) == false
    ensures Test(C_SYNC, 0x100000) == true && Test(C_SYNC, 0x80000) == false && Test(C_SYNC, 0x40000) == true
    ensures Test(C_SYNC, 0x20000) == false && Test(C_SYNC, 0x10000) == false
    ensures Test(C_SYNC, 0x8000) == false && Test(C_SYNC, 0x4000) == false && Test(C_SYNC, 0x2000) == true
    ensures Test(C_SYNC, 0x1000) == true && Test(C_SYNC, 0x800) == true && Test(C_SYNC, 0x400) == true
    ensures Test(C_SYNC, 0x200) == false && Test(C_SYNC, 0x100) == true
    ensures Test(C_SYNC, 0x80) == false && Test(C_SYNC, 0x40) == true && Test(C_SYNC, 0x20) == false
    ensures Test(C_SYNC, 0x10) == true && Test(C_SYNC, 0x8) == false && Test(C_SYNC, 0x4) == true
    ensures Test(C_SYNC, 0x2) == false && Test(C_SYNC, 0x1) == false
  {
  }

  lemma {:induction false} SyncAccBits()
    ensures AccBits(C_SYNC) == SyncBits()
  {
    hide Test, ByteBits, Mask, SyncBits;
    SyncBitsAre();
    BitsOf54();
    BitsOf3D();
    Masks();
    SyncTests();
    var a := AccBits(C_SYNC);
    assert a[..8] == ByteBits(0x54);
    assert a[8..16] == ByteBits(0x3D);
    assert a[16..] == ByteBits(0x54);
    assert a == a[..8] + a[8..16] + a[16..];
  }

  /** The rolling comparison finds exactly the positions preceded by the sync word. */
  lemma {:induction false} RollFindsSync(bits: seq<bool>)
    requires |bits| >= 24
    ensures Roll(bits) == C_SYNC <==> bits[|bits| - 24..] == SyncBits()
  {
    hide Roll, Test, Mask, SyncBits, Narrow;
    var tail := bits[|bits| - 24..];
    forall k | 0 <= k < 24 ensures AccBits(Roll(bits))[k] == tail[k] {
      RollHolds(bits, 23 - k);
    }
    assert AccBits(Roll(bits)) == tail;
    SyncAccBits();
    RollNarrow(bits);
    SyncNarrow();
    if tail == SyncBits() {
      AccBitsInjective(Roll(bits), C_SYNC);
    }
  }

  lemma {:induction false} SyncNarrow()
    ensures Narrow(C_SYNC)
  {
  }
}
