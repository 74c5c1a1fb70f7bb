/** Conversions between bytes and the numbers they stand for (`as u8`, `as usize`). */
module Casts {
  type Byte = bv8

  /** `u32`. */
  type U32 = n: nat | n < 0x1_0000_0000

  /** `b as usize`. */
  function Number(b: Byte): (n: nat)
    ensures n < 256
  {
    b as int
  }

  function Successor(b: Byte): Byte { b + 1 }

  /** `n as u8`: counting up from zero, wrapping around at 256. */
  function Truncate(n: nat): Byte {
    if n == 0 then 0 else Successor(Truncate(n - 1))
  }

  lemma {:induction false} NextModulo(n: nat)
    ensures (n + 1) % 256 == if n % 256 == 255 then 0 else n % 256 + 1
  {
  }

  /** `as u8` keeps a number modulo 256. */
  lemma {:induction false} TruncateIsModulo(n: nat)
    ensures Number(Truncate(n)) == n % 256
  {
    if n == 0 {
    } else {
      TruncateIsModulo(n - 1);
      NextModulo(n - 1);
    }
  }

  lemma {:induction false} SameNumber(a: Byte, b: Byte)
    requires Number(a) == Number(b)
    ensures a == b
  {
  }

  lemma {:induction false} TruncateSmall(n: nat)
    requires n < 256
    ensures Number(Truncate(n)) == n
  {
    if n == 0 {
    } else {
      TruncateSmall(n - 1);
    }
  }

  lemma {:induction false} TruncateOf(n: nat, b: Byte)
    requires n == Number(b)
    ensures Truncate(n) == b
  {
    TruncateSmall(n);
    SameNumber(Truncate(n), b);
  }

  lemma {:induction false} TruncateNumber(b: Byte)
    ensures Truncate(Number(b)) == b
  {
    TruncateOf(Number(b), b);
  }
}

/** Bytes as the source's `u8`, and their bits in transmission order (most significant first). */
module Bytes {
  import opened Casts

  /** The mask selecting bit `k` of a byte, counted from the most significant. */
  function ByteMask(k: nat): bv8 {
    if k == 0 then 0x80 else ByteMask(k - 1) >> 1
  }

  predicate Has(b: Byte, mask: bv8) {
    b & mask != 0
  }

  /** The eight bits of a byte, most significant first. */
  function ByteBits(b: Byte): (bits: seq<bool>)
    ensures |bits| == 8
  {
    seq(8, k requires 0 <= k < 8 => Has(b, ByteMask(k)))
  }

  /** The bits of a byte string, in transmission order. */
  function Bits(data: seq<Byte>): (bits: seq<bool>)
    ensures |bits| == 8 * |data|
  {
    if data == [] then [] else ByteBits(data[0]) + Bits(data[1..])
  }

  lemma {:induction false} BitsConcat(a: seq<Byte>, b: seq<Byte>)
    ensures Bits(a + b) == Bits(a) + Bits(b)
  {
    if a == [] {
      assert a + b == b;
    } else {
      assert (a + b)[1..] == a[1..] + b;
      BitsConcat(a[1..], b);
    }
  }

  /** Bit `i` of a byte string is bit `i % 8` of byte `i / 8`. */
  lemma {:induction false} BitsAt(data: seq<Byte>, i: nat)
    requires i < 8 * |data|
    ensures Bits(data)[i] == ByteBits(data[i / 8])[i % 8]
  {
    if i >= 8 {
      BitsAt(data[1..], i - 8);
      assert (i - 8) / 8 == i / 8 - 1 && (i - 8) % 8 == i % 8;
    }
  }

  lemma {:induction false} ByteMasks()
    ensures ByteMask(0) == 0x80 && ByteMask(1) == 0x40 && ByteMask(2) == 0x20 && ByteMask(3) == 0x10
    ensures ByteMask(4) == 0x08 && ByteMask(5) == 0x04 && ByteMask(6) == 0x02 && ByteMask(7) == 0x01
  {
    assert ByteMask(2) == 0x20;
    assert ByteMask(4) == 0x08;
    assert ByteMask(6) == 0x02;
  }

  lemma {:induction false} SameByte(a: Byte, b: Byte)
    requires Has(a, 0x80) == Has(b, 0x80) && Has(a, 0x40) == Has(b, 0x40)
    requires Has(a, 0x20) == Has(b, 0x20) && Has(a, 0x10) == Has(b, 0x10)
    requires Has(a, 0x08) == Has(b, 0x08) && Has(a, 0x04) == Has(b, 0x04)
    requires Has(a, 0x02) == Has(b, 0x02) && Has(a, 0x01) == Has(b, 0x01)
    ensures a == b
  {
  }

  lemma {:induction false} ByteBitsInjective(a: Byte, b: Byte)
    requires ByteBits(a) == ByteBits(b)
    ensures a == b
  {
    forall k | 0 <= k < 8
      ensures Has(a, ByteMask(k)) == Has(b, ByteMask(k))
    {
      assert ByteBits(a)[k] == ByteBits(b)[k];
    }
    ByteMasks();
    SameByte(a, b);
  }

  /** Different byte strings of one length differ in some bit. */
  lemma {:induction false} BitsInjective(a: seq<Byte>, b: seq<Byte>)
    requires |a| == |b|
    requires Bits(a) == Bits(b)
    ensures a == b
  {
    if a != [] {
      assert ByteBits(a[0]) == Bits(a)[..8] == Bits(b)[..8] == ByteBits(b[0]);
      ByteBitsInjective(a[0], b[0]);
      assert Bits(a[1..]) == Bits(a)[8..] == Bits(b)[8..] == Bits(b[1..]);
      BitsInjective(a[1..], b[1..]);
    }
  }
}
