/** CRC-16/EN-13757, the one checksum behind every wireless path (src/wmbus/crc.rs).

    Three forms, each proved equal to the next: the table-driven loop that runs, the
    bit-serial register it tabulates, and long division of polynomials over GF(2) on
    coefficient lists.

    Word operations sit behind small named functions so that proofs about lists of bits
    do not drag the word arithmetic along. */
module WmbusCrc {
  import opened Bytes
  import opened Casts

  const POLY: bv16 := 0x3D65

  // ---------------------------------------------------------------- words

  function Double(w: bv16): bv16 { w << 1 }

  function Half(w: bv16): bv16 { w >> 1 }

  predicate HasBit(w: bv16, mask: bv16) { w & mask != 0 }

  function Xor(a: bv16, b: bv16): bv16 { a ^ b }

  /** The word with the given high and low bytes, as `u16::from_be_bytes`. */
  function Join(high: Byte, low: Byte): bv16 { ((high as bv16) << 8) | (low as bv16) }

  function High(w: bv16): Byte { (w >> 8) as Byte }

  function Low(w: bv16): Byte { (w & 0xFF) as Byte }

  // ---------------------------------------------------------------- the bit-serial register

  /** One shift of the register, minus the generator when the top bit falls out. */
  function Shift1(reg: bv16): bv16 {
    if HasBit(reg, 0x8000) then Xor(Double(reg), POLY) else Double(reg)
  }

  function Shift(reg: bv16, n: nat): bv16
    decreases n
  {
    if n == 0 then reg else Shift(Shift1(reg), n - 1)
  }

  /** The register after absorbing `data`, byte by byte, into its top half. */
  function Register(data: seq<Byte>): bv16 {
    if data == [] then 0
    else Shift(Xor(Register(data[..|data| - 1]), Join(data[|data| - 1], 0)), 8)
  }

  function Crc(data: seq<Byte>): bv16 {
    !Register(data)
  }

  function ReadCrcBe(bytes: seq<Byte>): bv16
    requires |bytes| >= 2
  {
    Join(bytes[0], bytes[1])
  }

  /** Big-endian wire form of a CRC, as `u16::to_be_bytes`. */
  function CrcBytes(crc: bv16): (bytes: seq<Byte>)
    ensures |bytes| == 2
  {
    [High(crc), Low(crc)]
  }

  predicate VerifyCrcBe(dataWithCrc: seq<Byte>) {
    && |dataWithCrc| >= 2
    && var split := |dataWithCrc| - 2;
       Crc(dataWithCrc[..split]) == ReadCrcBe(dataWithCrc[split..])
  }

  // ---------------------------------------------------------------- long division

  /** The mask selecting coefficient `k` of a word, counted from the most significant. */
  function Mask(k: nat): bv16 {
    if k == 0 then 0x8000 else Half(Mask(k - 1))
  }

  /** A word as the coefficient list of a polynomial of degree at most 15. */
  function Coeffs(w: bv16): (c: seq<bool>)
    ensures |c| == 16
  {
    seq(16, k requires 0 <= k < 16 => HasBit(w, Mask(k)))
  }

  function Zeros(n: nat): (z: seq<bool>)
    ensures |z| == n
  {
    seq(n, _ => false)
  }

  function Ones(n: nat): (z: seq<bool>)
    ensures |z| == n
  {
    seq(n, _ => true)
  }

  /** Coefficient-wise difference (which over GF(2) is also the sum). */
  function Diff(x: seq<bool>, y: seq<bool>): (d: seq<bool>)
    requires |x| == |y|
    ensures |d| == |x|
    ensures forall i | 0 <= i < |d| :: d[i] <==> x[i] != y[i]
  {
    seq(|x|, i requires 0 <= i < |x| => x[i] != y[i])
  }

  /** One step of schoolbook division by x^16 + POLY: bring down the next coefficient and,
      if the x^16 term appears, subtract the divisor. */
  function DivStep(rem: seq<bool>, bit: bool): (r: seq<bool>)
    requires |rem| == 16
    ensures |r| == 16
  {
    var down := rem[1..] + [bit];
    if rem[0] then Diff(down, Coeffs(POLY)) else down
  }

  /** The remainder of the polynomial `rem` followed by `bits`, modulo x^16 + POLY. */
  function Remainder(rem: seq<bool>, bits: seq<bool>): (r: seq<bool>)
    requires |rem| == 16
    ensures |r| == 16
    decreases |bits|
  {
    if bits == [] then rem else Remainder(DivStep(rem, bits[0]), bits[1..])
  }

  lemma {:induction false} RemainderConcat(rem: seq<bool>, x: seq<bool>, y: seq<bool>)
    requires |rem| == 16
    ensures Remainder(rem, x + y) == Remainder(Remainder(rem, x), y)
    decreases |x|
  {
    if x == [] {
      assert x + y == y;
    } else {
      assert (x + y)[1..] == x[1..] + y;
      RemainderConcat(DivStep(rem, x[0]), x[1..], y);
    }
  }

  /** Division is linear over GF(2), in the running remainder and in the message at once. */
  lemma {:induction false} RemainderLinear(a: seq<bool>, b: seq<bool>, x: seq<bool>, y: seq<bool>)
    requires |a| == |b| == 16 && |x| == |y|
    ensures Remainder(Diff(a, b), Diff(x, y)) == Diff(Remainder(a, x), Remainder(b, y))
    decreases |x|
  {
    if x != [] {
      assert DivStep(Diff(a, b), x[0] != y[0]) == Diff(DivStep(a, x[0]), DivStep(b, y[0]));
      assert Diff(x, y)[1..] == Diff(x[1..], y[1..]);
      RemainderLinear(DivStep(a, x[0]), DivStep(b, y[0]), x[1..], y[1..]);
    }
  }

  /** Nothing is subtracted until a coefficient reaches the x^16 place. */
  lemma {:induction false} NothingFallsOut(n: nat, x: seq<bool>, bits: seq<bool>)
    requires n + |x| == 16 && |bits| <= n
    ensures Remainder(Zeros(n) + x, bits) == Zeros(n - |bits|) + x + bits
    decreases |bits|
  {
    var rem := Zeros(n) + x;
    if bits == [] {
      assert rem == rem + bits;
    } else {
      assert rem[1..] == Zeros(n - 1) + x;
      assert DivStep(rem, bits[0]) == Zeros(n - 1) + (x + [bits[0]]);
      NothingFallsOut(n - 1, x + [bits[0]], bits[1..]);
      assert x + [bits[0]] + bits[1..] == x + bits;
      assert Zeros(n - |bits|) + (x + [bits[0]]) + bits[1..] == Zeros(n - |bits|) + x + bits;
    }
  }

  /** x does not divide the generator, so appending zeros never hides a nonzero remainder. */
  lemma {:induction false} ZerosKeepNonzero(rem: seq<bool>, n: nat)
    requires |rem| == 16
    ensures Remainder(rem, Zeros(n)) == Zeros(16) <==> rem == Zeros(16)
    decreases n
  {
    if n > 0 {
      assert Zeros(n)[1..] == Zeros(n - 1);
      DivStepZero(rem);
      ZerosKeepNonzero(DivStep(rem, false), n - 1);
    }
  }

  lemma {:induction false} DivStepZero(rem: seq<bool>)
    requires |rem| == 16
    ensures DivStep(rem, false) == Zeros(16) <==> rem == Zeros(16)
  {
    var r := DivStep(rem, false);
    Masks();
    if rem[0] {
      assert Coeffs(POLY)[15];
      assert r[15];
    } else {
      assert forall i | 0 <= i < 15 :: r[i] == rem[i + 1];
      if r == Zeros(16) {
        forall i | 0 <= i < 16
          ensures rem[i] == Zeros(16)[i]
        {
          assert i > 0 ==> r[i - 1] == rem[i];
        }
      }
    }
  }

  // ---------------------------------------------------------------- words as polynomials

  lemma {:induction false} Masks()
    ensures Mask(0) == 0x8000 && Mask(1) == 0x4000 && Mask(2) == 0x2000 && Mask(3) == 0x1000
    ensures Mask(4) == 0x0800 && Mask(5) == 0x0400 && Mask(6) == 0x0200 && Mask(7) == 0x0100
    ensures Mask(8) == 0x0080 && Mask(9) == 0x0040 && Mask(10) == 0x0020 && Mask(11) == 0x0010
    ensures Mask(12) == 0x0008 && Mask(13) == 0x0004 && Mask(14) == 0x0002 && Mask(15) == 0x0001
  {
    assert Mask(2) == 0x2000;
    assert Mask(4) == 0x0800;
    assert Mask(6) == 0x0200;
    assert Mask(8) == 0x0080;
    assert Mask(10) == 0x0020;
    assert Mask(12) == 0x0008;
    assert Mask(14) == 0x0002;
  }

  lemma {:induction false} MaskIsOneBit(k: nat)
    ensures Mask(k) & (Mask(k) - 1) == 0
  {
    if k > 0 {
      MaskIsOneBit(k - 1);
    }
  }

  lemma {:induction false} CoeffsXor(a: bv16, b: bv16)
    ensures Coeffs(Xor(a, b)) == Diff(Coeffs(a), Coeffs(b))
  {
    forall k | 0 <= k < 16
      ensures Coeffs(Xor(a, b))[k] <==> Coeffs(a)[k] != Coeffs(b)[k]
    {
      MaskIsOneBit(k);
    }
  }

  lemma {:induction false} CoeffsDouble(a: bv16)
    ensures Coeffs(Double(a)) == Coeffs(a)[1..] + [false]
  {
    forall k | 0 <= k < 15
      ensures Coeffs(Double(a))[k] == (Coeffs(a)[1..] + [false])[k]
    {
    }
  }

  lemma {:induction false} CoeffsInjective(a: bv16, b: bv16)
    requires Coeffs(a) == Coeffs(b)
    ensures a == b
  {
    forall k | 0 <= k < 16
      ensures HasBit(a, Mask(k)) == HasBit(b, Mask(k))
    {
      assert Coeffs(a)[k] == Coeffs(b)[k];
    }
    Masks();
  }

  function Widen(b: Byte): bv16 { b as bv16 }

  function Raise(b: Byte): bv16 { (b as bv16) << 8 }

  lemma {:induction false} MaskOfByte(k: nat)
    requires k < 8
    ensures Mask(k) == Raise(ByteMask(k)) && Mask(k + 8) == Widen(ByteMask(k))
  {
    Masks();
    ByteMasks();
  }

  lemma {:induction false} HasBitJoin(high: Byte, low: Byte, m: bv8)
    ensures HasBit(Join(high, low), Raise(m)) <==> Has(high, m)
    ensures HasBit(Join(high, low), Widen(m)) <==> Has(low, m)
  {
  }

  lemma {:induction false} CoeffsJoin(high: Byte, low: Byte)
    ensures Coeffs(Join(high, low)) == ByteBits(high) + ByteBits(low)
  {
    forall k | 0 <= k < 16
      ensures Coeffs(Join(high, low))[k] == (ByteBits(high) + ByteBits(low))[k]
    {
      var j := if k < 8 then k else k - 8;
      MaskOfByte(j);
      HasBitJoin(high, low, ByteMask(j));
    }
  }

  lemma {:induction false} JoinHighLow(w: bv16)
    ensures Join(High(w), Low(w)) == w
  {
  }

  // ---------------------------------------------------------------- the three forms agree

  lemma {:induction false} CoeffsShift1(reg: bv16)
    ensures Coeffs(Shift1(reg)) == DivStep(Coeffs(reg), false)
  {
    CoeffsDouble(reg);
    CoeffsXor(Double(reg), POLY);
  }

  lemma {:induction false} CoeffsShift(reg: bv16, n: nat)
    ensures Coeffs(Shift(reg, n)) == Remainder(Coeffs(reg), Zeros(n))
    decreases n
  {
    if n > 0 {
      CoeffsShift1(reg);
      assert Zeros(n)[1..] == Zeros(n - 1);
      CoeffsShift(Shift1(reg), n - 1);
    }
  }

  lemma {:induction false} ZeroByte()
    ensures ByteBits(0) == Zeros(8) && Coeffs(0) == Zeros(16)
  {
    forall k | 0 <= k < 8
      ensures !Has(0, ByteMask(k))
    {
    }
    CoeffsJoin(0, 0);
  }

  /** Absorbing a byte and dividing by eight more places, on coefficient lists. */
  lemma {:induction false} AbsorbByte(reg: bv16, b: Byte)
    ensures Coeffs(Shift(Xor(reg, Join(b, 0)), 8))
         == Diff(Remainder(Coeffs(reg), Zeros(8)), Remainder(ByteBits(b) + Zeros(8), Zeros(8)))
  {
    var z := Zeros(8);
    ZeroByte();
    CoeffsJoin(b, 0);
    CoeffsXor(reg, Join(b, 0));
    CoeffsShift(Xor(reg, Join(b, 0)), 8);
    RemainderLinear(Coeffs(reg), ByteBits(b) + z, z, z);
    assert Diff(z, z) == z;
  }

  /** The register is the remainder of data(x) * x^16: the bit-serial form is long division. */
  lemma {:induction false} RegisterIsRemainder(data: seq<Byte>)
    ensures Coeffs(Register(data)) == Remainder(Zeros(16), Bits(data) + Zeros(16))
  {
    if data == [] {
      ZeroByte();
      ZerosKeepNonzero(Zeros(16), 16);
      assert Bits(data) + Zeros(16) == Zeros(16);
    } else {
      var front, b := data[..|data| - 1], data[|data| - 1];
      RegisterIsRemainder(front);
      AbsorbByte(Register(front), b);
      assert data == front + [b];
      BitsConcat(front, [b]);
      assert Bits([b]) == ByteBits(b);
      AppendByte(Bits(front), ByteBits(b));
    }
  }

  /** Any message is its front, moved up, plus its tail. */
  lemma {:induction false} SplitTail(front: seq<bool>, tail: seq<bool>)
    ensures Remainder(Zeros(16), front + tail)
         == Diff(Remainder(Zeros(16), front + Zeros(|tail|)), Remainder(Zeros(16), tail))
  {
    var z16, z := Zeros(16), Zeros(|tail|);
    var r := Remainder(z16, front);
    RemainderConcat(z16, front, tail);
    RemainderConcat(z16, front, z);
    assert Diff(r, z16) == r;
    assert Diff(z, tail) == tail;
    RemainderLinear(r, z16, z, tail);
  }

  /** A polynomial of degree at most 15 is its own remainder. */
  lemma {:induction false} ShortIsRemainder(x: seq<bool>)
    requires |x| <= 16
    ensures Remainder(Zeros(16), x) == Zeros(16 - |x|) + x
  {
    if x != [] {
      var z16 := Zeros(16);
      assert DivStep(z16, x[0]) == Zeros(15) + [x[0]];
      NothingFallsOut(15, [x[0]], x[1..]);
      assert Zeros(16 - |x|) + [x[0]] + x[1..] == Zeros(16 - |x|) + x;
    }
  }

  /** The division side of one more byte: the zeros of the shorter message make room for it. */
  lemma {:induction false} AppendByte(front: seq<bool>, last: seq<bool>)
    requires |last| == 8
    ensures Remainder(Zeros(16), front + last + Zeros(16))
         == Diff(Remainder(Remainder(Zeros(16), front + Zeros(16)), Zeros(8)),
                 Remainder(last + Zeros(8), Zeros(8)))
  {
    var z8, z16 := Zeros(8), Zeros(16);
    assert front + last + z16 == front + (last + z16);
    SplitTail(front, last + z16);
    assert front + Zeros(24) == (front + z16) + z8;
    RemainderConcat(z16, front + z16, z8);
    assert last + z16 == (last + z8) + z8;
    RemainderConcat(z16, last + z8, z8);
    ShortIsRemainder(last + z8);
    assert Zeros(0) + (last + z8) == last + z8;
  }

  /** The register holding table index `i` in its top byte. */
  function Seed(i: nat): bv16 { Join(Truncate(i), 0) }

  predicate IsTable(table: seq<bv16>) {
    && |table| == 256
    && forall i | 0 <= i < 256 :: table[i] == Shift(Seed(i), 8)
  }

  method BuildTable() returns (result: seq<bv16>)
    ensures IsTable(result)
  {
    var table := new bv16[256];
    var i := 0;
    while i < 256
      invariant 0 <= i <= 256
      invariant forall j | 0 <= j < i :: table[j] == Shift(Seed(j), 8)
    {
      var crc := Seed(i);
      var bit := 0;
      while bit < 8
        invariant 0 <= bit <= 8
        invariant Shift(crc, 8 - bit) == Shift(Seed(i), 8)
      {
        crc := if HasBit(crc, 0x8000) then Xor(Double(crc), POLY) else Double(crc);
        bit := bit + 1;
      }
      table[i] := crc;
      i := i + 1;
    }
    result := table[..];
  }

  /** The byte that selects the table entry: top byte of the register against the input. */
  function Index(reg: bv16, b: Byte): Byte { High(reg) ^ b }

  lemma {:induction false} IndexBits(reg: bv16, b: Byte)
    ensures ByteBits(Index(reg, b)) == Diff(ByteBits(High(reg)), ByteBits(b))
  {
    CoeffsXor(Join(High(reg), 0), Join(b, 0));
    CoeffsJoin(High(reg), 0);
    CoeffsJoin(b, 0);
    assert Xor(Join(High(reg), 0), Join(b, 0)) == Join(Index(reg, b), 0);
    CoeffsJoin(Index(reg, b), 0);
    assert ByteBits(Index(reg, b)) == Coeffs(Join(Index(reg, b), 0))[..8];
  }

  /** Splitting a whole-byte shift into its top byte, which needs dividing, and its bottom
      byte, which only moves up. */
  lemma {:induction false} ShiftByte(top: seq<bool>, bottom: seq<bool>)
    requires |top| == |bottom| == 8
    ensures Remainder(top + bottom, Zeros(8)) == Diff(bottom + Zeros(8), Remainder(top + Zeros(8), Zeros(8)))
  {
    var z8 := Zeros(8);
    assert Diff(z8 + bottom, top + z8) == top + bottom;
    assert Diff(z8, z8) == z8;
    RemainderLinear(z8 + bottom, top + z8, z8, z8);
    NothingFallsOut(8, bottom, z8);
    assert Zeros(0) + bottom + z8 == bottom + z8;
  }

  lemma {:induction false} AbsorbedBits(reg: bv16, b: Byte)
    ensures Coeffs(Xor(reg, Join(b, 0))) == ByteBits(Index(reg, b)) + ByteBits(Low(reg))
  {
    ZeroByte();
    JoinHighLow(reg);
    CoeffsJoin(High(reg), Low(reg));
    CoeffsJoin(b, 0);
    CoeffsXor(reg, Join(b, 0));
    IndexBits(reg, b);
    DiffConcat(ByteBits(High(reg)), ByteBits(b), ByteBits(Low(reg)), Zeros(8));
    assert Diff(ByteBits(Low(reg)), Zeros(8)) == ByteBits(Low(reg));
  }

  lemma {:induction false} DiffConcat(a: seq<bool>, b: seq<bool>, x: seq<bool>, y: seq<bool>)
    requires |a| == |b| && |x| == |y|
    ensures Diff(a + x, b + y) == Diff(a, b) + Diff(x, y)
  {
  }

  /** One table lookup absorbs one byte. */
  lemma {:induction false} TableStep(reg: bv16, b: Byte)
    ensures Xor(Join(Low(reg), 0), Shift(Join(Index(reg, b), 0), 8))
         == Shift(Xor(reg, Join(b, 0)), 8)
  {
    var idx, low := Index(reg, b), Low(reg);
    AbsorbedBits(reg, b);
    CoeffsShift(Xor(reg, Join(b, 0)), 8);
    ShiftByte(ByteBits(idx), ByteBits(low));
    ZeroByte();
    CoeffsJoin(low, 0);
    CoeffsJoin(idx, 0);
    CoeffsShift(Join(idx, 0), 8);
    CoeffsXor(Join(low, 0), Shift(Join(idx, 0), 8));
    CoeffsInjective(Xor(Join(low, 0), Shift(Join(idx, 0), 8)), Shift(Xor(reg, Join(b, 0)), 8));
  }

  /** The table index as the source computes it, on 16-bit words. */
  function IndexWord(reg: bv16, b: Byte): bv16 { ((reg >> 8) ^ (b as bv16)) & 0xFF }

  function ShiftUp(reg: bv16): bv16 { reg << 8 }

  lemma {:induction false} TableExpressions(reg: bv16, b: Byte)
    ensures IndexWord(reg, b) == Index(reg, b) as bv16
    ensures ShiftUp(reg) == Join(Low(reg), 0)
  {
  }

  /** The loop body: one lookup, one shift, one exclusive or. */
  lemma {:induction false} TableLoopBody(table: seq<bv16>, reg: bv16, b: Byte)
    requires IsTable(table)
    ensures WordNumber(IndexWord(reg, b)) < 256
    ensures Xor(ShiftUp(reg), table[WordNumber(IndexWord(reg, b))]) == Shift(Xor(reg, Join(b, 0)), 8)
  {
    var idx := Index(reg, b);
    TableExpressions(reg, b);
    WidenedNumber(idx);
    TruncateNumber(idx);
    assert table[Number(idx)] == Shift(Seed(Number(idx)), 8);
    TableStep(reg, b);
  }

  function WordNumber(w: bv16): nat { w as int }

  lemma {:induction false} WidenedNumber(b: Byte)
    ensures WordNumber(b as bv16) == Number(b)
  {
  }

  /** The table-driven loop computes the bit-serial CRC. */
  method CalculateWmbusCrc(data: seq<Byte>) returns (result: bv16)
    ensures result == Crc(data)
  {
    var table := BuildTable();
    var crc: bv16 := 0;
    for i := 0 to |data|
      invariant crc == Register(data[..i])
    {
      TableLoopBody(table, crc, data[i]);
      assert data[..i + 1][..i] == data[..i];
      crc := Xor(ShiftUp(crc), table[WordNumber(IndexWord(crc, data[i]))]);
    }
    assert data[..|data|] == data;
    result := !crc;
  }
}
