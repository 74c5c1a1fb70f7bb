/** What the CRC detects, proved about long division: exactly which corruptions of a message
    with its CRC go unnoticed (src/wmbus/crc.rs). */
module ErrorDetection {
  import opened Bytes
  import opened Casts
  import opened WmbusCrc

  // ---------------------------------------------------------------- accepted messages

  lemma {:induction false} CoeffsNot(w: bv16)
    ensures Coeffs(!w) == Diff(Coeffs(w), Ones(16))
  {
    assert !w == Xor(w, 0xFFFF);
    CoeffsXor(w, 0xFFFF);
    Masks();
    assert forall k | 0 <= k < 16 :: HasBit(0xFFFF, Mask(k));
    assert Coeffs(0xFFFF) == Ones(16);
  }

  lemma {:induction false} CoeffsReadCrcBe(stored: seq<Byte>)
    requires |stored| == 2
    ensures Coeffs(ReadCrcBe(stored)) == Bits(stored)
  {
    assert stored == [stored[0]] + [stored[1]];
    BitsConcat([stored[0]], [stored[1]]);
    CoeffsJoin(stored[0], stored[1]);
  }

  /** The remainder of a message with its stored CRC is the register plus that CRC. */
  lemma {:induction false} StoredRemainder(data: seq<Byte>, stored: seq<Byte>)
    requires |stored| == 2
    ensures Remainder(Zeros(16), Bits(data + stored))
         == Diff(Coeffs(Register(data)), Coeffs(ReadCrcBe(stored)))
  {
    BitsConcat(data, stored);
    CoeffsReadCrcBe(stored);
    SplitTail(Bits(data), Bits(stored));
    RegisterIsRemainder(data);
    ShortIsRemainder(Bits(stored));
    assert Zeros(0) + Bits(stored) == Bits(stored);
  }

  /** A message with its CRC is accepted exactly when, read as one polynomial, it leaves the
      all-ones remainder. */
  lemma {:induction false} VerifyIsRemainder(w: seq<Byte>)
    requires |w| >= 2
    ensures VerifyCrcBe(w) <==> Remainder(Zeros(16), Bits(w)) == Ones(16)
  {
    var data, stored := w[..|w| - 2], w[|w| - 2..];
    assert w == data + stored;
    StoredRemainder(data, stored);
    CoeffsNot(Register(data));
    if Coeffs(Crc(data)) == Coeffs(ReadCrcBe(stored)) {
      CoeffsInjective(Crc(data), ReadCrcBe(stored));
    }
  }

  /** Exactly which corruptions of an accepted message go unnoticed: those whose difference
      is divisible by the generator. */
  lemma {:induction false} UndetectedIffDivisible(w: seq<Byte>, w': seq<Byte>)
    requires VerifyCrcBe(w) && |w'| == |w|
    ensures VerifyCrcBe(w') <==> Remainder(Zeros(16), Diff(Bits(w), Bits(w'))) == Zeros(16)
  {
    var z16 := Zeros(16);
    VerifyIsRemainder(w);
    VerifyIsRemainder(w');
    assert Diff(z16, z16) == z16;
    RemainderLinear(z16, z16, Bits(w), Bits(w'));
    var r, r' := Remainder(z16, Bits(w)), Remainder(z16, Bits(w'));
    if Diff(r, r') == z16 {
      forall k | 0 <= k < 16
        ensures r[k] == r'[k]
      {
        assert Diff(r, r')[k] == z16[k];
      }
    }
  }

  /** The two messages agree outside the 16 bits from `p` on, at any bit offset. */
  ghost predicate DifferOnlyInBurst(w: seq<Byte>, w': seq<Byte>, p: int) {
    && |w| == |w'|
    && forall i | 0 <= i < 8 * |w| && !(p <= i < p + 16) :: Bits(w)[i] == Bits(w')[i]
  }

  lemma {:induction false} LeadingZeros(n: nat, x: seq<bool>)
    ensures Remainder(Zeros(16), Zeros(n) + x) == Remainder(Zeros(16), x)
  {
    RemainderConcat(Zeros(16), Zeros(n), x);
    ZerosKeepNonzero(Zeros(16), n);
  }

  lemma {:induction false} BurstRemainder(p: nat, burst: seq<bool>, s: nat)
    requires |burst| <= 16
    ensures Remainder(Zeros(16), Zeros(p) + burst + Zeros(s)) == Zeros(16)
       <==> burst == Zeros(|burst|)
  {
    var r := Zeros(16 - |burst|) + burst;
    RemainderConcat(Zeros(16), Zeros(p) + burst, Zeros(s));
    LeadingZeros(p, burst);
    ShortIsRemainder(burst);
    ZerosKeepNonzero(r, s);
    assert r == Zeros(16) ==> burst == r[16 - |burst|..] == Zeros(|burst|);
    assert burst == Zeros(|burst|) ==> r == Zeros(16);
  }

  /** A difference confined to 16 places is a burst between two runs of zeros. */
  lemma {:induction false} BurstShape(x: seq<bool>, y: seq<bool>, p: int) returns (lo: nat, burst: seq<bool>, hi: nat)
    requires |x| == |y|
    requires forall i | 0 <= i < |x| && !(p <= i < p + 16) :: x[i] == y[i]
    ensures |burst| <= 16
    ensures Diff(x, y) == Zeros(lo) + burst + Zeros(hi)
  {
    var n, e := |x|, Diff(x, y);
    lo := if p < 0 then 0 else if p > n then n else p;
    var end := if p + 16 < lo then lo else if p + 16 > n then n else p + 16;
    burst, hi := e[lo..end], n - end;
    assert e[..lo] == Zeros(lo);
    assert e[end..] == Zeros(hi);
    assert e == e[..lo] + e[lo..end] + e[end..];
  }

  lemma {:induction false} AllZeros(a: nat, b: nat, c: nat)
    ensures Zeros(a) + Zeros(b) + Zeros(c) == Zeros(a + b + c)
  {
  }

  /** Every corruption confined to 16 consecutive bits is rejected, at any bit offset, across
      the boundary between data and CRC, for messages of any length. */
  lemma {:induction false} BurstDetected(w: seq<Byte>, w': seq<Byte>, p: int)
    requires VerifyCrcBe(w)
    requires w' != w && DifferOnlyInBurst(w, w', p)
    ensures !VerifyCrcBe(w')
  {
    var lo, burst, hi := BurstShape(Bits(w), Bits(w'), p);
    BurstRemainder(lo, burst, hi);
    UndetectedIffDivisible(w, w');
    if burst == Zeros(|burst|) {
      AllZeros(lo, |burst|, hi);
      BitsInjective(w, w');
    }
  }

  /** Seventeen coefficients starting with x^16 leave no remainder only for the generator. */
  lemma {:induction false} SeventeenBits(rest: seq<bool>)
    requires |rest| == 16
    ensures Remainder(Zeros(16), [true] + rest) == Zeros(16) <==> rest == Coeffs(POLY)
  {
    var head, last := [true] + rest[..15], rest[15];
    assert [true] + rest == head + [last];
    RemainderConcat(Zeros(16), head, [last]);
    ShortIsRemainder(head);
    assert Zeros(0) + head == head;
    assert Remainder(head, [last]) == DivStep(head, last);
    assert head[1..] + [last] == rest;
    assert DivStep(head, last) == Diff(rest, Coeffs(POLY));
  }

  /** Sixteen is sharp, and exactly one pattern escapes at seventeen: a burst whose first bit
      flips and that spans one more is missed if and only if it is the generator itself. */
  lemma {:induction false} SeventeenBitBurst(w: seq<Byte>, w': seq<Byte>, p: nat, rest: seq<bool>, s: nat)
    requires VerifyCrcBe(w) && |w'| == |w| && |rest| == 16
    requires Diff(Bits(w), Bits(w')) == Zeros(p) + ([true] + rest) + Zeros(s)
    ensures VerifyCrcBe(w') <==> rest == Coeffs(POLY)
  {
    var burst := [true] + rest;
    UndetectedIffDivisible(w, w');
    RemainderConcat(Zeros(16), Zeros(p) + burst, Zeros(s));
    LeadingZeros(p, burst);
    ZerosKeepNonzero(Remainder(Zeros(16), burst), s);
    SeventeenBits(rest);
  }

  // ---------------------------------------------------------------- odd errors

  /** Whether an odd number of the bits is set. */
  function Odd(bits: seq<bool>): bool {
    if bits == [] then false else bits[0] != Odd(bits[1..])
  }

  lemma {:induction false} OddConcat(x: seq<bool>, y: seq<bool>)
    ensures Odd(x + y) <==> Odd(x) != Odd(y)
  {
    if x == [] {
      assert x + y == y;
    } else {
      assert (x + y)[1..] == x[1..] + y;
      OddConcat(x[1..], y);
    }
  }

  lemma {:induction false} OddDiff(x: seq<bool>, y: seq<bool>)
    requires |x| == |y|
    ensures Odd(Diff(x, y)) <==> Odd(x) != Odd(y)
  {
    if x != [] {
      assert Diff(x, y)[1..] == Diff(x[1..], y[1..]);
      OddDiff(x[1..], y[1..]);
    }
  }

  /** Apart from x^16 the generator has nine terms. */
  lemma {:induction false} GeneratorIsOdd()
    ensures Odd(Coeffs(POLY))
  {
    OddOfFour(false, false, true, true);
    OddOfFour(true, true, false, true);
    OddOfFour(false, true, true, false);
    OddOfFour(false, true, false, true);
    var hi := [false, false, true, true] + [true, true, false, true];
    var lo := [false, true, true, false] + [false, true, false, true];
    OddConcat([false, false, true, true], [true, true, false, true]);
    OddConcat([false, true, true, false], [false, true, false, true]);
    OddConcat(hi, lo);
    assert Coeffs(POLY) == hi + lo;
  }

  lemma {:induction false} OddOfFour(a: bool, b: bool, c: bool, d: bool)
    ensures Odd([a, b, c, d]) <==> (a != b) != (c != d)
  {
    var tail: seq<bool> := [];
    assert [a, b, c, d][1..] == [b, c, d] && [b, c, d][1..] == [c, d] && [c, d][1..] == [d];
    assert [d][1..] == tail;
    assert Odd([d]) == d && Odd([c, d]) == (c != d);
  }

  /** x + 1 divides the generator: a division step keeps the parity. */
  lemma {:induction false} DivStepParity(rem: seq<bool>, bit: bool)
    requires |rem| == 16
    ensures Odd(DivStep(rem, bit)) <==> Odd(rem) != bit
  {
    var down := rem[1..] + [bit];
    OddConcat(rem[1..], [bit]);
    assert Odd([bit]) == bit;
    GeneratorIsOdd();
    OddDiff(down, Coeffs(POLY));
  }

  lemma {:induction false} RemainderParity(rem: seq<bool>, bits: seq<bool>)
    requires |rem| == 16
    ensures Odd(Remainder(rem, bits)) <==> Odd(rem) != Odd(bits)
    decreases |bits|
  {
    if bits != [] {
      DivStepParity(rem, bits[0]);
      RemainderParity(DivStep(rem, bits[0]), bits[1..]);
    }
  }

  lemma {:induction false} ZerosAreEven(n: nat)
    ensures !Odd(Zeros(n))
  {
    if n > 0 {
      assert Zeros(n)[1..] == Zeros(n - 1);
      ZerosAreEven(n - 1);
    }
  }

  /** Every corruption that flips an odd number of bits is rejected, wherever they are. */
  lemma {:induction false} OddErrorsDetected(w: seq<Byte>, w': seq<Byte>)
    requires VerifyCrcBe(w) && |w'| == |w|
    requires Odd(Diff(Bits(w), Bits(w')))
    ensures !VerifyCrcBe(w')
  {
    UndetectedIffDivisible(w, w');
    ZerosAreEven(16);
    RemainderParity(Zeros(16), Diff(Bits(w), Bits(w')));
  }

  /** Appending the CRC big-endian makes any message verify. */
  lemma {:induction false} AppendedCrcVerifies(data: seq<Byte>)
    ensures VerifyCrcBe(data + CrcBytes(Crc(data)))
  {
    var w := data + CrcBytes(Crc(data));
    assert w[..|w| - 2] == data && w[|w| - 2..] == CrcBytes(Crc(data));
    JoinHighLow(Crc(data));
  }
}
