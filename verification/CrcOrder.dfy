/** Powers of x modulo the generator, and the errors they decide: two flipped bits go unnoticed
    exactly at distances divisible by the order of x, which is 151 (src/wmbus/crc.rs). */
module PowersOfX {
  import opened Bytes
  import opened Casts
  import opened WmbusCrc
  import opened ErrorDetection

  /** The order of x modulo the generator, a prime. */
  const ORDER := 151

  /** `r` times x^n. */
  function Times(r: seq<bool>, n: nat): (p: seq<bool>)
    requires |r| == 16
    ensures |p| == 16
  {
    Remainder(r, Zeros(n))
  }

  /** The polynomial 1. */
  function Unit(): (r: seq<bool>)
    ensures |r| == 16
  {
    Zeros(15) + [true]
  }

  lemma {:induction false} TimesSum(r: seq<bool>, a: nat, b: nat)
    requires |r| == 16
    ensures Times(Times(r, a), b) == Times(r, a + b)
  {
    hide Remainder;
    RemainderConcat(r, Zeros(a), Zeros(b));
    assert Zeros(a) + Zeros(b) == Zeros(a + b);
  }

  lemma {:induction false} TimesDiff(r: seq<bool>, s: seq<bool>, n: nat)
    requires |r| == |s| == 16
    ensures Times(Diff(r, s), n) == Diff(Times(r, n), Times(s, n))
  {
    hide Remainder;
    RemainderLinear(r, s, Zeros(n), Zeros(n));
    assert Diff(Zeros(n), Zeros(n)) == Zeros(n);
  }

  lemma {:induction false} TimesNothing(r: seq<bool>)
    requires |r| == 16
    ensures Times(r, 0) == r
  {
    assert Zeros(0) == [];
  }

  lemma {:induction false} DiffZero(r: seq<bool>, s: seq<bool>)
    requires |r| == |s|
    ensures Diff(r, s) == Zeros(|r|) <==> r == s
  {
    if Diff(r, s) == Zeros(|r|) {
      forall k | 0 <= k < |r| ensures r[k] == s[k] {
        assert !Diff(r, s)[k];
      }
    }
  }

  // ---------------------------------------------------------------- the order of x

  /** Seven and eight shifts, one by one. */
  function SevenSteps(w: bv16): bv16 {
    Shift1(Shift1(Shift1(Shift1(Shift1(Shift1(Shift1(w)))))))
  }

  lemma {:induction false} Steps(w: bv16)
    ensures Shift(w, 7) == SevenSteps(w)
    ensures Shift(w, 8) == Shift1(SevenSteps(w))
  {
    hide Shift1;
    var w2 := Shift1(Shift1(w));
    var w4 := Shift1(Shift1(w2));
    assert Shift(w, 8) == Shift(w2, 6) == Shift(w4, 4);
    assert Shift(w, 7) == Shift(w2, 5) == Shift(w4, 3);
  }

  lemma {:induction false} LowPowers()
    ensures Shift(0x0001, 8) == 0x0100 && Shift(0x0100, 8) == 0x3D65 && Shift(0x3D65, 8) == 0xF4D8
    ensures Shift(0xF4D8, 8) == 0xE5AA && Shift(0xE5AA, 8) == 0x3B30 && Shift(0x3B30, 8) == 0x2E86
  {
    hide Shift;
    Steps(0x0001);
    Steps(0x0100);
    Steps(0x3D65);
    Steps(0xF4D8);
    Steps(0xE5AA);
    Steps(0x3B30);
  }

  lemma {:induction false} MiddlePowers()
    ensures Shift(0x2E86, 8) == 0xC188 && Shift(0xC188, 8) == 0xF23F && Shift(0xF23F, 8) == 0x8DF4
    ensures Shift(0x8DF4, 8) == 0x90D0 && Shift(0x90D0, 8) == 0x3B93 && Shift(0x3B93, 8) == 0x8D86
  {
    hide Shift;
    Steps(0x2E86);
    Steps(0xC188);
    Steps(0xF23F);
    Steps(0x8DF4);
    Steps(0x90D0);
    Steps(0x3B93);
  }

  lemma {:induction false} HighPowers()
    ensures Shift(0x8D86, 8) == 0xE2D0 && Shift(0xE2D0, 8) == 0xF30B && Shift(0xF30B, 8) == 0x8491
    ensures Shift(0x8491, 8) == 0x1EF8 && Shift(0x1EF8, 8) == 0x30EC && Shift(0x30EC, 8) == 0x6364
    ensures Shift(0x6364, 7) == 0x0001
  {
    hide Shift;
    Steps(0x8D86);
    Steps(0xE2D0);
    Steps(0xF30B);
    Steps(0x8491);
    Steps(0x1EF8);
    Steps(0x30EC);
    Steps(0x6364);
  }

  lemma {:induction false} ShiftSum(w: bv16, a: nat, b: nat)
    ensures Shift(Shift(w, a), b) == Shift(w, a + b)
    decreases a
  {
    hide Shift1;
    if a > 0 {
      ShiftSum(Shift1(w), a - 1, b);
    }
  }

  /** x^151 leaves the remainder 1. */
  lemma {:induction false} PowerOfOrder()
    ensures Shift(0x0001, ORDER) == 0x0001
  {
    hide Shift;
    LowPowers();
    MiddlePowers();
    HighPowers();
    ShiftSum(0x0001, 8, 8);
    ShiftSum(0x0001, 16, 8);
    ShiftSum(0x0001, 24, 8);
    ShiftSum(0x0001, 32, 8);
    ShiftSum(0x0001, 40, 8);
    ShiftSum(0x0001, 48, 8);
    ShiftSum(0x0001, 56, 8);
    ShiftSum(0x0001, 64, 8);
    ShiftSum(0x0001, 72, 8);
    ShiftSum(0x0001, 80, 8);
    ShiftSum(0x0001, 88, 8);
    ShiftSum(0x0001, 96, 8);
    ShiftSum(0x0001, 104, 8);
    ShiftSum(0x0001, 112, 8);
    ShiftSum(0x0001, 120, 8);
    ShiftSum(0x0001, 128, 8);
    ShiftSum(0x0001, 136, 8);
    ShiftSum(0x0001, 144, 7);
  }

  lemma {:induction false} UnitWord()
    ensures Coeffs(0x0001) == Unit()
  {
    Masks();
  }

  lemma {:induction false} UnitTimesOrder()
    ensures Times(Unit(), ORDER) == Unit()
  {
    hide Remainder, Shift, Coeffs;
    UnitWord();
    PowerOfOrder();
    CoeffsShift(0x0001, ORDER);
  }

  /** x^151 is 1 for every multiple of it: of any message. */
  lemma {:induction false} MessageTimesOrder(bits: seq<bool>)
    ensures Remainder(Zeros(16), bits + Zeros(ORDER)) == Remainder(Zeros(16), bits)
    decreases |bits|
  {
    hide Remainder;
    var z := Zeros(16);
    if bits == [] {
      assert bits + Zeros(ORDER) == Zeros(ORDER);
      ZerosKeepNonzero(z, ORDER);
      TimesNothing(z);
      assert bits == Zeros(0);
    } else {
      MessageSplit(bits, 0);
      MessageSplit(bits, ORDER);
      assert bits + Zeros(0) == bits && bits[1..] + Zeros(0) == bits[1..];
      assert Lead(bits[0], |bits| - 1) + Zeros(0) == Lead(bits[0], |bits| - 1);
      LeadTimesOrder(bits[0], |bits| - 1);
      MessageTimesOrder(bits[1..]);
    }
  }

  /** The leading term of a message. */
  function Lead(bit: bool, n: nat): (lead: seq<bool>)
    ensures |lead| == n + 1
  {
    [bit] + Zeros(n)
  }

  lemma {:induction false} MessageSplit(bits: seq<bool>, n: nat)
    requires bits != []
    ensures Remainder(Zeros(16), bits + Zeros(n))
         == Diff(Remainder(Zeros(16), Lead(bits[0], |bits| - 1) + Zeros(n)), Remainder(Zeros(16), bits[1..] + Zeros(n)))
  {
    hide Remainder;
    var z, rest := Zeros(16), bits[1..] + Zeros(n);
    var lead := Lead(bits[0], |bits| - 1) + Zeros(n);
    assert bits + Zeros(n) == Diff(lead, Zeros(1) + rest);
    assert Diff(z, z) == z;
    RemainderLinear(z, z, lead, Zeros(1) + rest);
    LeadingZeros(1, rest);
  }

  lemma {:induction false} LeadTimesOrder(bit: bool, n: nat)
    ensures Remainder(Zeros(16), Lead(bit, n) + Zeros(ORDER)) == Remainder(Zeros(16), Lead(bit, n))
  {
    hide Remainder;
    var z := Zeros(16);
    if bit {
      PowerIs(n);
      PowerIs(n + ORDER);
      assert Lead(bit, n) + Zeros(ORDER) == [true] + Zeros(n + ORDER);
      UnitTimesOrder();
      TimesSum(Unit(), ORDER, n);
    } else {
      assert Lead(bit, n) == Zeros(n + 1);
      assert Zeros(n + 1) + Zeros(ORDER) == Zeros(n + 1 + ORDER);
      ZerosKeepNonzero(z, n + 1);
      ZerosKeepNonzero(z, n + 1 + ORDER);
    }
  }

  /** The remainder of x^n. */
  lemma {:induction false} PowerIs(n: nat)
    ensures Remainder(Zeros(16), [true] + Zeros(n)) == Times(Unit(), n)
  {
    hide Remainder;
    RemainderConcat(Zeros(16), [true], Zeros(n));
    ShortIsRemainder([true]);
  }

  lemma {:induction false} TimesOrder(r: seq<bool>)
    requires |r| == 16
    ensures Times(r, ORDER) == r
  {
    hide Remainder;
    MessageTimesOrder(r);
    ShortIsRemainder(r);
    assert Zeros(0) + r == r;
    RemainderConcat(Zeros(16), r, Zeros(ORDER));
  }

  lemma {:induction false} TimesMultiple(r: seq<bool>, k: nat)
    requires |r| == 16
    ensures Times(r, ORDER * k) == r
  {
    hide Times;
    if k == 0 {
      TimesNothing(r);
    } else {
      TimesMultiple(r, k - 1);
      TimesSum(r, ORDER * (k - 1), ORDER);
      TimesOrder(r);
    }
  }

  /** 151 is prime. */
  lemma {:induction false} NoDivisor(k: nat, q: nat)
    requires 2 <= k <= 150
    ensures q * k != ORDER
  {
    if k <= 12 {
      if k == 2 {} else if k == 3 {} else if k == 4 {} else if k == 5 {} else if k == 6 {} else if k == 7 {}
      else if k == 8 {} else if k == 9 {} else if k == 10 {} else if k == 11 {} else { assert k == 12; }
    } else if q <= 11 {
      if q == 0 {} else if q == 1 {} else if q == 2 {} else if q == 3 {} else if q == 4 {} else if q == 5 {}
      else if q == 6 {} else if q == 7 {} else if q == 8 {} else if q == 9 {} else if q == 10 {}
      else { assert q == 11; }
    } else {
      Larger(q, k);
    }
  }

  lemma {:induction false} Larger(q: nat, k: nat)
    requires q >= 12 && k >= 13
    ensures q * k >= 156
  {
  }

  /** No smaller power of x is 1. */
  lemma {:induction false} SmallPowerIsNotUnit(k: nat)
    requires 1 <= k <= 150
    ensures Times(Unit(), k) != Unit()
    decreases k
  {
    hide Times, Unit;
    if k == 1 {
      FirstPower();
    } else if Times(Unit(), k) == Unit() {
      var q, m := ORDER / k, ORDER % k;
      NoDivisor(k, q);
      UnitTimesMultiple(k, q);
      UnitTimesOrder();
      TimesSum(Unit(), q * k, m);
      SmallPowerIsNotUnit(m);
    }
  }

  lemma {:induction false} FirstPower()
    ensures Times(Unit(), 1) != Unit()
  {
    PowerIs(1);
    assert [true] + Zeros(1) == [true, false];
    ShortIsRemainder([true, false]);
    assert (Zeros(14) + [true, false])[15] == false;
  }

  lemma {:induction false} UnitTimesMultiple(k: nat, q: nat)
    requires Times(Unit(), k) == Unit()
    ensures Times(Unit(), q * k) == Unit()
  {
    hide Times, Unit;
    if q == 0 {
      TimesNothing(Unit());
    } else {
      UnitTimesMultiple(k, q - 1);
      TimesSum(Unit(), (q - 1) * k, k);
    }
  }

  /** x^n leaves the remainder 1 exactly for the multiples of 151. */
  lemma {:induction false} UnitPowerIff(n: nat)
    ensures Times(Unit(), n) == Unit() <==> n % ORDER == 0
  {
    hide Times, Unit;
    var q, m := n / ORDER, n % ORDER;
    TimesMultiple(Unit(), q);
    TimesSum(Unit(), ORDER * q, m);
    TimesNothing(Unit());
    if m > 0 {
      SmallPowerIsNotUnit(m);
    }
  }

  // ---------------------------------------------------------------- two flipped bits

  /** The two messages differ in exactly the bits `i` and `j`. */
  ghost predicate DifferInTwo(w: seq<Byte>, w': seq<Byte>, i: nat, j: nat) {
    && |w| == |w'| && i < j < 8 * |w|
    && forall k | 0 <= k < 8 * |w| :: Bits(w)[k] != Bits(w')[k] <==> k == i || k == j
  }

  lemma {:induction false} TwoFlipsRemainder(lo: nat, n: nat, hi: nat)
    requires n >= 1
    ensures Remainder(Zeros(16), Zeros(lo) + ([true] + Zeros(n - 1) + [true]) + Zeros(hi)) == Zeros(16)
       <==> n % ORDER == 0
  {
    hide Remainder;
    var flips, z := [true] + Zeros(n - 1) + [true], Zeros(16);
    RemainderConcat(z, Zeros(lo) + flips, Zeros(hi));
    LeadingZeros(lo, flips);
    ZerosKeepNonzero(Remainder(z, flips), hi);
    var unit := Zeros(n) + [true];
    assert flips == Diff([true] + Zeros(n), unit);
    assert Diff(z, z) == z;
    RemainderLinear(z, z, [true] + Zeros(n), unit);
    PowerIs(n);
    LeadingZeros(n, [true]);
    ShortIsRemainder([true]);
    DiffZero(Times(Unit(), n), Unit());
    UnitPowerIff(n);
  }

  /** Two flipped bits in an accepted message go unnoticed if and only if their distance is a
      multiple of 151. */
  lemma {:induction false} TwoFlipsUndetectedIff(w: seq<Byte>, w': seq<Byte>, i: nat, j: nat)
    requires VerifyCrcBe(w) && DifferInTwo(w, w', i, j)
    ensures VerifyCrcBe(w') <==> (j - i) % ORDER == 0
  {
    hide Remainder, VerifyCrcBe, Bits;
    var d := Diff(Bits(w), Bits(w'));
    var hi := 8 * |w| - j - 1;
    UndetectedIffDivisible(w, w');
    TwoFlipsRemainder(i, j - i, hi);
    assert d == Zeros(i) + ([true] + Zeros(j - i - 1) + [true]) + Zeros(hi);
  }

  // ---------------------------------------------------------------- few flipped bits

  /** Number of set bits. */
  function Flips(bits: seq<bool>): nat {
    if bits == [] then 0 else (if bits[0] then 1 else 0) + Flips(bits[1..])
  }

  lemma {:induction false} OddFlips(bits: seq<bool>)
    ensures Odd(bits) <==> Flips(bits) % 2 == 1
  {
    if bits != [] {
      OddFlips(bits[1..]);
    }
  }

  lemma {:induction false} NoFlips(bits: seq<bool>, k: nat)
    requires Flips(bits) == 0 && k < |bits|
    ensures !bits[k]
  {
    if k > 0 {
      NoFlips(bits[1..], k - 1);
    }
  }

  lemma {:induction false} OneFlip(bits: seq<bool>) returns (i: nat)
    requires Flips(bits) == 1
    ensures i < |bits| && forall k | 0 <= k < |bits| :: bits[k] <==> k == i
  {
    if bits[0] {
      i := 0;
      forall k | 1 <= k < |bits| ensures !bits[k] {
        NoFlips(bits[1..], k - 1);
      }
    } else {
      var later := OneFlip(bits[1..]);
      i := later + 1;
      forall k | 1 <= k < |bits| ensures bits[k] <==> k == i {
        assert bits[k] == bits[1..][k - 1];
      }
    }
  }

  lemma {:induction false} TwoFlips(bits: seq<bool>) returns (i: nat, j: nat)
    requires Flips(bits) == 2
    ensures i < j < |bits| && forall k | 0 <= k < |bits| :: bits[k] <==> k == i || k == j
  {
    if bits[0] {
      var later := OneFlip(bits[1..]);
      i, j := 0, later + 1;
    } else {
      var i', j' := TwoFlips(bits[1..]);
      i, j := i' + 1, j' + 1;
    }
    forall k | 1 <= k < |bits| ensures bits[k] <==> k == i || k == j {
      assert bits[k] == bits[1..][k - 1];
    }
  }

  /** In a message of at most 18 bytes, its CRC included, any one, two or three flipped bits are
      noticed: every block of a frame is that short. */
  lemma {:induction false} FewFlipsDetected(w: seq<Byte>, w': seq<Byte>)
    requires VerifyCrcBe(w) && |w'| == |w| <= 18
    requires 1 <= Flips(Diff(Bits(w), Bits(w'))) <= 3
    ensures !VerifyCrcBe(w')
  {
    hide VerifyCrcBe, Bits, Odd;
    var d := Diff(Bits(w), Bits(w'));
    OddFlips(d);
    if Flips(d) == 2 {
      var i, j := TwoFlips(d);
      TwoFlipsUndetectedIff(w, w', i, j);
    } else {
      OddErrorsDetected(w, w');
    }
  }
}
