/** The decimal digits in packed bytes. */
module Digits {
  import opened Casts

  // ---------------------------------------------------------------- halves of a byte

  function Upper(b: Byte): Byte { b >> 4 }

  function Lower(b: Byte): Byte { b & 0x0F }

  function Sum(a: Byte, b: Byte): Byte { a + b }

  function Sixteenfold(b: Byte): Byte { b << 4 }

  predicate IsHalf(b: Byte) { b <= 0x0F }

  lemma {:induction false} SumSuccessor(a: Byte, b: Byte)
    ensures Sum(a, 0) == a && Sum(a, Successor(b)) == Successor(Sum(a, b))
  {
  }

  lemma {:induction false} TruncateSum(m: nat, n: nat)
    ensures Truncate(m + n) == Sum(Truncate(m), Truncate(n))
    decreases n
  {
    hide Sum, Successor;
    if n == 0 {
      SumSuccessor(Truncate(m), 0);
    } else {
      TruncateSum(m, n - 1);
      SumSuccessor(Truncate(m), Truncate(n - 1));
    }
  }

  lemma {:induction false} TruncateSixteenfold(n: nat)
    ensures Truncate(16 * n) == Sixteenfold(Truncate(n))
  {
    hide Sum, Sixteenfold, Successor;
    if n == 0 {
      NothingSixteenfold();
    } else {
      TruncateSixteenfold(n - 1);
      TruncateSum(16 * (n - 1), 16);
      OneMoreSixteen(Truncate(n - 1));
      SixteenIs();
      assert 16 * n == 16 * (n - 1) + 16;
    }
  }

  lemma {:induction false} NothingSixteenfold()
    ensures Sixteenfold(0) == 0
  {
  }

  lemma {:induction false} OneMoreSixteen(b: Byte)
    ensures Sum(Sixteenfold(b), 16) == Sixteenfold(Successor(b))
  {
  }

  lemma {:induction false} SixteenIs()
    ensures Truncate(16) == 16
  {
    SixteenNumber();
    TruncateOf(16, 16);
  }

  lemma {:induction false} SixteenNumber()
    ensures 16 == Number(16)
  {
  }

  lemma {:induction false} HalfIsSmall(n: nat)
    requires n < 16
    ensures IsHalf(Truncate(n))
  {
    TruncateSmall(n);
    SmallIsHalf(Truncate(n));
  }

  lemma {:induction false} SmallIsHalf(b: Byte)
    requires Number(b) < 16
    ensures IsHalf(b)
  {
  }

  lemma {:induction false} HalvesOfSum(x: Byte, y: Byte)
    requires IsHalf(x) && IsHalf(y)
    ensures Upper(Sum(Sixteenfold(x), y)) == x && Lower(Sum(Sixteenfold(x), y)) == y
  {
  }

  /** The halves of a byte are its sixteens and the rest. */
  lemma {:induction false} HalvesAre(b: Byte)
    ensures Upper(b) == Truncate(Number(b) / 16) && Lower(b) == Truncate(Number(b) % 16)
    ensures Number(Upper(b)) == Number(b) / 16 && Number(Lower(b)) == Number(b) % 16
  {
    hide Upper, Lower, Sum, Sixteenfold, Number, IsHalf;
    var h, l := Number(b) / 16, Number(b) % 16;
    TruncateNumber(b);
    TruncateSum(16 * h, l);
    TruncateSixteenfold(h);
    HalfIsSmall(h);
    HalfIsSmall(l);
    HalvesOfSum(Truncate(h), Truncate(l));
    TruncateSmall(h);
    TruncateSmall(l);
  }

  // ---------------------------------------------------------------- decimal digits

  /** The number that decimal digits write, the most significant first. */
  function Written(digits: seq<nat>): nat {
    if digits == [] then 0 else 10 * Written(digits[..|digits| - 1]) + digits[|digits| - 1]
  }

  /** Two digits a byte, the least significant byte first. */
  function DigitsOf(bytes: seq<Byte>): (digits: seq<nat>)
    ensures |digits| == 2 * |bytes|
  {
    if bytes == [] then [] else DigitsOf(bytes[1..]) + [Number(bytes[0]) / 16, Number(bytes[0]) % 16]
  }

  lemma {:induction false} HalvesOfNumber(h: nat, l: nat)
    requires l < 16
    ensures (16 * h + l) / 16 == h && (16 * h + l) % 16 == l
  {
  }

  lemma {:induction false} DigitsOfFour(bytes: seq<Byte>, digits: seq<nat>)
    requires |bytes| == 4 && |digits| == 8
    requires forall i | 0 <= i < 8 :: digits[i] < 16
    requires forall i | 0 <= i < 4 :: Number(bytes[i]) == 16 * digits[6 - 2 * i] + digits[7 - 2 * i]
    ensures DigitsOf(bytes) == digits
  {
    hide Number;
    forall i | 0 <= i < 4
      ensures Number(bytes[i]) / 16 == digits[6 - 2 * i] && Number(bytes[i]) % 16 == digits[7 - 2 * i]
    {
      HalvesOfNumber(digits[6 - 2 * i], digits[7 - 2 * i]);
    }
    var three, two, one := bytes[1..], bytes[2..], bytes[3..];
    assert two == three[1..] && one == two[1..] && one[1..] == [];
    assert DigitsOf(one) == digits[..2];
    assert DigitsOf(two) == digits[..4];
    assert DigitsOf(three) == digits[..6];
  }

  /** Eight digits, even of the kind a half byte allows, stay below 2^32. */
  lemma {:induction false} WrittenFits(bytes: seq<Byte>)
    requires |bytes| == 4
    ensures Written(DigitsOf(bytes)) < 0x1_0000_0000
  {
    var digits := DigitsOf(bytes);
    HalvesFit(bytes);
    WrittenBelow(digits);
    PowersOfTen();
  }

  function PowerOfTen(n: nat): nat { if n == 0 then 1 else 10 * PowerOfTen(n - 1) }

  lemma {:induction false} PowersOfTen()
    ensures PowerOfTen(8) == 100_000_000
  {
    assert PowerOfTen(4) == 10_000;
  }

  lemma {:induction false} HalvesFit(bytes: seq<Byte>)
    ensures forall i | 0 <= i < |DigitsOf(bytes)| :: DigitsOf(bytes)[i] < 16
  {
    hide Number;
    if bytes != [] {
      HalvesFit(bytes[1..]);
    }
  }

  lemma {:induction false} WrittenBelow(digits: seq<nat>)
    requires forall i | 0 <= i < |digits| :: digits[i] < 16
    ensures 3 * Written(digits) <= 5 * (PowerOfTen(|digits|) - 1)
  {
    if digits != [] {
      WrittenBelow(digits[..|digits| - 1]);
    }
  }

  lemma {:induction false} WrittenEight(digits: seq<nat>)
    requires |digits| == 8
    ensures Written(digits) ==
            10_000_000 * digits[0] + 1_000_000 * digits[1] + 100_000 * digits[2] + 10_000 * digits[3]
            + 1_000 * digits[4] + 100 * digits[5] + 10 * digits[6] + digits[7]
  {
    WrittenTwoMore([], digits[0], digits[1]);
    WrittenTwoMore(digits[..2], digits[2], digits[3]);
    WrittenTwoMore(digits[..4], digits[4], digits[5]);
    WrittenTwoMore(digits[..6], digits[6], digits[7]);
    assert digits[..4] == digits[..2] + [digits[2], digits[3]];
    assert digits[..6] == digits[..4] + [digits[4], digits[5]];
    assert digits == digits[..6] + [digits[6], digits[7]];
    assert digits[..2] == [] + [digits[0], digits[1]];
  }

  lemma {:induction false} WrittenTwoMore(digits: seq<nat>, h: nat, l: nat)
    ensures Written(digits + [h, l]) == 10 * (10 * Written(digits) + h) + l
  {
    var all := digits + [h, l];
    assert all[..|all| - 1] == digits + [h];
    assert (digits + [h])[..|digits|] == digits;
  }
}
