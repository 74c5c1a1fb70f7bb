/** When the 32-bit arithmetic of the vector checksums leaves 32 bits (src/mbus/simd.rs). */
module ChecksumRange {
  import opened Casts
  import opened Checksum

  /** The longest input whose byte sum always fits a 32-bit word. */
  const MAX_EXACT := 16_843_009

  // ---------------------------------------------------------------- what overflows

  /** The number of bytes that are added in the vector loop. */
  function InChunks(n: nat, chunk: nat): nat
    requires chunk > 0
  {
    n - n % chunk
  }

  lemma {:induction false} WholeChunks(n: nat)
    ensures InChunks(n, 16) <= n < InChunks(n, 16) + 16
    ensures InChunks(n, 16) % 16 == 0 && InChunks(n, 16) % 4 == 0
    ensures InChunks(n, 32) <= n < InChunks(n, 32) + 32
    ensures InChunks(n, 32) % 32 == 0
  {
    Multiples(n / 16);
    Multiples(n / 32);
    assert InChunks(n, 16) == 16 * (n / 16) && InChunks(n, 32) == 32 * (n / 32);
  }

  lemma {:induction false} Multiples(q: nat)
    ensures (16 * q) % 16 == 0 && (16 * q) % 4 == 0 && (32 * q) % 32 == 0
  {
    if q > 0 {
      Multiples(q - 1);
      assert 16 * q == 16 * (q - 1) + 16 && 32 * q == 32 * (q - 1) + 32;
    }
  }

  lemma {:induction false} Thresholds(n: nat)
    ensures InChunks(n, 16) > MAX_EXACT <==> n >= 16_843_024
    ensures InChunks(n, 32) > MAX_EXACT <==> n >= 16_843_040
    ensures InChunks(n, 16) > 4 * MAX_EXACT <==> n >= 67_372_048
    ensures InChunks(n, 32) > 8 * MAX_EXACT <==> n >= 134_744_096
  {
    assert InChunks(n, 16) == 16 * (n / 16) && InChunks(n, 32) == 32 * (n / 32);
  }

  /** The stored lanes of the SSE2 and NEON loops. */
  function Stored4(data: seq<Byte>): Lanes { Wrapped(Lanes4(data, InChunks(|data|, 16))) }

  function Stored8(data: seq<Byte>): Lanes { Wrapped(Lanes8(data, InChunks(|data|, 32))) }

  /** The 32-bit sum over the stored lanes is not their sum. */
  predicate SumOverflows(v: Lanes) { HorizontalSum(v) != Total(v) }

  predicate SomeLaneWraps(v: Lanes) { Wrapped(v) != v }

  lemma {:induction false} SumOverflowsIff(v: Lanes)
    ensures SumOverflows(v) <==> Total(v) >= WORD
  {
    HorizontalSumTotal(v);
    SumFitsWord(v);
  }

  lemma {:induction false} SumFitsWord(v: Lanes)
    ensures HorizontalSum(v) < WORD
  {
  }

  // ---------------------------------------------------------------- bounds

  lemma {:induction false} Lanes4Bound(data: seq<Byte>, i: nat, k: nat)
    requires i <= |data| && k < 4
    ensures Lanes4(data, i)[k] <= 255 * (i / 4)
  {
    hide AddWide;
    if i >= 4 {
      Lanes4Bound(data, i - 4, k);
      AddWideAt(Lanes4(data, i - 4), Load4(data, i - 4), k);
    }
  }

  lemma {:induction false} Lanes8At(data: seq<Byte>, i: nat, k: nat)
    requires i + 32 <= |data| && k < 8
    ensures Lanes8(data, i + 32)[k]
         == Lanes8(data, i)[k] + Load8(data, i)[k] + Load8(data, i + 4)[k]
                               + Load8(data, i + 8)[k] + Load8(data, i + 12)[k]
  {
    hide AddWide, Load8;
    var v0 := Lanes8(data, i);
    var v1 := AddWide(v0, Load8(data, i));
    var v2 := AddWide(v1, Load8(data, i + 4));
    var v3 := AddWide(v2, Load8(data, i + 8));
    AddWideAt(v0, Load8(data, i), k);
    AddWideAt(v1, Load8(data, i + 4), k);
    AddWideAt(v2, Load8(data, i + 8), k);
    AddWideAt(v3, Load8(data, i + 12), k);
  }

  lemma {:induction false} Lanes8Bound(data: seq<Byte>, i: nat, k: nat)
    requires i <= |data| && i % 32 == 0 && k < 8
    ensures Lanes8(data, i)[k] <= 255 * (i / 8)
  {
    if i >= 32 {
      var j := i - 32;
      Lanes8Bound(data, j, k);
      Lanes8At(data, j, k);
      Load8Bound(data, j, k);
      Load8Bound(data, j + 4, k);
      Load8Bound(data, j + 8, k);
      Load8Bound(data, j + 12, k);
      assert i / 8 == j / 8 + 4;
    }
  }

  lemma {:induction false} Load8Bound(data: seq<Byte>, i: nat, k: nat)
    requires i + 20 <= |data| && k < 8
    ensures Load8(data, i)[k] <= 255
  {
  }

  // ---------------------------------------------------------------- the heaviest inputs

  /** `m` bytes 0xFF, then zeros. */
  function Heavy(m: nat, n: nat): (data: seq<Byte>)
    ensures |data| == n
    ensures forall j | 0 <= j < n :: Number(data[j]) == if j < m then 255 else 0
  {
    TruncateSmall(255);
    TruncateSmall(0);
    seq(n, j requires 0 <= j < n => if j < m then Truncate(255) else Truncate(0))
  }

  lemma {:induction false} HeavyLanes4(m: nat, n: nat, a: nat, k: nat)
    requires 4 * a <= n && k < 4
    ensures Lanes4(Heavy(4 * m, n), 4 * a)[k] == 255 * (if a < m then a else m)
    decreases a
  {
    hide AddWide, Heavy;
    var data := Heavy(4 * m, n);
    if a > 0 {
      var i := 4 * (a - 1);
      HeavyLanes4(m, n, a - 1, k);
      AddWideAt(Lanes4(data, i), Load4(data, i), k);
      assert Load4(data, i)[k] == Number(data[i + k]);
    }
  }

  lemma {:induction false} HeavyLanes8(m: nat, n: nat, a: nat, k: nat)
    requires 32 * a <= n && k < 8
    ensures Lanes8(Heavy(32 * m, n), 32 * a)[k] == 1020 * (if a < m then a else m)
    decreases a
  {
    hide Heavy, Load8, Lanes8;
    var data := Heavy(32 * m, n);
    if a > 0 {
      var j := 32 * (a - 1);
      HeavyLanes8(m, n, a - 1, k);
      Lanes8At(data, j, k);
      HeavyLoad8(m, n, a - 1, 0, k);
      HeavyLoad8(m, n, a - 1, 4, k);
      HeavyLoad8(m, n, a - 1, 8, k);
      HeavyLoad8(m, n, a - 1, 12, k);
    } else {
      NoLanes8(data, k);
    }
  }

  lemma {:induction false} NoLanes8(data: seq<Byte>, k: nat)
    requires k < 8
    ensures Lanes8(data, 0)[k] == 0
  {
  }

  lemma {:induction false} HeavyLoad8(m: nat, n: nat, a: nat, c: nat, k: nat)
    requires 32 * (a + 1) <= n && c <= 12 && k < 8
    ensures Load8(Heavy(32 * m, n), 32 * a + c)[k] == if a < m then 255 else 0
  {
    hide Heavy;
    var data := Heavy(32 * m, n);
    var at := if k < 4 then 32 * a + c + k else 32 * a + c + 16 + (k - 4);
    assert Load8(data, 32 * a + c)[k] == Number(data[at]);
  }

  // ---------------------------------------------------------------- exactly when

  /** Up to 16,843,009 bytes every sum is exact, in each lane and over all lanes. */
  lemma {:induction false} NoOverflow(data: seq<Byte>, i: nat)
    requires i <= |data| && i <= MAX_EXACT
    ensures i % 4 == 0 ==> Wrapped(Lanes4(data, i)) == Lanes4(data, i)
                           && HorizontalSum(Lanes4(data, i)) == Total(Lanes4(data, i)) == ByteSum(data[..i])
    ensures i % 32 == 0 ==> Wrapped(Lanes8(data, i)) == Lanes8(data, i)
                            && HorizontalSum(Lanes8(data, i)) == Total(Lanes8(data, i)) == ByteSum(data[..i])
  {
    hide HorizontalSum, Lanes4, Lanes8, Wrapped, Total, ByteSum;
    ByteSumBound(data[..i]);
    if i % 4 == 0 {
      Lanes4Total(data, i);
      LanesFit(Lanes4(data, i));
    }
    if i % 32 == 0 {
      Lanes8Total(data, i);
      LanesFit(Lanes8(data, i));
    }
  }

  lemma {:induction false} LanesFit(v: Lanes)
    requires Total(v) < WORD
    ensures Wrapped(v) == v && HorizontalSum(v) == Total(v)
  {
    LaneBelowTotal(v);
    HorizontalSumTotal(v);
  }

  lemma {:induction false} LaneBelowTotal(v: Lanes)
    ensures forall k | 0 <= k < |v| :: v[k] <= Total(v)
  {
    if v != [] {
      LaneBelowTotal(v[1..]);
      forall k | 0 <= k < |v|
        ensures v[k] <= Total(v)
      {
        assert k > 0 ==> v[k] == v[1..][k - 1];
      }
    }
  }

  /** Some input of `n` bytes overflows the 32-bit sum over the SSE2 lanes if and only if its
      whole chunks come to more than 16,843,009 bytes. */
  lemma {:induction false} Sse2SumOverflowsIff(n: nat)
    ensures (exists data: seq<Byte> :: |data| == n && SumOverflows(Stored4(data))) <==> InChunks(n, 16) > MAX_EXACT
    ensures InChunks(n, 16) > MAX_EXACT <==> n >= 16_843_024
  {
    hide SumOverflows, Stored4, Heavy, InChunks;
    WholeChunks(n);
    Thresholds(n);
    var i := InChunks(n, 16);
    if i <= MAX_EXACT {
      forall data: seq<Byte> | |data| == n ensures !SumOverflows(Stored4(data)) {
        NoSumOverflow(data);
      }
    } else {
      HeavyOverflows4(n);
      assert |Heavy(16_843_024, n)| == n;
    }
  }

  lemma {:induction false} NoSumOverflow(data: seq<Byte>)
    ensures InChunks(|data|, 16) <= MAX_EXACT ==> !SumOverflows(Stored4(data))
    ensures InChunks(|data|, 32) <= MAX_EXACT ==> !SumOverflows(Stored8(data))
  {
    hide Lanes4, Lanes8, HorizontalSum, Wrapped, Total, ByteSum, InChunks;
    WholeChunks(|data|);
    if InChunks(|data|, 16) <= MAX_EXACT {
      NoOverflow(data, InChunks(|data|, 16));
    }
    if InChunks(|data|, 32) <= MAX_EXACT {
      NoOverflow(data, InChunks(|data|, 32));
    }
  }

  lemma {:induction false} HeavyOverflows4(n: nat)
    requires InChunks(n, 16) > MAX_EXACT
    ensures SumOverflows(Stored4(Heavy(16_843_024, n)))
  {
    hide SumOverflows, Lanes4, Wrapped, Heavy, InChunks;
    WholeChunks(n);
    var data, i := Heavy(16_843_024, n), InChunks(n, 16);
    forall k | 0 <= k < 4 ensures Lanes4(data, i)[k] == 255 * 4_210_756 {
      HeavyLanes4(4_210_756, n, i / 4, k);
    }
    FourEqual(Lanes4(data, i), 255 * 4_210_756);
  }

  lemma {:induction false} HeavyOverflows8(n: nat)
    requires InChunks(n, 32) > MAX_EXACT
    ensures SumOverflows(Stored8(Heavy(16_843_040, n)))
  {
    hide SumOverflows, Lanes8, Wrapped, Heavy, InChunks;
    WholeChunks(n);
    var data, i := Heavy(16_843_040, n), InChunks(n, 32);
    forall k | 0 <= k < 8 ensures Lanes8(data, i)[k] == 255 * 2_105_380 {
      HeavyLanes8(526_345, n, i / 32, k);
    }
    EightEqual(Lanes8(data, i), 255 * 2_105_380);
  }

  lemma {:induction false} FourEqual(v: Lanes, x: nat)
    requires |v| == 4 && forall k | 0 <= k < 4 :: v[k] == x
    requires x < WORD <= 4 * x
    ensures Wrapped(v) == v && SumOverflows(v)
  {
    hide SumOverflows, Total;
    TotalOfFour(v);
    SumOverflowsIff(v);
  }

  /** The same for the AVX2 lanes, whose chunks have 32 bytes. */
  lemma {:induction false} Avx2SumOverflowsIff(n: nat)
    ensures (exists data: seq<Byte> :: |data| == n && SumOverflows(Stored8(data))) <==> InChunks(n, 32) > MAX_EXACT
    ensures InChunks(n, 32) > MAX_EXACT <==> n >= 16_843_040
  {
    hide SumOverflows, Stored8, Heavy, InChunks;
    WholeChunks(n);
    Thresholds(n);
    var i := InChunks(n, 32);
    if i <= MAX_EXACT {
      forall data: seq<Byte> | |data| == n ensures !SumOverflows(Stored8(data)) {
        NoSumOverflow(data);
      }
    } else {
      HeavyOverflows8(n);
      assert |Heavy(16_843_040, n)| == n;
    }
  }

  lemma {:induction false} EightEqual(v: Lanes, x: nat)
    requires |v| == 8 && forall k | 0 <= k < 8 :: v[k] == x
    requires x < WORD <= 8 * x
    ensures Wrapped(v) == v && SumOverflows(v)
  {
    hide SumOverflows, Total;
    assert v == v[..4] + v[4..];
    TotalConcat(v[..4], v[4..]);
    TotalOfFour(v[..4]);
    TotalOfFour(v[4..]);
    SumOverflowsIff(v);
  }

  /** Some input of `n` bytes wraps a single lane of the SSE2 or NEON loop if and only if its
      whole chunks come to more than four times as much. */
  lemma {:induction false} Lane4WrapsIff(n: nat)
    ensures (exists data: seq<Byte> :: |data| == n && SomeLaneWraps(Lanes4(data, InChunks(n, 16))))
       <==> InChunks(n, 16) > 4 * MAX_EXACT
    ensures InChunks(n, 16) > 4 * MAX_EXACT <==> n >= 67_372_048
  {
    hide Lanes4, InChunks;
    WholeChunks(n);
    Thresholds(n);
    var i := InChunks(n, 16);
    forall data: seq<Byte> | |data| == n && i <= 4 * MAX_EXACT
      ensures !SomeLaneWraps(Lanes4(data, i))
    {
      forall k | 0 <= k < 4 ensures Lanes4(data, i)[k] < WORD {
        Lanes4Bound(data, i, k);
      }
    }
    if i > 4 * MAX_EXACT {
      var data := Heavy(i, n);
      HeavyLanes4(i / 4, n, i / 4, 0);
      assert Wrapped(Lanes4(data, i))[0] < WORD;
      assert SomeLaneWraps(Lanes4(data, i));
    }
  }

  /** And of the AVX2 loop, to more than eight times as much. */
  lemma {:induction false} Lane8WrapsIff(n: nat)
    ensures (exists data: seq<Byte> :: |data| == n && SomeLaneWraps(Lanes8(data, InChunks(n, 32))))
       <==> InChunks(n, 32) > 8 * MAX_EXACT
    ensures InChunks(n, 32) > 8 * MAX_EXACT <==> n >= 134_744_096
  {
    hide Lanes8, InChunks;
    WholeChunks(n);
    Thresholds(n);
    var i := InChunks(n, 32);
    forall data: seq<Byte> | |data| == n && i <= 8 * MAX_EXACT
      ensures !SomeLaneWraps(Lanes8(data, i))
    {
      forall k | 0 <= k < 8 ensures Lanes8(data, i)[k] < WORD {
        Lanes8Bound(data, i, k);
      }
    }
    if i > 8 * MAX_EXACT {
      var data := Heavy(i, n);
      HeavyLanes8(i / 32, n, i / 32, 0);
      assert Wrapped(Lanes8(data, i))[0] < WORD;
      assert SomeLaneWraps(Lanes8(data, i));
    }
  }
}
