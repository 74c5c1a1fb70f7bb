/** The M-Bus checksum: the sum of all bytes modulo 256, in its scalar, NEON, SSE2 and AVX2
    forms (src/mbus/simd.rs).

    A vector register is the sequence of its lanes. A 32-bit lane addition wraps around. */
module Checksum {
  import opened Casts

  const WORD := 0x1_0000_0000

  // ---------------------------------------------------------------- arithmetic modulo 256

  function Mod256(x: nat): nat { x % 256 }

  lemma {:induction false} ModAdd(x: nat, y: nat, z: nat)
    requires Mod256(x) == Mod256(y)
    ensures Mod256(x + z) == Mod256(y + z)
  {
    assert x + z == x / 256 * 256 + (x % 256 + z);
    assert y + z == y / 256 * 256 + (y % 256 + z);
    ModMultiple(x / 256, x % 256 + z);
    ModMultiple(y / 256, y % 256 + z);
  }

  lemma {:induction false} ModMultiple(k: nat, z: nat)
    ensures Mod256(k * 256 + z) == Mod256(z)
  {
    if k > 0 {
      ModMultiple(k - 1, z);
      assert k * 256 + z == (k - 1) * 256 + z + 256;
    }
  }

  lemma {:induction false} ModIdempotent(x: nat)
    ensures Mod256(Mod256(x)) == Mod256(x)
    ensures x < 256 ==> Mod256(x) == x
  {
  }

  /** A 32-bit wrap-around does not change a number modulo 256. */
  lemma {:induction false} ModWrap(x: nat)
    ensures Mod256(x % WORD) == Mod256(x)
  {
    var k := x / WORD;
    assert x == k * 0x100_0000 * 256 + x % WORD;
    ModMultiple(k * 0x100_0000, x % WORD);
  }

  /** `(n & 0xFF) as u8`. */
  function LowByte(n: nat): Byte { Truncate(Mod256(n)) }

  lemma {:induction false} LowByteNumber(n: nat)
    ensures Number(LowByte(n)) == Mod256(n)
  {
    TruncateSmall(Mod256(n));
  }

  // ---------------------------------------------------------------- the scalar form

  /** `wrapping_add` on `u8`. */
  function WrappingAdd(a: Byte, b: Byte): Byte { Truncate(Number(a) + Number(b)) }

  function ChecksumFrom(acc: Byte, data: seq<Byte>): Byte
    decreases |data|
  {
    if data == [] then acc else ChecksumFrom(WrappingAdd(acc, data[0]), data[1..])
  }

  /** The scalar fold, which the vector forms must agree with. */
  function Scalar(data: seq<Byte>): Byte {
    ChecksumFrom(0, data)
  }

  function ByteSum(data: seq<Byte>): nat {
    if data == [] then 0 else Number(data[0]) + ByteSum(data[1..])
  }

  lemma {:induction false} WrappingAddNumber(a: Byte, b: Byte)
    ensures Number(WrappingAdd(a, b)) == Mod256(Number(a) + Number(b))
  {
    TruncateIsModulo(Number(a) + Number(b));
  }

  lemma {:induction false} ChecksumFromSum(acc: Byte, data: seq<Byte>)
    ensures Number(ChecksumFrom(acc, data)) == Mod256(Number(acc) + ByteSum(data))
    decreases |data|
  {
    hide WrappingAdd, Number, Mod256;
    if data == [] {
      ModIdempotent(Number(acc));
    } else {
      WrappingAddNumber(acc, data[0]);
      ChecksumFromSum(WrappingAdd(acc, data[0]), data[1..]);
      ModIdempotent(Number(acc) + Number(data[0]));
      ModAdd(Mod256(Number(acc) + Number(data[0])), Number(acc) + Number(data[0]), ByteSum(data[1..]));
    }
  }

  lemma {:induction false} ScalarIsSum(data: seq<Byte>)
    ensures Number(Scalar(data)) == Mod256(ByteSum(data)) == ByteSum(data) % 256
  {
    hide ChecksumFrom, ByteSum;
    ChecksumFromSum(0, data);
  }

  lemma {:induction false} ByteSumConcat(a: seq<Byte>, b: seq<Byte>)
    ensures ByteSum(a + b) == ByteSum(a) + ByteSum(b)
  {
    if a == [] {
      assert a + b == b;
    } else {
      assert (a + b)[1..] == a[1..] + b;
      ByteSumConcat(a[1..], b);
    }
  }

  lemma {:induction false} ByteSumBound(data: seq<Byte>)
    ensures ByteSum(data) <= 255 * |data|
  {
    if data != [] {
      ByteSumBound(data[1..]);
    }
  }

  // ---------------------------------------------------------------- lanes

  type Lanes = seq<nat>

  function Total(v: Lanes): nat {
    if v == [] then 0 else v[0] + Total(v[1..])
  }

  lemma {:induction false} TotalConcat(a: Lanes, b: Lanes)
    ensures Total(a + b) == Total(a) + Total(b)
  {
    if a == [] {
      assert a + b == b;
    } else {
      assert (a + b)[1..] == a[1..] + b;
      TotalConcat(a[1..], b);
    }
  }

  /** Lane-wise addition of 32-bit lanes. */
  function AddLanes(a: Lanes, b: Lanes): (r: Lanes)
    requires |a| == |b|
    ensures |r| == |a|
  {
    if a == [] then [] else [(a[0] + b[0]) % WORD] + AddLanes(a[1..], b[1..])
  }

  /** Lane-wise addition into wider lanes, which cannot overflow. */
  function AddWide(a: Lanes, b: Lanes): (r: Lanes)
    requires |a| == |b|
    ensures |r| == |a|
  {
    if a == [] then [] else [a[0] + b[0]] + AddWide(a[1..], b[1..])
  }

  lemma {:induction false} AddWideTotal(a: Lanes, b: Lanes)
    requires |a| == |b|
    ensures Total(AddWide(a, b)) == Total(a) + Total(b)
  {
    if a != [] {
      AddWideTotal(a[1..], b[1..]);
    }
  }

  /** Lanes as 32-bit words. */
  function Wrapped(v: Lanes): (r: Lanes)
    ensures |r| == |v|
    ensures forall k | 0 <= k < |v| :: r[k] == v[k] % WORD
  {
    if v == [] then [] else [v[0] % WORD] + Wrapped(v[1..])
  }

  lemma {:induction false} AddLanesWraps(a: Lanes, b: Lanes)
    requires |a| == |b|
    ensures AddLanes(Wrapped(a), b) == Wrapped(AddWide(a, b))
  {
    if a != [] {
      AddLanesWraps(a[1..], b[1..]);
      WrapTwice(a[0], b[0]);
    }
  }

  lemma {:induction false} WrapTwice(x: nat, y: nat)
    ensures (x % WORD + y) % WORD == (x + y) % WORD
  {
  }

  lemma {:induction false} AddWideInTurn(a: Lanes, b: Lanes, c: Lanes)
    requires |a| == |b| == |c|
    ensures AddWide(AddWide(a, b), c) == AddWide(a, AddWide(b, c))
  {
    if a != [] {
      AddWideInTurn(a[1..], b[1..], c[1..]);
    }
  }

  lemma {:induction false} AddWideAt(a: Lanes, b: Lanes, k: nat)
    requires |a| == |b| && k < |a|
    ensures AddWide(a, b)[k] == a[k] + b[k]
  {
    if k > 0 {
      AddWideAt(a[1..], b[1..], k - 1);
    }
  }

  /** Wrapping lanes keeps their total modulo 256, and keeps it exactly if it fits a word. */
  lemma {:induction false} WrappedTotal(v: Lanes)
    ensures Mod256(Total(Wrapped(v))) == Mod256(Total(v))
    ensures Total(Wrapped(v)) <= Total(v)
    ensures (forall k | 0 <= k < |v| :: v[k] < WORD) ==> Wrapped(v) == v
  {
    hide Mod256;
    if v != [] {
      WrappedTotal(v[1..]);
      ModWrap(v[0]);
      ModAdd(v[0] % WORD, v[0], Total(Wrapped(v[1..])));
      ModAdd(Total(Wrapped(v[1..])), Total(v[1..]), v[0]);
    }
  }

  /** The bytes of a 16-byte load, one per lane. */
  function Load16(data: seq<Byte>, i: nat): (v: Lanes)
    requires i + 16 <= |data|
    ensures |v| == 16
  {
    seq<nat>(16, (k: int) requires 0 <= k < 16 => Number(data[i + k]))
  }

  /** Four bytes, one per lane. */
  function Load4(data: seq<Byte>, i: nat): (v: Lanes)
    requires i + 4 <= |data|
    ensures |v| == 4
  {
    [Number(data[i]), Number(data[i + 1]), Number(data[i + 2]), Number(data[i + 3])]
  }

  /** What four lanes of any width have to hold after `i` bytes: lane `k` the sum of bytes `k`,
      `k + 4`, `k + 8` and so on. */
  function Lanes4(data: seq<Byte>, i: nat): (v: Lanes)
    requires i <= |data|
    ensures |v| == 4
  {
    if i < 4 then [0, 0, 0, 0] else AddWide(Lanes4(data, i - 4), Load4(data, i - 4))
  }

  lemma {:induction false} Load4Total(data: seq<Byte>, i: nat)
    requires i + 4 <= |data|
    ensures ByteSum(data[..i + 4]) == ByteSum(data[..i]) + Total(Load4(data, i))
  {
    var four := data[i..i + 4];
    assert data[..i + 4] == data[..i] + four;
    ByteSumConcat(data[..i], four);
    ByteSumOfFour(four);
    TotalOfFour(Load4(data, i));
  }

  lemma {:induction false} TotalOfFour(v: Lanes)
    requires |v| == 4
    ensures Total(v) == v[0] + v[1] + v[2] + v[3]
  {
    var w := v[2..];
    assert v[1..][1..] == w && w[1..] == [v[3]];
    assert Total(w) == v[2] + Total([v[3]]);
    assert Total([v[3]]) == v[3] + Total([]);
  }

  lemma {:induction false} ByteSumOfFour(data: seq<Byte>)
    requires |data| == 4
    ensures ByteSum(data) == Number(data[0]) + Number(data[1]) + Number(data[2]) + Number(data[3])
  {
    var rest := data[2..];
    assert data[1..][1..] == rest && rest[1..] == [data[3]];
    assert ByteSum(rest) == Number(data[2]) + ByteSum([data[3]]);
    assert ByteSum([data[3]]) == Number(data[3]) + ByteSum([]);
  }

  lemma {:induction false} Lanes4Total(data: seq<Byte>, i: nat)
    requires i <= |data| && i % 4 == 0
    ensures Total(Lanes4(data, i)) == ByteSum(data[..i])
  {
    hide Lanes4, ByteSum, Total;
    Lanes4TotalAt(data, i / 4);
  }

  lemma {:induction false} Lanes4TotalAt(data: seq<Byte>, a: nat)
    requires 4 * a <= |data|
    ensures Total(Lanes4(data, 4 * a)) == ByteSum(data[..4 * a])
    decreases a
  {
    hide ByteSum, Load4, Total, AddWide;
    if a > 0 {
      var i := 4 * (a - 1);
      Lanes4TotalAt(data, a - 1);
      AddWideTotal(Lanes4(data, i), Load4(data, i));
      Load4Total(data, i);
      assert i + 4 == 4 * a;
    } else {
      ZeroLanes();
      assert data[..0] == [];
    }
  }

  lemma {:induction false} ZeroLanes()
    ensures Total([0, 0, 0, 0]) == 0 && Total([0, 0, 0, 0, 0, 0, 0, 0]) == 0 && ByteSum([]) == 0
    ensures Wrapped([0, 0, 0, 0]) == [0, 0, 0, 0]
    ensures Wrapped([0, 0, 0, 0, 0, 0, 0, 0]) == [0, 0, 0, 0, 0, 0, 0, 0]
  {
    var four: Lanes := [0, 0, 0, 0];
    assert four[1..] == [0, 0, 0] && [0, 0, 0][1..] == [0, 0] && [0, 0][1..] == [0];
    assert Total(four) == 0;
    TotalConcat(four, four);
    assert four + four == [0, 0, 0, 0, 0, 0, 0, 0];
  }

  // ---------------------------------------------------------------- NEON

  function Low(v: Lanes): Lanes { v[..|v| / 2] }

  function High(v: Lanes): Lanes { v[|v| / 2..] }

  /** A 16-byte chunk as NEON reduces it to two vectors of four 32-bit lanes: each half is
      widened, and its own halves are added. */
  function NeonPair(chunk: Lanes): (r: (Lanes, Lanes))
    requires |chunk| == 16
    ensures |r.0| == 4 && |r.1| == 4
  {
    (AddWide(Low(Low(chunk)), High(Low(chunk))), AddWide(Low(High(chunk)), High(High(chunk))))
  }

  /** The quarters of a 16-byte load. */
  lemma {:induction false} Quarters(data: seq<Byte>, i: nat)
    requires i + 16 <= |data|
    ensures var chunk := Load16(data, i);
            && Low(Low(chunk)) == Load4(data, i) && High(Low(chunk)) == Load4(data, i + 4)
            && Low(High(chunk)) == Load4(data, i + 8) && High(High(chunk)) == Load4(data, i + 12)
  {
    hide Load16, Load4;
    var chunk := Load16(data, i);
    Quarter(data, i, 0);
    Quarter(data, i, 4);
    Quarter(data, i, 8);
    Quarter(data, i, 12);
    assert chunk[..8][..4] == chunk[0..4] && chunk[..8][4..] == chunk[4..8];
    assert chunk[8..][..4] == chunk[8..12] && chunk[8..][4..] == chunk[12..16];
  }

  lemma {:induction false} Quarter(data: seq<Byte>, i: nat, c: nat)
    requires i + 16 <= |data| && c <= 12
    ensures Load16(data, i)[c..c + 4] == Load4(data, i + c)
  {
  }

  lemma {:induction false} Lanes4Step(data: seq<Byte>, i: nat)
    requires i + 16 <= |data|
    ensures Lanes4(data, i + 16)
         == AddWide(AddWide(AddWide(AddWide(Lanes4(data, i), Load4(data, i)), Load4(data, i + 4)),
                            Load4(data, i + 8)), Load4(data, i + 12))
  {
    hide Load4, AddWide;
    assert Lanes4(data, i + 8) == AddWide(Lanes4(data, i + 4), Load4(data, i + 4));
    assert Lanes4(data, i + 16) == AddWide(Lanes4(data, i + 12), Load4(data, i + 12));
  }

  /** Adding one 16-byte chunk to the running lanes. */
  lemma {:induction false} NeonChunk(data: seq<Byte>, i: nat)
    requires i + 16 <= |data|
    ensures var (low, high) := NeonPair(Load16(data, i));
            AddLanes(AddLanes(Wrapped(Lanes4(data, i)), low), high) == Wrapped(Lanes4(data, i + 16))
  {
    hide Load16, Load4, Lanes4, AddLanes, AddWide, Low, High;
    Quarters(data, i);
    Lanes4Step(data, i);
    var v := Lanes4(data, i);
    var q0, q1, q2, q3 := Load4(data, i), Load4(data, i + 4), Load4(data, i + 8), Load4(data, i + 12);
    AddLanesWraps(v, AddWide(q0, q1));
    AddWideInTurn(v, q0, q1);
    var w := AddWide(AddWide(v, q0), q1);
    AddLanesWraps(w, AddWide(q2, q3));
    AddWideInTurn(w, q2, q3);
  }

  /** The two chunked loops: 64 bytes at a time, then 16. */
  method AccumulateNeon(data: seq<Byte>) returns (sum: Lanes, i: nat)
    ensures i == |data| - |data| % 16
    ensures sum == Wrapped(Lanes4(data, i))
  {
    hide AddLanes, NeonPair, Lanes4, Wrapped, Load16;
    sum, i := [0, 0, 0, 0], 0;
    NoBytes(data);
    while i + 64 <= |data|
      invariant 0 <= i <= |data| && i % 16 == 0
      invariant sum == Wrapped(Lanes4(data, i))
    {
      var chunk1 := Load16(data, i);
      var chunk2 := Load16(data, i + 16);
      var chunk3 := Load16(data, i + 32);
      var chunk4 := Load16(data, i + 48);
      var (low1, high1) := NeonPair(chunk1);
      var (low2, high2) := NeonPair(chunk2);
      var (low3, high3) := NeonPair(chunk3);
      var (low4, high4) := NeonPair(chunk4);
      NeonChunk(data, i);
      sum := AddLanes(sum, low1);
      sum := AddLanes(sum, high1);
      assert sum == Wrapped(Lanes4(data, i + 16));
      NeonChunk(data, i + 16);
      sum := AddLanes(sum, low2);
      sum := AddLanes(sum, high2);
      assert sum == Wrapped(Lanes4(data, i + 32));
      NeonChunk(data, i + 32);
      sum := AddLanes(sum, low3);
      sum := AddLanes(sum, high3);
      assert sum == Wrapped(Lanes4(data, i + 48));
      NeonChunk(data, i + 48);
      sum := AddLanes(sum, low4);
      sum := AddLanes(sum, high4);
      assert sum == Wrapped(Lanes4(data, i + 64));
      i := i + 64;
    }
    while i + 16 <= |data|
      invariant 0 <= i <= |data| && i % 16 == 0
      invariant sum == Wrapped(Lanes4(data, i))
    {
      var chunk := Load16(data, i);
      var (low, high) := NeonPair(chunk);
      NeonChunk(data, i);
      sum := AddLanes(sum, low);
      sum := AddLanes(sum, high);
      i := i + 16;
    }
  }

  lemma {:induction false} NoBytes(data: seq<Byte>)
    ensures Wrapped(Lanes4(data, 0)) == [0, 0, 0, 0]
    ensures Wrapped(Lanes8(data, 0)) == [0, 0, 0, 0, 0, 0, 0, 0]
  {
    ZeroLanes();
  }

  /** The remaining bytes, one by one. */
  method AddTail(data: seq<Byte>, start: nat, init: Byte) returns (result: Byte)
    requires start <= |data| && Number(init) == Mod256(ByteSum(data[..start]))
    ensures result == Scalar(data)
  {
    hide Number, WrappingAdd, Mod256, Scalar;
    result := init;
    var i := start;
    while i < |data|
      invariant start <= i <= |data|
      invariant Number(result) == Mod256(ByteSum(data[..i]))
    {
      WrappingAddNumber(result, data[i]);
      assert data[..i + 1] == data[..i] + [data[i]];
      ByteSumConcat(data[..i], [data[i]]);
      assert ByteSum([data[i]]) == Number(data[i]);
      ModIdempotent(ByteSum(data[..i]));
      ModAdd(Number(result), ByteSum(data[..i]), Number(data[i]));
      result := WrappingAdd(result, data[i]);
      i := i + 1;
    }
    assert data[..i] == data;
    ScalarIsSum(data);
    SameNumber(result, Scalar(data));
  }

  method CalculateChecksumNeon(data: seq<Byte>) returns (result: Byte)
    ensures result == Scalar(data)
  {
    hide Mod256, LowByte, Wrapped, Lanes4, Total;
    var sum, i := AccumulateNeon(data);
    Lanes4Total(data, i);
    WrappedTotal(Lanes4(data, i));
    var sum64 := Total(sum); // a 64-bit horizontal sum of four 32-bit lanes
    LowByteNumber(sum64);
    result := LowByte(sum64);
    result := AddTail(data, i, result);
  }

  // ---------------------------------------------------------------- SSE2

  /** Interleaving with zeros and reading at double width: the low or high half, widened. */
  function UnpackLow(v: Lanes): Lanes { Low(v) }

  function UnpackHigh(v: Lanes): Lanes { High(v) }

  /** The horizontal sum of the stored lanes, in 32-bit arithmetic. */
  function HorizontalSum(v: Lanes): nat {
    if v == [] then 0 else (v[0] + HorizontalSum(v[1..])) % WORD
  }

  lemma {:induction false} HorizontalSumTotal(v: Lanes)
    ensures Mod256(HorizontalSum(v)) == Mod256(Total(v))
    ensures Total(v) < WORD ==> HorizontalSum(v) == Total(v)
  {
    hide Mod256;
    if v != [] {
      HorizontalSumTotal(v[1..]);
      ModWrap(v[0] + HorizontalSum(v[1..]));
      ModAdd(HorizontalSum(v[1..]), Total(v[1..]), v[0]);
    }
  }

  lemma {:induction false} Sse2Chunk(data: seq<Byte>, i: nat)
    requires i + 16 <= |data|
    ensures var chunk := Load16(data, i);
            var (low, high) := (UnpackLow(chunk), UnpackHigh(chunk));
            AddLanes(AddLanes(AddLanes(AddLanes(Wrapped(Lanes4(data, i)), UnpackLow(low)), UnpackHigh(low)),
                              UnpackLow(high)), UnpackHigh(high))
            == Wrapped(Lanes4(data, i + 16))
  {
    hide Load16, Load4, Lanes4, AddLanes, AddWide, Low, High;
    Quarters(data, i);
    Lanes4Step(data, i);
    var v0 := Lanes4(data, i);
    var v1 := AddWide(v0, Load4(data, i));
    var v2 := AddWide(v1, Load4(data, i + 4));
    var v3 := AddWide(v2, Load4(data, i + 8));
    AddLanesWraps(v0, Load4(data, i));
    AddLanesWraps(v1, Load4(data, i + 4));
    AddLanesWraps(v2, Load4(data, i + 8));
    AddLanesWraps(v3, Load4(data, i + 12));
  }

  method AccumulateSse2(data: seq<Byte>) returns (sum: Lanes, i: nat)
    ensures i == |data| - |data| % 16
    ensures sum == Wrapped(Lanes4(data, i))
  {
    hide AddLanes, Lanes4, Wrapped, Load16;
    sum, i := [0, 0, 0, 0], 0;
    NoBytes(data);
    while i + 16 <= |data|
      invariant 0 <= i <= |data| && i % 16 == 0
      invariant sum == Wrapped(Lanes4(data, i))
    {
      var chunk := Load16(data, i);
      Sse2Chunk(data, i);
      var low := UnpackLow(chunk);
      var high := UnpackHigh(chunk);
      var lowLow := UnpackLow(low);
      var lowHigh := UnpackHigh(low);
      var highLow := UnpackLow(high);
      var highHigh := UnpackHigh(high);
      sum := AddLanes(sum, lowLow);
      sum := AddLanes(sum, lowHigh);
      sum := AddLanes(sum, highLow);
      sum := AddLanes(sum, highHigh);
      i := i + 16;
    }
  }

  method CalculateChecksumSse2(data: seq<Byte>) returns (result: Byte)
    ensures result == Scalar(data)
  {
    hide Mod256, LowByte, Wrapped, Lanes4, Total, HorizontalSum;
    var sum, i := AccumulateSse2(data);
    Lanes4Total(data, i);
    WrappedTotal(Lanes4(data, i));
    HorizontalSumTotal(sum);
    LowByteNumber(HorizontalSum(sum));
    result := LowByte(HorizontalSum(sum));
    result := AddTail(data, i, result);
  }

  // ---------------------------------------------------------------- AVX2

  /** Within each 128-bit half of a 16-lane vector, the low (high) four lanes. */
  function UnpackLow256(v: Lanes): (r: Lanes)
    requires |v| == 16
    ensures |r| == 8
  {
    v[..4] + v[8..12]
  }

  function UnpackHigh256(v: Lanes): (r: Lanes)
    requires |v| == 16
    ensures |r| == 8
  {
    v[4..8] + v[12..]
  }

  /** `_mm256_set_m128i(high, low)`. */
  function Set128(high: Lanes, low: Lanes): Lanes { low + high }

  /** Four bytes of each 16-byte half of a 32-byte chunk, one per lane. */
  function Load8(data: seq<Byte>, i: nat): (v: Lanes)
    requires i + 20 <= |data|
    ensures |v| == 8
  {
    Load4(data, i) + Load4(data, i + 16)
  }

  /** What eight lanes of any width have to hold after `i` bytes: the first four lanes every
      fourth byte of the first halves of all 32-byte chunks, the others of the second. */
  function Lanes8(data: seq<Byte>, i: nat): (v: Lanes)
    requires i <= |data|
    ensures |v| == 8
  {
    if i < 32 then [0, 0, 0, 0, 0, 0, 0, 0]
    else
      var j := i - 32;
      AddWide(AddWide(AddWide(AddWide(Lanes8(data, j), Load8(data, j)), Load8(data, j + 4)),
                      Load8(data, j + 8)), Load8(data, j + 12))
  }

  lemma {:induction false} Load8Totals(data: seq<Byte>, i: nat)
    requires i + 32 <= |data|
    ensures ByteSum(data[..i + 32])
         == ByteSum(data[..i]) + Total(Load8(data, i)) + Total(Load8(data, i + 4))
                               + Total(Load8(data, i + 8)) + Total(Load8(data, i + 12))
  {
    hide ByteSum, Load4, Total;
    Load4Total(data, i);
    Load4Total(data, i + 4);
    Load4Total(data, i + 8);
    Load4Total(data, i + 12);
    Load4Total(data, i + 16);
    Load4Total(data, i + 20);
    Load4Total(data, i + 24);
    Load4Total(data, i + 28);
    TotalConcat(Load4(data, i), Load4(data, i + 16));
    TotalConcat(Load4(data, i + 4), Load4(data, i + 20));
    TotalConcat(Load4(data, i + 8), Load4(data, i + 24));
    TotalConcat(Load4(data, i + 12), Load4(data, i + 28));
  }

  lemma {:induction false} Lanes8Total(data: seq<Byte>, i: nat)
    requires i <= |data| && i % 32 == 0
    ensures Total(Lanes8(data, i)) == ByteSum(data[..i])
  {
    hide ByteSum, Load8, AddWide, Total;
    if i >= 32 {
      var j := i - 32;
      Lanes8Total(data, j);
      var v0 := Lanes8(data, j);
      var v1 := AddWide(v0, Load8(data, j));
      var v2 := AddWide(v1, Load8(data, j + 4));
      var v3 := AddWide(v2, Load8(data, j + 8));
      AddWideTotal(v0, Load8(data, j));
      AddWideTotal(v1, Load8(data, j + 4));
      AddWideTotal(v2, Load8(data, j + 8));
      AddWideTotal(v3, Load8(data, j + 12));
      Load8Totals(data, j);
    } else {
      ZeroLanes();
      assert data[..0] == [];
    }
  }

  /** The four vectors added for one 32-byte chunk. */
  lemma {:induction false} Unpacked(data: seq<Byte>, i: nat)
    requires i + 32 <= |data|
    ensures var low, high := Load16(data, i), Load16(data, i + 16);
            var first, second := Set128(UnpackLow(high), UnpackLow(low)), Set128(UnpackHigh(high), UnpackHigh(low));
            && |first| == |second| == 16
            && UnpackLow256(first) == Load8(data, i) && UnpackHigh256(first) == Load8(data, i + 4)
            && UnpackLow256(second) == Load8(data, i + 8) && UnpackHigh256(second) == Load8(data, i + 12)
  {
    hide Load16, Load4;
    var low, high := Load16(data, i), Load16(data, i + 16);
    Quarters(data, i);
    Quarters(data, i + 16);
    var first, second := Low(low) + Low(high), High(low) + High(high);
    assert first[..4] == Low(Low(low)) && first[4..8] == High(Low(low));
    assert first[8..12] == Low(Low(high)) && first[12..] == High(Low(high));
    assert second[..4] == Low(High(low)) && second[4..8] == High(High(low));
    assert second[8..12] == Low(High(high)) && second[12..] == High(High(high));
  }

  lemma {:induction false} Avx2Chunk(data: seq<Byte>, i: nat)
    requires i + 32 <= |data|
    ensures AddLanes(AddLanes(AddLanes(AddLanes(Wrapped(Lanes8(data, i)), Load8(data, i)), Load8(data, i + 4)),
                              Load8(data, i + 8)), Load8(data, i + 12))
         == Wrapped(Lanes8(data, i + 32))
  {
    hide Load8, AddLanes, AddWide;
    var v0 := Lanes8(data, i);
    var v1 := AddWide(v0, Load8(data, i));
    var v2 := AddWide(v1, Load8(data, i + 4));
    var v3 := AddWide(v2, Load8(data, i + 8));
    AddLanesWraps(v0, Load8(data, i));
    AddLanesWraps(v1, Load8(data, i + 4));
    AddLanesWraps(v2, Load8(data, i + 8));
    AddLanesWraps(v3, Load8(data, i + 12));
  }

  method AccumulateAvx2(data: seq<Byte>) returns (sum: Lanes, i: nat)
    ensures i == |data| - |data| % 32
    ensures sum == Wrapped(Lanes8(data, i))
  {
    hide AddLanes, UnpackLow256, UnpackHigh256, Lanes8, Wrapped, Load8, Load16;
    sum, i := [0, 0, 0, 0, 0, 0, 0, 0], 0;
    NoBytes(data);
    while i + 32 <= |data|
      invariant 0 <= i <= |data| && i % 32 == 0
      invariant sum == Wrapped(Lanes8(data, i))
    {
      var low := Load16(data, i);
      var high := Load16(data, i + 16);
      Unpacked(data, i);
      Avx2Chunk(data, i);
      var lowLow := UnpackLow(low);
      var lowHigh := UnpackHigh(low);
      var highLow := UnpackLow(high);
      var highHigh := UnpackHigh(high);
      var combinedLow := Set128(highLow, lowLow);
      var combinedHigh := Set128(highHigh, lowHigh);
      var wideLow := UnpackLow256(combinedLow);
      var wideHigh := UnpackHigh256(combinedLow);
      sum := AddLanes(sum, wideLow);
      sum := AddLanes(sum, wideHigh);
      var wideLow2 := UnpackLow256(combinedHigh);
      var wideHigh2 := UnpackHigh256(combinedHigh);
      sum := AddLanes(sum, wideLow2);
      sum := AddLanes(sum, wideHigh2);
      i := i + 32;
    }
  }

  method CalculateChecksumAvx2(data: seq<Byte>) returns (result: Byte)
    ensures result == Scalar(data)
  {
    hide Mod256, LowByte, Wrapped, Lanes8, Total, HorizontalSum;
    var sum, i := AccumulateAvx2(data);
    Lanes8Total(data, i);
    WrappedTotal(Lanes8(data, i));
    HorizontalSumTotal(sum);
    LowByteNumber(HorizontalSum(sum));
    result := LowByte(HorizontalSum(sum));
    result := AddTail(data, i, result);
  }

  // ---------------------------------------------------------------- dispatch

  datatype Features = Features(aarch64: bool, x86: bool, neon: bool, sse2: bool, avx2: bool)

  /** Whatever the processor offers and however long the input, the scalar checksum. */
  method CalculateChecksumOptimized(data: seq<Byte>, f: Features) returns (result: Byte)
    ensures result == Scalar(data)
  {
    if f.aarch64 {
      if f.neon && |data| >= 16 {
        result := CalculateChecksumNeon(data);
        return;
      }
    }
    if f.x86 {
      if f.avx2 && |data| >= 32 {
        result := CalculateChecksumAvx2(data);
        return;
      } else if f.sse2 && |data| >= 16 {
        result := CalculateChecksumSse2(data);
        return;
      }
    }
    result := Scalar(data);
  }
}
