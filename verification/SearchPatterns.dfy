/** Enumeration of secondary-address search patterns with backtracking in place
    (src/mbus/secondary_addressing.rs). */
module SearchPatterns {
  import opened Casts
  import D = Digits

  /** Eight bytes, two nibbles each. */
  type Pattern = p: seq<Byte> | |p| == 8 witness [0, 0, 0, 0, 0, 0, 0, 0]

  const MAX_DEPTH := 8

  // ---------------------------------------------------------------- nibbles

  predicate IsNibble(v: Byte) { v <= 0x0F }

  function WithHigh(original: Byte, v: Byte): Byte { (v << 4) | (original & 0x0F) }

  function WithLow(original: Byte, v: Byte): Byte { (original & 0xF0) | v }

  function High(b: Byte): Byte { b >> 4 }

  function Low(b: Byte): Byte { b & 0x0F }

  function SetNibble(p: Pattern, position: nat, v: Byte): Pattern
    requires position < 16
  {
    var original := p[position / 2];
    p[position / 2 := if position % 2 == 0 then WithHigh(original, v) else WithLow(original, v)]
  }

  function NibbleAt(p: Pattern, position: nat): Byte
    requires position < 16
  {
    if position % 2 == 0 then High(p[position / 2]) else Low(p[position / 2])
  }

  lemma {:induction false} Halves(original: Byte, v: Byte)
    requires IsNibble(v)
    ensures High(WithHigh(original, v)) == v && Low(WithHigh(original, v)) == Low(original)
    ensures Low(WithLow(original, v)) == v && High(WithLow(original, v)) == High(original)
  {
  }

  lemma {:induction false} SetOneNibble(p: Pattern, position: nat, v: Byte, q: nat)
    requires position < 16 && q < 16 && IsNibble(v)
    ensures NibbleAt(SetNibble(p, position, v), q) == if q == position then v else NibbleAt(p, q)
  {
    hide WithHigh, WithLow, High, Low, IsNibble;
    Halves(p[position / 2], v);
  }

  lemma {:induction false} SameHalves(a: Byte, b: Byte)
    requires High(a) == High(b) && Low(a) == Low(b)
    ensures a == b
  {
  }

  lemma {:induction false} SamePattern(p: Pattern, q: Pattern)
    requires forall k | 0 <= k < 16 :: NibbleAt(p, k) == NibbleAt(q, k)
    ensures p == q
  {
    hide High, Low;
    forall i | 0 <= i < 8 ensures p[i] == q[i] {
      assert NibbleAt(p, 2 * i) == NibbleAt(q, 2 * i);
      assert NibbleAt(p, 2 * i + 1) == NibbleAt(q, 2 * i + 1);
      SameHalves(p[i], q[i]);
    }
  }

  // ---------------------------------------------------------------- the search tree

  /** The patterns emitted from a position on: the pattern itself, then those with each value of
      the nibble at that position. */
  function Emitted(p: Pattern, position: nat, depth: nat): seq<Pattern>
    requires position <= depth <= MAX_DEPTH
    decreases depth - position, 17
  {
    if position == depth then [p] else [p] + EmittedFrom(p, position, depth, 0)
  }

  function EmittedFrom(p: Pattern, position: nat, depth: nat, n: nat): seq<Pattern>
    requires position < depth <= MAX_DEPTH && n <= 16
    decreases depth - position, 16 - n
  {
    if n == 16 then []
    else Emitted(SetNibble(p, position, Truncate(n)), position + 1, depth) + EmittedFrom(p, position, depth, n + 1)
  }

  lemma {:induction false} EmittedStep(p: Pattern, position: nat, depth: nat)
    requires position <= depth <= MAX_DEPTH
    ensures Emitted(p, position, depth)
         == [p] + if position == depth then [] else EmittedFrom(p, position, depth, 0)
  {
  }

  lemma {:induction false} EmittedFromStep(p: Pattern, position: nat, depth: nat, n: nat)
    requires position < depth <= MAX_DEPTH && n <= 16
    ensures EmittedFrom(p, position, depth, n)
         == if n == 16 then []
            else Emitted(SetNibble(p, position, Truncate(n)), position + 1, depth)
                 + EmittedFrom(p, position, depth, n + 1)
  {
  }

  lemma {:induction false} EmittedBranch(p: Pattern, position: nat, depth: nat, n: nat, before: seq<Pattern>)
    requires position < depth <= MAX_DEPTH && n < 16
    ensures var q := SetNibble(p, position, Truncate(n));
            && before + EmittedFrom(p, position, depth, n)
               == before + Emitted(q, position + 1, depth) + EmittedFrom(p, position, depth, n + 1)
            && (position + 1 == depth ==> Emitted(q, position + 1, depth) == [q])
  {
    hide SetNibble, Truncate, Emitted, EmittedFrom;
    EmittedFromStep(p, position, depth, n);
    EmittedStep(SetNibble(p, position, Truncate(n)), position + 1, depth);
  }

  lemma {:induction false} SetNibbleIs(p: Pattern, position: nat, v: Byte)
    requires position < 16
    ensures SetNibble(p, position, v)
         == p[position / 2 := if position % 2 == 0 then WithHigh(p[position / 2], v) else WithLow(p[position / 2], v)]
  {
  }

  class WildcardSearchManager {
    var maxDepth: nat

    ghost predicate Valid()
      reads this
    {
      maxDepth <= MAX_DEPTH
    }

    constructor ()
      ensures Valid() && maxDepth == 8
    {
      maxDepth := 8;
    }

    method WithMaxDepth(depth: nat)
      modifies this
      ensures Valid() && maxDepth == if depth < 8 then depth else 8
    {
      maxDepth := if depth < 8 then depth else 8;
    }

    method GenerateSearchPatterns() returns (patterns: seq<Pattern>)
      requires Valid()
      ensures patterns == Emitted(BASE_PATTERN, 0, maxDepth)
    {
      var pattern := new Byte[8](_ => 0x0F);
      assert pattern[..] == BASE_PATTERN;
      patterns := GeneratePatternsRecursive(pattern, 0, []);
    }

    /** The shared array is restored before every return. */
    method GeneratePatternsRecursive(pattern: array<Byte>, position: nat, patterns: seq<Pattern>)
      returns (extended: seq<Pattern>)
      requires Valid() && pattern.Length == 8 && position <= maxDepth
      modifies pattern
      ensures pattern[..] == old(pattern[..])
      ensures extended == patterns + Emitted(old(pattern[..]), position, maxDepth)
      decreases maxDepth - position
    {
      hide WithHigh, WithLow, SetNibble, Truncate, Emitted, EmittedFrom;
      ghost var start: Pattern := pattern[..];
      EmittedStep(start, position, maxDepth);
      extended := patterns + [pattern[..]];
      if position >= maxDepth {
        return;
      }
      var bytePos := position / 2;
      var original := pattern[bytePos];
      for nibble := 0 to 16
        invariant pattern[..] == start[bytePos := pattern[bytePos]]
        invariant extended + EmittedFrom(start, position, maxDepth, nibble)
               == patterns + Emitted(start, position, maxDepth)
      {
        var v := Truncate(nibble);
        pattern[bytePos] := if position % 2 == 0 then WithHigh(original, v) else WithLow(original, v);
        SetNibbleIs(start, position, v);
        assert pattern[..] == SetNibble(start, position, v);
        EmittedBranch(start, position, maxDepth, nibble, extended);
        if position + 1 < maxDepth {
          extended := GeneratePatternsRecursive(pattern, position + 1, extended);
        } else {
          extended := extended + [pattern[..]];
        }
      }
      EmittedFromStep(start, position, maxDepth, 16);
      pattern[bytePos] := original;
      assert pattern[..] == start;
    }
  }

  const BASE_PATTERN: Pattern := [0x0F, 0x0F, 0x0F, 0x0F, 0x0F, 0x0F, 0x0F, 0x0F]

  // ---------------------------------------------------------------- what is enumerated

  /** All strings of at most `n` nibbles, each before those it begins, in ascending order. */
  function Strings(n: nat): seq<seq<nat>>
    decreases n, 17
  {
    if n == 0 then [[]] else [[]] + StringsFrom(n, 0)
  }

  function StringsFrom(n: nat, first: nat): seq<seq<nat>>
    requires n > 0 && first <= 16
    decreases n, 16 - first
  {
    if first == 16 then [] else Prefixed(first, Strings(n - 1)) + StringsFrom(n, first + 1)
  }

  function Prefixed(v: nat, strings: seq<seq<nat>>): (r: seq<seq<nat>>)
    ensures |r| == |strings|
    ensures forall i | 0 <= i < |r| :: r[i] == [v] + strings[i]
  {
    if strings == [] then [] else [[v] + strings[0]] + Prefixed(v, strings[1..])
  }

  predicate IsString(s: seq<nat>) { forall i | 0 <= i < |s| :: s[i] < 16 }

  /** The pattern with the nibbles from a position on assigned from a string. */
  function Assigned(p: Pattern, position: nat, s: seq<nat>): Pattern
    requires position + |s| <= 16
    decreases |s|
  {
    if s == [] then p else Assigned(SetNibble(p, position, Truncate(s[0])), position + 1, s[1..])
  }

  predicate AllWithin(strings: seq<seq<nat>>, n: nat) {
    forall i | 0 <= i < |strings| :: |strings[i]| <= n
  }

  function AssignedAll(p: Pattern, position: nat, strings: seq<seq<nat>>, n: nat): (r: seq<Pattern>)
    requires position + n <= 16 && AllWithin(strings, n)
    ensures |r| == |strings|
    ensures forall i | 0 <= i < |r| :: r[i] == Assigned(p, position, strings[i])
  {
    seq(|strings|, i requires 0 <= i < |strings| => Assigned(p, position, strings[i]))
  }

  lemma {:induction false} StringsWithin(n: nat)
    ensures AllWithin(Strings(n), n)
    decreases n, 17
  {
    hide StringsFrom;
    if n > 0 {
      StringsFromWithin(n, 0);
    }
  }

  lemma {:induction false} StringsFromWithin(n: nat, first: nat)
    requires n > 0 && first <= 16
    ensures AllWithin(StringsFrom(n, first), n)
    decreases n, 16 - first
  {
    hide Strings, Prefixed, AllWithin;
    if first < 16 {
      StringsWithin(n - 1);
      PrefixedWithin(first, Strings(n - 1), n - 1);
      StringsFromWithin(n, first + 1);
      WithinConcat(Prefixed(first, Strings(n - 1)), StringsFrom(n, first + 1), n);
    } else {
      NothingWithin(n);
    }
  }

  lemma {:induction false} NothingWithin(n: nat)
    ensures AllWithin([], n)
  {
  }

  lemma {:induction false} WithinConcat(a: seq<seq<nat>>, b: seq<seq<nat>>, n: nat)
    requires AllWithin(a, n) && AllWithin(b, n)
    ensures AllWithin(a + b, n)
  {
  }

  lemma {:induction false} PrefixedWithin(v: nat, strings: seq<seq<nat>>, n: nat)
    requires AllWithin(strings, n)
    ensures AllWithin(Prefixed(v, strings), n + 1)
  {
  }

  /** The generator emits one pattern per nibble string, in the order of the strings. */
  lemma {:induction false} EmittedAreAssigned(p: Pattern, position: nat, depth: nat)
    requires position <= depth <= MAX_DEPTH
    ensures AllWithin(Strings(depth - position), depth - position)
    ensures Emitted(p, position, depth) == AssignedAll(p, position, Strings(depth - position), depth - position)
    decreases depth - position, 17
  {
    hide SetNibble, AssignedAll, StringsFrom, EmittedFrom, AllWithin;
    StringsWithin(depth - position);
    AssignedNothing(p, position, depth - position);
    if position < depth {
      var n := depth - position;
      EmittedFromAreAssigned(p, position, depth, 0);
      AssignedConcat(p, position, [[]], StringsFrom(n, 0), n);
    }
  }

  lemma {:induction false} AssignedNothing(p: Pattern, position: nat, n: nat)
    requires position + n <= 16
    ensures AllWithin([[]], n) && AssignedAll(p, position, [[]], n) == [p]
  {
  }

  lemma {:induction false} EmittedFromAreAssigned(p: Pattern, position: nat, depth: nat, first: nat)
    requires position < depth <= MAX_DEPTH && first <= 16
    ensures AllWithin(StringsFrom(depth - position, first), depth - position)
    ensures EmittedFrom(p, position, depth, first)
         == AssignedAll(p, position, StringsFrom(depth - position, first), depth - position)
    decreases depth - position, 16 - first
  {
    hide SetNibble, AssignedAll, Strings, Emitted, Prefixed, AllWithin;
    var n := depth - position;
    StringsFromWithin(n, first);
    if first < 16 {
      EmittedFromAreAssigned(p, position, depth, first + 1);
      EmittedAreAssigned(SetNibble(p, position, Truncate(first)), position + 1, depth);
      AssignedBelow(p, position, first, Strings(n - 1), n);
      AssignedConcat(p, position, Prefixed(first, Strings(n - 1)), StringsFrom(n, first + 1), n);
    } else {
      AssignedNone(p, position, n);
    }
  }

  lemma {:induction false} AssignedNone(p: Pattern, position: nat, n: nat)
    requires position + n <= 16
    ensures AllWithin([], n) && AssignedAll(p, position, [], n) == []
  {
  }

  lemma {:induction false} AssignedConcat(p: Pattern, position: nat, a: seq<seq<nat>>, b: seq<seq<nat>>, n: nat)
    requires position + n <= 16 && AllWithin(a, n) && AllWithin(b, n)
    ensures AllWithin(a + b, n)
    ensures AssignedAll(p, position, a + b, n) == AssignedAll(p, position, a, n) + AssignedAll(p, position, b, n)
  {
    hide Assigned;
  }

  lemma {:induction false} AssignedBelow(p: Pattern, position: nat, v: nat, strings: seq<seq<nat>>, n: nat)
    requires n > 0 && position + n <= 16 && AllWithin(strings, n - 1)
    ensures AllWithin(Prefixed(v, strings), n)
    ensures AssignedAll(SetNibble(p, position, Truncate(v)), position + 1, strings, n - 1)
         == AssignedAll(p, position, Prefixed(v, strings), n)
  {
    hide SetNibble;
    var a := AssignedAll(SetNibble(p, position, Truncate(v)), position + 1, strings, n - 1);
    var b := AssignedAll(p, position, Prefixed(v, strings), n);
    forall i | 0 <= i < |a| ensures a[i] == b[i] {
      assert ([v] + strings[i])[1..] == strings[i];
    }
  }

  // ---------------------------------------------------------------- the strings

  function Pow16(n: nat): nat { if n == 0 then 1 else 16 * Pow16(n - 1) }

  /** Their number is (16^(n+1) - 1) / 15. */
  lemma {:induction false} StringsCount(n: nat)
    ensures 15 * |Strings(n)| + 1 == Pow16(n + 1)
    decreases n, 17
  {
    if n > 0 {
      StringsFromCount(n, 0);
    } else {
      assert Pow16(1) == 16;
    }
  }

  lemma {:induction false} StringsFromCount(n: nat, first: nat)
    requires n > 0 && first <= 16
    ensures 15 * |StringsFrom(n, first)| + (16 - first) == (16 - first) * Pow16(n)
    decreases n, 16 - first
  {
    hide Pow16;
    if first < 16 {
      StringsCount(n - 1);
      StringsFromCount(n, first + 1);
      assert (16 - first) * Pow16(n) == (15 - first) * Pow16(n) + Pow16(n);
    }
  }

  /** Every string of at most `n` nibbles is listed, and nothing else. */
  lemma {:induction false} StringsAreAll(n: nat, s: seq<nat>)
    ensures s in Strings(n) <==> |s| <= n && IsString(s)
    decreases n, 17
  {
    if n > 0 {
      StringsFromAreAll(n, 0, s);
      assert s in Strings(n) <==> s == [] || s in StringsFrom(n, 0);
    }
  }

  lemma {:induction false} StringsFromAreAll(n: nat, first: nat, s: seq<nat>)
    requires n > 0 && first <= 16
    ensures s in StringsFrom(n, first) <==> 1 <= |s| <= n && IsString(s) && first <= s[0]
    decreases n, 16 - first
  {
    hide Strings, Prefixed, IsString;
    if s != [] { StringTail(s); }
    if first < 16 {
      StringsFromAreAll(n, first + 1, s);
      PrefixedHas(first, Strings(n - 1), s);
      if s != [] {
        StringsAreAll(n - 1, s[1..]);
        StringTail(s);
      }
    }
  }

  lemma {:induction false} StringTail(s: seq<nat>)
    requires s != []
    ensures IsString(s) <==> s[0] < 16 && IsString(s[1..])
  {
    assert s == [s[0]] + s[1..];
  }

  lemma {:induction false} PrefixedHas(v: nat, strings: seq<seq<nat>>, s: seq<nat>)
    ensures s in Prefixed(v, strings) <==> s != [] && s[0] == v && s[1..] in strings
  {
    var p := Prefixed(v, strings);
    if s != [] && s[0] == v && s[1..] in strings {
      var i :| 0 <= i < |strings| && strings[i] == s[1..];
      assert p[i] == [s[0]] + s[1..] == s;
    }
    if s in p {
      var i :| 0 <= i < |p| && p[i] == s;
      assert s[1..] == strings[i];
    }
  }

  /** Lexicographic order: a string comes before those it begins. */
  predicate Before(s: seq<nat>, t: seq<nat>) {
    t != [] && (s == [] || s[0] < t[0] || (s[0] == t[0] && Before(s[1..], t[1..])))
  }

  lemma {:induction false} BeforeDiffers(s: seq<nat>)
    ensures !Before(s, s)
  {
    if s != [] {
      BeforeDiffers(s[1..]);
    }
  }

  predicate Ascend(strings: seq<seq<nat>>) {
    forall i, j | 0 <= i < j < |strings| :: Before(strings[i], strings[j])
  }

  /** The strings are listed in strictly ascending lexicographic order. */
  lemma {:induction false} StringsAscend(n: nat)
    ensures Ascend(Strings(n))
    decreases n, 17
  {
    hide StringsFrom, Ascend;
    if n == 0 {
      OneAscends();
    } else {
      StringsFromAscend(n, 0);
      OneAscends();
      forall t | t in StringsFrom(n, 0) ensures Before([], t) {
        StringsFromAreAll(n, 0, t);
      }
      AscendConcat([[]], StringsFrom(n, 0));
    }
  }

  lemma {:induction false} OneAscends()
    ensures Ascend([[]]) && Ascend([])
  {
  }

  lemma {:induction false} StringsFromAscend(n: nat, first: nat)
    requires n > 0 && first <= 16
    ensures Ascend(StringsFrom(n, first))
    decreases n, 16 - first
  {
    hide Ascend, Strings, IsString, Prefixed;
    OneAscends();
    if first < 16 {
      StringsAscend(n - 1);
      StringsFromAscend(n, first + 1);
      var a, b := Prefixed(first, Strings(n - 1)), StringsFrom(n, first + 1);
      PrefixedAscend(first, Strings(n - 1));
      forall s, t | s in a && t in b ensures Before(s, t) {
        PrefixedHas(first, Strings(n - 1), s);
        StringsFromAreAll(n, first + 1, t);
      }
      AscendConcat(a, b);
    }
  }

  lemma {:induction false} PrefixedAscend(v: nat, strings: seq<seq<nat>>)
    requires Ascend(strings)
    ensures Ascend(Prefixed(v, strings))
  {
    var a := Prefixed(v, strings);
    forall i, j | 0 <= i < j < |a| ensures Before(a[i], a[j]) {
      assert a[i][1..] == strings[i] && a[j][1..] == strings[j];
    }
  }

  lemma {:induction false} AscendConcat(a: seq<seq<nat>>, b: seq<seq<nat>>)
    requires Ascend(a) && Ascend(b)
    requires forall s, t | s in a && t in b :: Before(s, t)
    ensures Ascend(a + b)
  {
    hide Before;
    forall i, j | 0 <= i < j < |a + b| ensures Before((a + b)[i], (a + b)[j]) {
      if i < |a| <= j {
        assert a[i] in a && b[j - |a|] in b;
      }
    }
  }

  // ---------------------------------------------------------------- the patterns

  lemma {:induction false} NibbleValue(v: nat)
    requires v < 16
    ensures IsNibble(Truncate(v)) && Number(Truncate(v)) == v
  {
    TruncateSmall(v);
  }

  /** An assigned pattern has the string's nibbles in place, and all others as they were. */
  lemma {:induction false} AssignedNibbles(p: Pattern, position: nat, s: seq<nat>, q: nat)
    requires position + |s| <= 16 && IsString(s) && q < 16
    ensures NibbleAt(Assigned(p, position, s), q)
         == if position <= q < position + |s| then Truncate(s[q - position]) else NibbleAt(p, q)
    decreases |s|
  {
    hide SetNibble, NibbleAt, IsNibble;
    if s != [] {
      NibbleValue(s[0]);
      SetOneNibble(p, position, Truncate(s[0]), q);
      AssignedNibbles(SetNibble(p, position, Truncate(s[0])), position + 1, s[1..], q);
    }
  }

  /** Strings of one length give different patterns. */
  lemma {:induction false} AssignedInjective(p: Pattern, position: nat, s: seq<nat>, t: seq<nat>)
    requires position + |s| <= 16 && |s| == |t| && IsString(s) && IsString(t)
    requires Assigned(p, position, s) == Assigned(p, position, t)
    ensures s == t
  {
    hide NibbleAt;
    forall i | 0 <= i < |s| ensures s[i] == t[i] {
      AssignedNibbles(p, position, s, position + i);
      AssignedNibbles(p, position, t, position + i);
      NibbleValue(s[i]);
      NibbleValue(t[i]);
    }
  }

  // ---------------------------------------------------------------- main results

  function Patterns(depth: nat): seq<Pattern>
    requires depth <= MAX_DEPTH
  {
    Emitted(BASE_PATTERN, 0, depth)
  }

  /** The generator emits (16^(depth+1) - 1) / 15 patterns. */
  lemma {:induction false} PatternCount(depth: nat)
    requires depth <= MAX_DEPTH
    ensures 15 * |Patterns(depth)| + 1 == Pow16(depth + 1)
  {
    hide Emitted;
    EmittedAreAssigned(BASE_PATTERN, 0, depth);
    StringsCount(depth);
  }

  /** Position `i` of the output is the pattern of the `i`-th string: its nibbles first, two a byte
      and the upper one first, and those of bytes 0x0F after them. */
  lemma {:induction false} PatternAt(depth: nat, i: nat, q: nat)
    requires depth <= MAX_DEPTH && i < |Patterns(depth)| && q < 16
    ensures i < |Strings(depth)|
    ensures var s, b := Strings(depth)[i], Number(Patterns(depth)[i][q / 2]);
            && |s| <= depth && IsString(s)
            && (if q % 2 == 0 then b / 16 else b % 16) == if q < |s| then s[q] else if q % 2 == 0 then 0 else 15
  {
    hide Emitted, Strings, Assigned, Number;
    EmittedAreAssigned(BASE_PATTERN, 0, depth);
    var s, p := Strings(depth)[i], Patterns(depth)[i];
    StringsAreAll(depth, s);
    AssignedNibbles(BASE_PATTERN, 0, s, q);
    D.HalvesAre(p[q / 2]);
    D.HalvesAre(0x0F);
    FifteenIs();
    if q < |s| {
      NibbleValue(s[q]);
    }
    assert NibbleAt(p, q) == if q % 2 == 0 then D.Upper(p[q / 2]) else D.Lower(p[q / 2]);
    assert NibbleAt(BASE_PATTERN, q) == if q % 2 == 0 then D.Upper(0x0F) else D.Lower(0x0F);
  }

  lemma {:induction false} FifteenIs()
    ensures Number(0x0F) == 15
  {
  }

  /** Every assignment of the first `depth` nibbles is listed exactly once among the leaves. */
  lemma {:induction false} LeavesAreAllAssignments(depth: nat, s: seq<nat>)
    requires depth <= MAX_DEPTH && |s| == depth && IsString(s)
    ensures |Patterns(depth)| == |Strings(depth)|
    ensures exists i | 0 <= i < |Strings(depth)| ::
              Strings(depth)[i] == s && Patterns(depth)[i] == Assigned(BASE_PATTERN, 0, s)
    ensures forall i, j | 0 <= i < j < |Strings(depth)| && |Strings(depth)[i]| == |Strings(depth)[j]| == depth ::
              Patterns(depth)[i] != Patterns(depth)[j]
  {
    hide Emitted, Assigned, Strings, IsString;
    EmittedAreAssigned(BASE_PATTERN, 0, depth);
    StringsAreAll(depth, s);
    StringsAscend(depth);
    var i :| 0 <= i < |Strings(depth)| && Strings(depth)[i] == s;
    assert Patterns(depth)[i] == Assigned(BASE_PATTERN, 0, s);
    forall i, j | 0 <= i < j < |Strings(depth)| && |Strings(depth)[i]| == |Strings(depth)[j]| == depth
      ensures Patterns(depth)[i] != Patterns(depth)[j]
    {
      StringsAreAll(depth, Strings(depth)[i]);
      StringsAreAll(depth, Strings(depth)[j]);
      BeforeDiffers(Strings(depth)[i]);
      if Patterns(depth)[i] == Patterns(depth)[j] {
        AssignedInjective(BASE_PATTERN, 0, Strings(depth)[i], Strings(depth)[j]);
      }
    }
  }

  lemma {:induction false} ByteNibbles(b: Byte)
    ensures Number(High(b)) < 16 && Number(Low(b)) < 16
  {
  }

  /** The string completed with the nibbles that the base pattern has there. */
  function Completed(s: seq<nat>, depth: nat): (t: seq<nat>)
    requires |s| <= depth <= MAX_DEPTH
    ensures |t| == depth
    ensures forall k | 0 <= k < depth :: t[k] == if k < |s| then s[k] else Number(NibbleAt(BASE_PATTERN, k))
  {
    seq(depth, k requires 0 <= k < depth => if k < |s| then s[k] else Number(NibbleAt(BASE_PATTERN, k)))
  }

  lemma {:induction false} CompletedSame(s: seq<nat>, depth: nat)
    requires |s| <= depth <= MAX_DEPTH && IsString(s)
    ensures IsString(Completed(s, depth))
    ensures Assigned(BASE_PATTERN, 0, s) == Assigned(BASE_PATTERN, 0, Completed(s, depth))
  {
    hide High, Low, Assigned, Number;
    var t := Completed(s, depth);
    forall k | 0 <= k < depth ensures t[k] < 16 {
      ByteNibbles(BASE_PATTERN[k / 2]);
    }
    forall q | 0 <= q < 16
      ensures NibbleAt(Assigned(BASE_PATTERN, 0, s), q) == NibbleAt(Assigned(BASE_PATTERN, 0, t), q)
    {
      AssignedNibbles(BASE_PATTERN, 0, s, q);
      AssignedNibbles(BASE_PATTERN, 0, t, q);
      TruncateNumber(NibbleAt(BASE_PATTERN, q));
    }
    SamePattern(Assigned(BASE_PATTERN, 0, s), Assigned(BASE_PATTERN, 0, t));
  }

  /** The wildcard byte 0x0F is an ordinary nibble pair, so every pattern of the output is also
      one of the 16^depth leaves: inner nodes of the tree add nothing but repetitions. */
  lemma {:induction false} EveryPatternIsALeaf(depth: nat, i: nat) returns (j: nat)
    requires depth <= MAX_DEPTH && i < |Patterns(depth)|
    ensures j < |Strings(depth)| == |Patterns(depth)|
    ensures |Strings(depth)[j]| == depth && Patterns(depth)[j] == Patterns(depth)[i]
  {
    hide Emitted, Assigned, Strings, IsString;
    EmittedAreAssigned(BASE_PATTERN, 0, depth);
    var s := Strings(depth)[i];
    StringsAreAll(depth, s);
    CompletedSame(s, depth);
    StringsAreAll(depth, Completed(s, depth));
    j :| 0 <= j < |Strings(depth)| && Strings(depth)[j] == Completed(s, depth);
  }

  // ---------------------------------------------------------------- how many differ

  function SetOf(ps: seq<Pattern>): set<Pattern> { set p | p in ps }

  lemma {:induction false} SetOfConcat(a: seq<Pattern>, b: seq<Pattern>)
    ensures SetOf(a + b) == SetOf(a) + SetOf(b)
  {
  }

  /** Patterns emitted from a position on keep the nibbles before it. */
  lemma {:induction false} KeepsBefore(p: Pattern, position: nat, depth: nat, q: Pattern, k: nat)
    requires position <= depth <= MAX_DEPTH && q in Emitted(p, position, depth) && k < position
    ensures NibbleAt(q, k) == NibbleAt(p, k)
    decreases depth - position, 17
  {
    hide NibbleAt;
    if position < depth && q != p {
      var v := KeepsBeforeFrom(p, position, depth, 0, q, k);
    }
  }

  /** Those that start with a value at the position have it there. */
  lemma {:induction false} KeepsBeforeFrom(p: Pattern, position: nat, depth: nat, n: nat, q: Pattern, k: nat)
    returns (v: nat)
    requires position < depth <= MAX_DEPTH && n <= 16 && q in EmittedFrom(p, position, depth, n) && k <= position
    ensures n <= v < 16 && NibbleAt(q, position) == Truncate(v)
    ensures k < position ==> NibbleAt(q, k) == NibbleAt(p, k)
    decreases depth - position, 16 - n
  {
    hide NibbleAt, SetNibble, Emitted, EmittedFrom, IsNibble;
    EmittedFromStep(p, position, depth, n);
    if n < 16 {
      var next := SetNibble(p, position, Truncate(n));
      if q in Emitted(next, position + 1, depth) {
        NibbleValue(n);
        KeepsBefore(next, position + 1, depth, q, position);
        KeepsBefore(next, position + 1, depth, q, k);
        SetOneNibble(p, position, Truncate(n), position);
        SetOneNibble(p, position, Truncate(n), k);
        v := n;
      } else {
        v := KeepsBeforeFrom(p, position, depth, n + 1, q, k);
      }
    } else {
      assert false;
    }
  }

  lemma {:induction false} NibbleIsSmall(p: Pattern, position: nat)
    requires position < 16
    ensures Number(NibbleAt(p, position)) < 16
  {
    hide High, Low, Number;
    ByteNibbles(p[position / 2]);
  }

  /** Setting a nibble to what it is changes nothing. */
  lemma {:induction false} SetToItself(p: Pattern, position: nat) returns (v: nat)
    requires position < 16
    ensures v < 16 && SetNibble(p, position, Truncate(v)) == p
  {
    hide NibbleAt, SetNibble, Number, IsNibble;
    v := Number(NibbleAt(p, position));
    NibbleIsSmall(p, position);
    NibbleValue(v);
    TruncateNumber(NibbleAt(p, position));
    forall k | 0 <= k < 16 ensures NibbleAt(SetNibble(p, position, Truncate(v)), k) == NibbleAt(p, k) {
      SetOneNibble(p, position, Truncate(v), k);
    }
    SamePattern(SetNibble(p, position, Truncate(v)), p);
  }

  lemma {:induction false} RootIsEmitted(p: Pattern, position: nat, depth: nat)
    requires position <= depth <= MAX_DEPTH
    ensures p in Emitted(p, position, depth)
  {
    assert Emitted(p, position, depth)[0] == p;
  }

  lemma {:induction false} BranchIsEmitted(p: Pattern, position: nat, depth: nat, n: nat, v: nat)
    requires position < depth <= MAX_DEPTH && n <= v < 16
    ensures SetNibble(p, position, Truncate(v)) in EmittedFrom(p, position, depth, n)
    decreases v - n
  {
    hide SetNibble, Truncate, Emitted, EmittedFrom;
    EmittedFromStep(p, position, depth, n);
    if n == v {
      RootIsEmitted(SetNibble(p, position, Truncate(v)), position + 1, depth);
    } else {
      BranchIsEmitted(p, position, depth, n + 1, v);
    }
  }

  /** The inner node is one of its own branches, so only the branches count. */
  lemma {:induction false} DifferentFrom(p: Pattern, position: nat, depth: nat)
    requires position <= depth <= MAX_DEPTH
    ensures |SetOf(Emitted(p, position, depth))| == Pow16(depth - position)
    decreases depth - position, 17
  {
    hide SetNibble, Truncate, Emitted, EmittedFrom;
    EmittedStep(p, position, depth);
    if position == depth {
      assert [p] + [] == [p] && SetOf([p]) == {p};
    } else {
      var v := SetToItself(p, position);
      BranchIsEmitted(p, position, depth, 0, v);
      var later := EmittedFrom(p, position, depth, 0);
      assert SetOf([p] + later) == SetOf(later);
      DifferentBranches(p, position, depth, 0);
    }
  }

  lemma {:induction false} DifferentBranches(p: Pattern, position: nat, depth: nat, n: nat)
    requires position < depth <= MAX_DEPTH && n <= 16
    ensures |SetOf(EmittedFrom(p, position, depth, n))| == (16 - n) * Pow16(depth - position - 1)
    decreases depth - position, 16 - n
  {
    hide SetNibble, Truncate, Emitted, EmittedFrom, NibbleAt, Pow16;
    EmittedFromStep(p, position, depth, n);
    if n < 16 {
      var next := SetNibble(p, position, Truncate(n));
      var a, b := Emitted(next, position + 1, depth), EmittedFrom(p, position, depth, n + 1);
      SetOfConcat(a, b);
      DifferentFrom(next, position + 1, depth);
      DifferentBranches(p, position, depth, n + 1);
      forall q | q in a ensures q !in b {
        BranchesApart(p, position, depth, n, q);
      }
      assert SetOf(a) !! SetOf(b);
      var each := Pow16(depth - position - 1);
      assert (16 - n) * each == (15 - n) * each + each;
    }
  }

  lemma {:induction false} BranchesApart(p: Pattern, position: nat, depth: nat, n: nat, q: Pattern)
    requires position < depth <= MAX_DEPTH && n < 16
    requires q in Emitted(SetNibble(p, position, Truncate(n)), position + 1, depth)
    ensures q !in EmittedFrom(p, position, depth, n + 1)
  {
    hide SetNibble, Emitted, EmittedFrom, NibbleAt, IsNibble;
    var next := SetNibble(p, position, Truncate(n));
    NibbleValue(n);
    KeepsBefore(next, position + 1, depth, q, position);
    SetOneNibble(p, position, Truncate(n), position);
    if q in EmittedFrom(p, position, depth, n + 1) {
      var v := KeepsBeforeFrom(p, position, depth, n + 1, q, position);
      NibbleValue(v);
    }
  }

  /** Of the patterns emitted at depth d, only 16^d differ. */
  lemma {:induction false} DistinctPatternCount(depth: nat)
    requires depth <= MAX_DEPTH
    ensures |SetOf(Patterns(depth))| == Pow16(depth)
  {
    hide Emitted;
    DifferentFrom(BASE_PATTERN, 0, depth);
  }
}
