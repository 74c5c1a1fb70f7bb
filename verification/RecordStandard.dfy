/** The record parser in the terms of EN 13757-3: extension bits, data lengths and variable
    lengths as numbers. */
module RecordStandard {
  import opened Wrappers
  import opened Casts
  import opened Digits
  import opened Records
  import opened RecordEncoding
  import opened RecordWalk

  // ---------------------------------------------------------------- bits as numbers

  lemma {:induction false} ExtensionIs(b: Byte)
    ensures HasExtension(b) <==> Number(b) >= 128
  {
  }

  lemma {:induction false} PlainTextIs(vif: Byte)
    ensures IsPlainTextVif(vif) <==> vif == 0x7C || vif == 0xFC
  {
  }

  lemma {:induction false} NibbleNumbers()
    ensures Number(0) == 0 && Number(1) == 1 && Number(2) == 2 && Number(3) == 3
    ensures Number(4) == 4 && Number(5) == 5 && Number(6) == 6 && Number(7) == 7
    ensures Number(8) == 8 && Number(9) == 9 && Number(10) == 10 && Number(11) == 11
    ensures Number(12) == 12 && Number(13) == 13 && Number(14) == 14 && Number(15) == 15
  {
  }

  predicate IsNibble(b: Byte) {
    || b == 0 || b == 1 || b == 2 || b == 3 || b == 4 || b == 5 || b == 6 || b == 7
    || b == 8 || b == 9 || b == 10 || b == 11 || b == 12 || b == 13 || b == 14 || b == 15
  }

  lemma {:induction false} LowerIsNibble(b: Byte)
    ensures IsNibble(Lower(b))
  {
  }

  lemma {:induction false} SameLower(b: Byte)
    ensures Lower(b) == b & 0x0F
  {
  }

  /** The data field by the lower half of the DIF: 1 to 4 bytes of binary; 2, 4, 6 or 8 digits at
      two a byte; six bytes; eight bytes; none; or as many as a length byte says. */
  lemma {:induction false} DataLengthIs(dif: Byte)
    ensures var low := Number(dif) % 16;
            && (1 <= low <= 4 ==> DifDataLength(dif) == low)
            && (9 <= low <= 12 ==> 2 * DifDataLength(dif) == 2 * (low - 8))
            && (low == 5 || low == 14 ==> DifDataLength(dif) == 6)
            && (low == 6 || low == 15 ==> DifDataLength(dif) == 8)
            && (low == 0 || low == 7 || low == 8 ==> DifDataLength(dif) == 0)
    ensures IsVariableLength(dif) <==> Number(dif) % 16 == 13
  {
    hide Number, Lower;
    HalvesAre(dif);
    SameLower(dif);
    LowerIsNibble(dif);
    NibbleNumbers();
  }

  lemma {:induction false} VariableLengthIs(b: Byte)
    ensures var n := Number(b);
            && (n < 0xC0 ==> VariableDataLength(b) == Some(n))
            && (0xC0 <= n < 0xD0 ==> VariableDataLength(b) == Some(2 * (n % 16)))
            && (0xD0 <= n < 0xE0 ==> VariableDataLength(b) == Some(2 * (n % 16) + 1))
            && (0xE0 <= n < 0xF0 ==> VariableDataLength(b) == Some(64 + n % 16))
            && (0xF0 <= n <= 0xFA ==> VariableDataLength(b) == Some(1120 + n % 16))
            && (n > 0xFA ==> VariableDataLength(b) == None)
  {
  }

  // ---------------------------------------------------------------- what is well formed

  /** The extension bytes after a DIF or VIF: none, if its top bit is clear; otherwise up to and
      including the first without it, ten at most. */
  predicate Extends(b: Byte, chain: seq<Byte>) {
    if Number(b) < 128 then chain == []
    else
      && 1 <= |chain| <= 10
      && (forall i | 0 <= i < |chain| - 1 :: Number(chain[i]) >= 128)
      && (Number(chain[|chain| - 1]) < 128 || |chain| == 10)
  }

  predicate AllExtend(bytes: seq<Byte>) {
    forall i | 0 <= i < |bytes| :: Number(bytes[i]) >= 128
  }

  lemma {:induction false} AllExtendFirst(bytes: seq<Byte>)
    requires bytes != []
    ensures AllExtend(bytes) <==> Number(bytes[0]) >= 128 && AllExtend(bytes[1..])
  {
    hide Number;
    if Number(bytes[0]) >= 128 && AllExtend(bytes[1..]) {
      forall i | 0 <= i < |bytes| ensures Number(bytes[i]) >= 128 {
        if i > 0 { assert bytes[i] == bytes[1..][i - 1]; }
      }
    }
  }

  lemma {:induction false} ChainIsExtended(chain: seq<Byte>, limit: nat)
    requires limit > 0
    ensures IsChain(chain, limit) <==>
            && 1 <= |chain| <= limit
            && AllExtend(chain[..|chain| - 1])
            && (Number(chain[|chain| - 1]) < 128 || |chain| == limit)
    decreases limit
  {
    hide HasExtension, Number, AllExtend;
    if chain != [] {
      var later := chain[1..];
      ExtensionIs(chain[0]);
      if later == [] {
        NoneExtend();
        assert chain[..0] == [];
      } else {
        if limit > 1 { ChainIsExtended(later, limit - 1); }
        AllExtendFirst(chain[..|chain| - 1]);
        assert chain[..|chain| - 1][1..] == later[..|later| - 1];
      }
    }
  }

  lemma {:induction false} NoneExtend()
    ensures AllExtend([])
  {
  }

  lemma {:induction false} ExtendsIs(b: Byte, chain: seq<Byte>)
    ensures ChainAfter(b, chain) <==> Extends(b, chain)
  {
    hide HasExtension, Number, IsChain;
    ExtensionIs(b);
    ChainIsExtended(chain, 10);
    if chain != [] {
      var init := chain[..|chain| - 1];
      assert AllExtend(init) <==> forall i | 0 <= i < |chain| - 1 :: Number(chain[i]) >= 128 by {
        assert forall i | 0 <= i < |init| :: init[i] == chain[i];
      }
    }
  }

  /** Which records the round trip of the encoder covers. */
  lemma {:induction false} WellFormedIs(w: Wire)
    ensures WellFormed(w) <==>
            && w.dif !in {0x0F, 0x1F, 0x2F}
            && Extends(w.dif, w.dife) && Extends(w.vif, w.vife)
            && (if w.vif in {0x7C, 0xFC} then |w.text| <= 16 else w.text == [])
            && |w.data| <= 256
            && var low, n := Number(w.dif) % 16, Number(w.lengthByte);
               if low == 13 then
                 || (n < 0xC0 && |w.data| == n)
                 || (0xC0 <= n < 0xD0 && |w.data| == 2 * (n % 16))
                 || (0xD0 <= n < 0xE0 && |w.data| == 2 * (n % 16) + 1)
                 || (0xE0 <= n < 0xF0 && |w.data| == 64 + n % 16)
               else
                 |w.data| == if 1 <= low <= 4 then low else if 9 <= low <= 12 then low - 8
                             else if low == 5 || low == 14 then 6 else if low == 6 || low == 15 then 8 else 0
  {
    hide HasExtension, Number, ChainAfter, Extends, DifDataLength, VariableDataLength, IsVariableLength,
      IsPlainTextVif;
    ExtendsIs(w.dif, w.dife);
    ExtendsIs(w.vif, w.vife);
    PlainTextIs(w.vif);
    DataLengthIs(w.dif);
    VariableLengthIs(w.lengthByte);
  }

  lemma {:induction false} FillersAre2F(n: nat)
    ensures forall i | 0 <= i < n :: FillerBytes(n)[i] == 0x2F
  {
    if n > 0 {
      FillersAre2F(n - 1);
    }
  }

  lemma {:induction false} Regrouped(a: seq<Byte>, b: seq<Byte>, c: seq<Byte>, d: seq<Byte>)
    ensures a + (b + (c + d)) == a + b + c + d
  {
  }

  /** And what it encodes: fillers, DIF, DIFEs, VIF, the text after its length, VIFEs, the length
      byte, and the data. */
  lemma {:induction false} EncodingIs(w: Wire)
    ensures forall i | 0 <= i < w.fillers :: FillerBytes(w.fillers)[i] == 0x2F
    ensures Encode(w) ==
            FillerBytes(w.fillers) + [w.dif] + w.dife + [w.vif]
            + (if w.vif in {0x7C, 0xFC} then [Truncate(|w.text|)] + w.text else []) + w.vife
            + (if Number(w.dif) % 16 == 13 then [w.lengthByte] else []) + w.data
  {
    hide Number, Truncate, DifDataLength, IsVariableLength, IsPlainTextVif, FillerBytes;
    FillersAre2F(w.fillers);
    PlainTextIs(w.vif);
    DataLengthIs(w.dif);
    var fill, text, length := FillerBytes(w.fillers), TextBytes(w), LengthBytes(w);
    var vib := [w.vif] + (text + (w.vife + (length + w.data)));
    Regrouped(fill, [w.dif], w.dife, vib);
    var front := fill + [w.dif] + w.dife;
    Regrouped(front, [w.vif], text, w.vife + (length + w.data));
    Regrouped(front + [w.vif] + text, w.vife, length, w.data);
  }

  /** The text comes back last byte first. */
  lemma {:induction false} ReversedAt(s: seq<Byte>, i: nat)
    requires i < |s|
    ensures ByteReversed(s)[i] == s[|s| - 1 - i]
  {
    if i < |s| - 1 {
      ReversedAt(s[1..], i);
    }
  }

  // ---------------------------------------------------------------- the plain records

  lemma {:induction false} PlainHeader(dif: Byte, vif: Byte, rest: seq<Byte>)
    requires Number(dif) < 128 && Number(vif) < 128 && vif != 0x7C && dif !in {0x0F, 0x1F, 0x2F}
    ensures ParseHeader([dif, vif] + rest) == Parsed((Record(dif, [], vif, [], [], [], false), rest))
  {
    hide Number, HasExtension, IsPlainTextVif, ByteReversed, ChainLength;
    ExtensionIs(dif);
    ExtensionIs(vif);
    PlainTextIs(vif);
    NotAbove(vif);
    var input := [dif, vif] + rest;
    assert input[1..] == [vif] + rest && ([vif] + rest)[1..] == rest;
    assert Fillers(input) == 0;
    assert ([vif] + rest)[..0] == [] && ([vif] + rest)[0..] == [vif] + rest;
    assert rest[0..] == rest && rest[..0] == [];
  }

  lemma {:induction false} NotAbove(b: Byte)
    requires Number(b) < 128
    ensures b != 0xFC
  {
  }

  /** A record of DIF, VIF and data, neither byte extended: exactly which bytes are its data, how
      many are consumed, and when they are too few. */
  lemma {:induction false} ShortRecord(dif: Byte, vif: Byte, body: seq<Byte>)
    requires Number(dif) < 128 && Number(vif) < 128 && vif != 0x7C && dif !in {0x0F, 0x1F, 0x2F}
    requires Number(dif) % 16 != 13
    ensures var low := Number(dif) % 16;
            var n := if 1 <= low <= 4 then low else if 9 <= low <= 12 then low - 8
                     else if low == 5 || low == 14 then 6 else if low == 6 || low == 15 then 8 else 0;
            ParseRecord([dif, vif] + body)
            == if |body| < n then Rejected(PrematureEndAtData)
               else Parsed((Record(dif, [], vif, [], [], body[..n], false), 2 + n))
  {
    hide Number, ParseHeader, DifDataLength, IsVariableLength;
    PlainHeader(dif, vif, body);
    DataLengthIs(dif);
  }

  /** The same with a length byte. */
  lemma {:induction false} LongRecord(dif: Byte, vif: Byte, length: Byte, body: seq<Byte>)
    requires Number(dif) < 128 && Number(vif) < 128 && vif != 0x7C && dif !in {0x0F, 0x1F, 0x2F}
    requires Number(dif) % 16 == 13
    ensures var b := Number(length);
            var n := if b < 0xC0 then b else if b < 0xD0 then 2 * (b % 16) else if b < 0xE0 then 2 * (b % 16) + 1
                     else if b < 0xF0 then 64 + b % 16 else 1120 + b % 16;
            ParseRecord([dif, vif, length] + body)
            == if b > 0xFA then Rejected(UnknownDif)
               else if |body| < n then Rejected(PrematureEndAtData)
               else if n > 256 then Panics
               else Parsed((Record(dif, [], vif, [], [], body[..n], false), 3 + n))
  {
    hide Number, ParseHeader, DifDataLength, VariableDataLength, IsVariableLength;
    assert [dif, vif, length] + body == [dif, vif] + ([length] + body);
    PlainHeader(dif, vif, [length] + body);
    DataLengthIs(dif);
    VariableLengthIs(length);
    assert ([length] + body)[1..] == body;
  }

  /** And the two DIFs that take the whole rest, 256 bytes at most. */
  lemma {:induction false} RestRecord(dif: Byte, body: seq<Byte>)
    requires dif == 0x0F || dif == 0x1F
    ensures ParseRecord([dif] + body)
         == if |body| > 256 then Panics
            else Parsed((Record(dif, [], 0, [], [], body, dif == 0x1F), 1 + |body|))
  {
    assert ([dif] + body)[1..] == body;
    assert Fillers([dif] + body) == 0;
  }

  /** Headers that do not hold: nothing or only a DIF, no text length, a text length beyond 16, or
      one that exceeds what is there. */
  lemma {:induction false} BadHeader(dif: Byte, vif: Byte, length: Byte, text: seq<Byte>)
    requires Number(dif) < 128 && dif !in {0x0F, 0x1F, 0x2F} && vif in {0x7C, 0xFC}
    ensures ParseRecord([]) == Rejected(FrameParseError)
    ensures ParseRecord([dif]) == Rejected(FrameParseError)
    ensures ParseRecord([dif, vif]) == Rejected(FrameParseError)
    ensures ParseRecord([dif, vif, length] + text) == Rejected(FrameParseError)
       <== Number(length) > 16 || Number(length) > |text|
  {
    hide Number, HasExtension, IsPlainTextVif, ByteReversed, ChainLength, ParseData;
    ExtensionIs(dif);
    PlainTextIs(vif);
    var input := [dif, vif, length] + text;
    assert Fillers(input) == 0 && Fillers([dif, vif]) == 0 && Fillers([dif]) == 0;
    assert input[1..] == [vif, length] + text && ([vif, length] + text)[1..] == [length] + text;
    assert input[1..][..0] == [] && input[1..][0..] == input[1..];
    assert [dif, vif][1..] == [vif] && [vif][1..] == [] && [vif][0..] == [vif];
    assert [dif][1..] == [];
  }

  /** Idle fillers in front are skipped and counted. */
  lemma {:induction false} FillerSkipped(input: seq<Byte>)
    requires ParseRecord(input).Parsed?
    ensures ParseRecord([0x2F] + input).Parsed?
    ensures ParseRecord([0x2F] + input).value == (ParseRecord(input).value.0, 1 + ParseRecord(input).value.1)
  {
    hide HasExtension, IsPlainTextVif, ByteReversed, ChainLength, ParseVib, VariableDataLength, DifDataLength;
    var k := Fillers(input);
    assert ([0x2F] + input)[1..] == input;
    assert Fillers([0x2F] + input) == k + 1;
    if k < |input| {
      assert ([0x2F] + input)[k + 2..] == input[k + 1..];
    }
  }

  // ---------------------------------------------------------------- the fallback parser

  /** Two decimal digits. */
  predicate TwoDigits(b: Byte) { Number(b) / 16 <= 9 && Number(b) % 16 <= 9 }

  lemma {:induction false} IsBcdIs(b: Byte)
    ensures IsBcd(b) <==> TwoDigits(b)
  {
    hide Number;
    HalvesAre(b);
    AtMostNine(Upper(b));
    AtMostNine(Lower(b));
    assert Upper(b) == b >> 4 && Lower(b) == b & 0x0F;
  }

  lemma {:induction false} AtMostNine(b: Byte)
    ensures b <= 9 <==> Number(b) <= 9
  {
  }

  /** The fallback accepts 16 to 256 bytes with a device number of eight digits in front, a
      manufacturer code in the range of three letters, a medium below 128, and either the top bit
      of the status set or eight more digits. The same beyond 256 bytes panics. */
  lemma {:induction false} FixedIs(input: seq<Byte>)
    ensures var maker := if |input| < 16 then 0 else 256 * Number(input[4]) + Number(input[5]);
            var fits := && |input| >= 16
                        && (forall i | 0 <= i < 4 :: TwoDigits(input[i]))
                        && 0x0421 <= maker <= 0x6B5A && Number(input[7]) < 128
                        && (Number(input[9]) >= 128 || forall i | 12 <= i < 16 :: TwoDigits(input[i]));
            && (ParseFixed(input).Parsed? <==> fits && |input| <= 256)
            && (ParseFixed(input) == Panics <==> fits && |input| > 256)
  {
    hide Number, IsBcd, HasExtension, TwoDigits;
    if |input| >= 16 {
      ExtensionIs(input[9]);
      IsBcdIs(input[0]);
      IsBcdIs(input[1]);
      IsBcdIs(input[2]);
      IsBcdIs(input[3]);
      IsBcdIs(input[12]);
      IsBcdIs(input[13]);
      IsBcdIs(input[14]);
      IsBcdIs(input[15]);
    }
  }
}
