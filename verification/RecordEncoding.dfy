/** The record parser against an encoder: what it accepts, how much it consumes, and that a
    walk over concatenated records recovers exactly those records. */
module RecordEncoding {
  import opened Wrappers
  import opened Casts
  import opened Records
  import opened RecordWalk

  /** A record as it stands on the wire. */
  datatype Wire = Wire(
    fillers: nat,
    dif: Byte,
    dife: seq<Byte>,
    vif: Byte,
    text: seq<Byte>,
    vife: seq<Byte>,
    lengthByte: Byte,
    data: seq<Byte>)

  /** A chain of extension bytes: all but the last have the extension bit; the last has it only
      if the chain is as long as it may get. */
  predicate IsChain(chain: seq<Byte>, limit: nat)
    decreases limit
  {
    if limit == 0 then chain == []
    else if chain == [] then false
    else if HasExtension(chain[0]) then IsChain(chain[1..], limit - 1)
    else |chain| == 1
  }

  predicate ChainAfter(b: Byte, chain: seq<Byte>) {
    if HasExtension(b) then IsChain(chain, MAX_EXTENSIONS) else chain == []
  }

  predicate HeaderWellFormed(w: Wire) {
    && !TakesAll(w.dif) && w.dif != IDLE_FILLER
    && ChainAfter(w.dif, w.dife)
    && ChainAfter(w.vif, w.vife)
    && (if IsPlainTextVif(w.vif) then |w.text| <= MAX_CUSTOM_VIF else w.text == [])
  }

  predicate WellFormed(w: Wire) {
    && HeaderWellFormed(w)
    && |w.data| <= DATA_CAPACITY
    && (if IsVariableLength(w.dif) then VariableDataLength(w.lengthByte) == Some(|w.data|)
        else |w.data| == DifDataLength(w.dif))
  }

  function FillerBytes(n: nat): (s: seq<Byte>)
    ensures |s| == n
  {
    if n == 0 then [] else [IDLE_FILLER] + FillerBytes(n - 1)
  }

  function TextBytes(w: Wire): seq<Byte> {
    if IsPlainTextVif(w.vif) then [Truncate(|w.text|)] + w.text else []
  }

  function LengthBytes(w: Wire): seq<Byte> {
    if IsVariableLength(w.dif) then [w.lengthByte] else []
  }

  function Encode(w: Wire): seq<Byte> {
    HeaderThen(w, LengthBytes(w) + w.data)
  }

  function RecordOf(w: Wire): Record {
    Record(w.dif, w.dife, w.vif, ByteReversed(w.text), w.vife, w.data, false)
  }

  // ---------------------------------------------------------------- parsing an encoding

  lemma {:induction false} FillersOf(n: nat, rest: seq<Byte>)
    requires rest == [] || rest[0] != IDLE_FILLER
    ensures Fillers(FillerBytes(n) + rest) == n
    ensures (FillerBytes(n) + rest)[n..] == rest
  {
    if n == 0 {
      assert FillerBytes(0) + rest == rest;
    } else {
      FillersOf(n - 1, rest);
      assert (FillerBytes(n) + rest)[1..] == FillerBytes(n - 1) + rest;
    }
  }

  lemma {:induction false} ChainLengthOf(chain: seq<Byte>, rest: seq<Byte>, limit: nat)
    requires IsChain(chain, limit)
    ensures ChainLength(chain + rest, limit) == |chain|
    decreases limit
  {
    hide HasExtension;
    if limit > 0 {
      assert (chain + rest)[1..] == chain[1..] + rest;
      if HasExtension(chain[0]) {
        ChainLengthOf(chain[1..], rest, limit - 1);
      }
    }
  }

  lemma {:induction false} TextOf(w: Wire, rest: seq<Byte>)
    requires if IsPlainTextVif(w.vif) then |w.text| <= MAX_CUSTOM_VIF else w.text == []
    ensures CustomVifLength(w.vif, TextBytes(w) + rest) == Some(|TextBytes(w)|)
    ensures CustomVifText(w.vif, TextBytes(w) + rest) == ByteReversed(w.text)
  {
    hide IsPlainTextVif;
    if IsPlainTextVif(w.vif) {
      TruncateSmall(|w.text|);
      var input := TextBytes(w) + rest;
      assert input[0] == Truncate(|w.text|);
      assert input[1..1 + |w.text|] == w.text;
    }
  }

  lemma {:induction false} ParseVibOf(w: Wire, rest: seq<Byte>)
    requires HeaderWellFormed(w)
    ensures ParseVib(w.dif, w.dife, [w.vif] + (TextBytes(w) + (w.vife + rest)))
         == Parsed((RecordOf(w).(data := []), rest))
  {
    hide HasExtension, ByteReversed, IsPlainTextVif, TextBytes, CustomVifText, CustomVifLength,
      VariableDataLength, DifDataLength, TakesAll, IsVariableLength;
    var after := w.vife + rest;
    var i3 := TextBytes(w) + after;
    TextOf(w, after);
    assert ([w.vif] + i3)[1..] == i3;
    assert i3[|TextBytes(w)|..] == after;
    if HasExtension(w.vif) {
      ChainLengthOf(w.vife, rest, MAX_EXTENSIONS);
    }
    assert after[..|w.vife|] == w.vife && after[|w.vife|..] == rest;
  }

  /** The encoding of a header, followed by anything. */
  function HeaderThen(w: Wire, rest: seq<Byte>): seq<Byte> {
    FillerBytes(w.fillers) + ([w.dif] + (w.dife + ([w.vif] + (TextBytes(w) + (w.vife + rest)))))
  }

  lemma {:induction false} ParseHeaderOf(w: Wire, rest: seq<Byte>)
    requires HeaderWellFormed(w)
    ensures ParseHeader(HeaderThen(w, rest)) == Parsed((RecordOf(w).(data := []), rest))
  {
    hide HasExtension, ParseVib, ParseHeader, IsChain, ByteReversed, TextBytes, IsPlainTextVif,
      VariableDataLength, DifDataLength,
      TakesAll, IsVariableLength;
    var vib := [w.vif] + (TextBytes(w) + (w.vife + rest));
    var i1 := w.dife + vib;
    var after := [w.dif] + i1;
    FillersOf(w.fillers, after);
    var input := FillerBytes(w.fillers) + after;
    assert input[w.fillers] == w.dif;
    assert input[w.fillers + 1..] == after[1..] == i1;
    if HasExtension(w.dif) {
      ChainLengthOf(w.dife, vib, MAX_EXTENSIONS);
    }
    assert i1[..|w.dife|] == w.dife && i1[|w.dife|..] == vib;
    HeaderStep(input, w.fillers, |w.dife|);
    ParseVibOf(w, rest);
  }

  lemma {:induction false} HeaderStep(input: seq<Byte>, k: nat, nd: nat)
    requires k == Fillers(input) < |input| && !TakesAll(input[k])
    requires nd == if HasExtension(input[k]) then ChainLength(input[k + 1..], MAX_EXTENSIONS) else 0
    ensures nd <= |input[k + 1..]|
    ensures ParseHeader(input) == ParseVib(input[k], input[k + 1..][..nd], input[k + 1..][nd..])
  {
    hide ParseVib, TakesAll, HasExtension, ChainLength, Fillers;
  }

  lemma {:induction false} EncodingThen(w: Wire, rest: seq<Byte>)
    ensures Encode(w) + rest == HeaderThen(w, LengthBytes(w) + w.data + rest)
  {
    hide FillerBytes, TextBytes, LengthBytes;
    var a, b, c := LengthBytes(w) + w.data, FillerBytes(w.fillers), TextBytes(w);
    var v := w.vife + a;
    assert v + rest == w.vife + (a + rest);
    var t := c + v;
    assert t + rest == c + (v + rest);
    var f := [w.vif] + t;
    assert f + rest == [w.vif] + (t + rest);
    var e := w.dife + f;
    assert e + rest == w.dife + (f + rest);
    var d := [w.dif] + e;
    assert d + rest == [w.dif] + (e + rest);
    assert b + d + rest == b + (d + rest);
  }

  lemma {:induction false} DataOf(w: Wire, r: Record, rest: seq<Byte>, input: seq<Byte>)
    requires WellFormed(w)
    requires ParseHeader(input) == Parsed((r, LengthBytes(w) + w.data + rest))
    requires r.dif == w.dif
    ensures ParseRecord(input) == Parsed((r.(data := w.data), |input| - |rest|))
  {
    hide ParseHeader, HasExtension, IsPlainTextVif, VariableDataLength, DifDataLength, TakesAll,
      IsVariableLength, IsChain;
    var body := LengthBytes(w) + w.data + rest;
    if IsVariableLength(w.dif) {
      assert body[0] == w.lengthByte;
      assert body[1..] == w.data + rest;
    } else {
      assert body == w.data + rest;
    }
    assert (w.data + rest)[..|w.data|] == w.data;
  }

  /** Parsing an encoded record gives its contents and consumes exactly its encoding, whatever
      follows. */
  lemma {:induction false} ParseOfEncode(w: Wire, rest: seq<Byte>)
    requires WellFormed(w)
    ensures ParseRecord(Encode(w) + rest) == Parsed((RecordOf(w), |Encode(w)|))
  {
    hide ParseHeader, ParseRecord, TextBytes, LengthBytes, FillerBytes, HeaderWellFormed, ByteReversed, Encode,
      VariableDataLength, DifDataLength, IsVariableLength;
    EncodingThen(w, rest);
    ParseHeaderOf(w, LengthBytes(w) + w.data + rest);
    DataOf(w, RecordOf(w).(data := []), rest, Encode(w) + rest);
  }

  // ---------------------------------------------------------------- every parse is of an encoding

  lemma {:induction false} FillersAre(input: seq<Byte>)
    ensures input == FillerBytes(Fillers(input)) + input[Fillers(input)..]
  {
    if input != [] && input[0] == IDLE_FILLER {
      FillersAre(input[1..]);
      assert input == [IDLE_FILLER] + input[1..];
      assert input[1..][Fillers(input[1..])..] == input[Fillers(input)..];
    }
  }

  lemma {:induction false} ChainIs(input: seq<Byte>, limit: nat)
    ensures IsChain(input[..ChainLength(input, limit)], limit) || ChainLength(input, limit) == |input|
    decreases limit
  {
    hide HasExtension;
    if input != [] && limit > 0 && HasExtension(input[0]) {
      ChainIs(input[1..], limit - 1);
      var n := ChainLength(input, limit);
      assert input[..n][1..] == input[1..][..n - 1];
    }
  }

  lemma {:induction false} ReversedLast(s: seq<Byte>, b: Byte)
    ensures ByteReversed(s + [b]) == [b] + ByteReversed(s)
  {
    if s == [] {
      assert [b][1..] == [];
    } else {
      ReversedLast(s[1..], b);
      assert (s + [b])[1..] == s[1..] + [b];
    }
  }

  lemma {:induction false} ReversedTwice(s: seq<Byte>)
    ensures ByteReversed(ByteReversed(s)) == s
  {
    if s != [] {
      ReversedLast(ByteReversed(s[1..]), s[0]);
      ReversedTwice(s[1..]);
    }
  }

  /** The wire form of a parsed record, up to fillers and length byte. */
  function WireOf(fillers: nat, r: Record, lengthByte: Byte): Wire {
    Wire(fillers, r.dif, r.dife, r.vif, ByteReversed(r.customVif), r.vife, lengthByte, r.data)
  }

  lemma {:induction false} TextIs(dif: Byte, vif: Byte, input: seq<Byte>)
    requires CustomVifLength(vif, input).Some?
    ensures CustomVifLength(vif, input).value <= |input|
    ensures var w := Wire(0, dif, [], vif, ByteReversed(CustomVifText(vif, input)), [], 0, []);
            && TextBytes(w) == input[..CustomVifLength(vif, input).value]
            && (if IsPlainTextVif(vif) then |w.text| <= MAX_CUSTOM_VIF else w.text == [])
  {
    hide IsPlainTextVif, ByteReversed;
    if IsPlainTextVif(vif) {
      var n := Number(input[0]);
      ReversedTwice(input[1..1 + n]);
      TruncateNumber(input[0]);
      assert input[..1 + n] == [input[0]] + input[1..1 + n];
    } else {
      assert ByteReversed([]) == [];
    }
  }

  lemma {:induction false} VibParts(dif: Byte, dife: seq<Byte>, input: seq<Byte>, r: Record, rest: seq<Byte>)
    returns (nt: nat)
    requires ParseVib(dif, dife, input) == Parsed((r, rest))
    ensures r.dif == dif && r.dife == dife && r.data == [] && !r.moreRecordsFollow
    ensures input != [] && r.vif == input[0]
    ensures CustomVifLength(r.vif, input[1..]) == Some(nt) && nt <= |input| - 1
    ensures r.customVif == CustomVifText(r.vif, input[1..])
    ensures input[1 + nt..] == r.vife + rest
    ensures ChainAfter(r.vif, r.vife) || rest == []
  {
    hide HasExtension, IsPlainTextVif, ByteReversed, CustomVifLength, CustomVifText, ChainLength, IsChain;
    var i3 := input[1..];
    TextIs(dif, input[0], i3);
    nt := CustomVifLength(input[0], i3).value;
    var i4 := i3[nt..];
    ChainIs(i4, MAX_EXTENSIONS);
  }

  lemma {:induction false} VibIs(dif: Byte, dife: seq<Byte>, input: seq<Byte>, r: Record, rest: seq<Byte>)
    requires ParseVib(dif, dife, input) == Parsed((r, rest))
    ensures r.dif == dif && r.dife == dife && r.data == [] && !r.moreRecordsFollow
    ensures var w := WireOf(0, r, 0);
            && input == [r.vif] + (TextBytes(w) + (r.vife + rest))
            && (if IsPlainTextVif(r.vif) then |w.text| <= MAX_CUSTOM_VIF else w.text == [])
    ensures ChainAfter(r.vif, r.vife) || rest == []
  {
    hide IsPlainTextVif, ByteReversed, ParseVib, CustomVifLength, CustomVifText, TextBytes, ChainAfter;
    var nt := VibParts(dif, dife, input, r, rest);
    var i3 := input[1..];
    TextIs(dif, r.vif, i3);
    assert i3[nt..] == r.vife + rest;
    assert i3 == i3[..nt] + (r.vife + rest);
    assert input == [r.vif] + i3;
    TextDependsOn(WireOf(0, r, 0), Wire(0, dif, [], r.vif, ByteReversed(CustomVifText(r.vif, i3)), [], 0, []));
  }

  lemma {:induction false} TextDependsOn(v: Wire, w: Wire)
    requires v.vif == w.vif && v.text == w.text
    ensures TextBytes(v) == TextBytes(w)
  {
  }

  lemma {:induction false} HeaderParts(input: seq<Byte>, r: Record, rest: seq<Byte>) returns (vib: seq<Byte>)
    requires ParseHeader(input) == Parsed((r, rest)) && !TakesAll(r.dif)
    ensures input == FillerBytes(Fillers(input)) + ([r.dif] + (r.dife + vib))
    ensures r.dif != IDLE_FILLER
    ensures ChainAfter(r.dif, r.dife)
    ensures ParseVib(r.dif, r.dife, vib) == Parsed((r, rest))
  {
    hide ParseVib, ParseHeader, IsChain, ChainLength, HasExtension, TakesAll, FillerBytes;
    var k := Fillers(input);
    HeaderRest(input);
    FillersAre(input);
    var i1 := input[k + 1..];
    var nd := if HasExtension(input[k]) then ChainLength(i1, MAX_EXTENSIONS) else 0;
    HeaderStep(input, k, nd);
    ChainIs(i1, MAX_EXTENSIONS);
    vib := i1[nd..];
    VibHead(input[k], i1[..nd], vib);
    assert input[k..] == [r.dif] + i1;
    assert i1 == r.dife + vib;
  }

  lemma {:induction false} HeaderRest(input: seq<Byte>)
    ensures var k := Fillers(input);
            if k == |input| then ParseHeader(input).Rejected?
            else if TakesAll(input[k]) then ParseHeader(input).Parsed? ==> ParseHeader(input).value.0.dif == input[k]
            else true
  {
    hide TakesAll, ParseVib;
  }

  lemma {:induction false} VibHead(dif: Byte, dife: seq<Byte>, input: seq<Byte>)
    ensures input == [] ==> ParseVib(dif, dife, input) == Rejected(FrameParseError)
    ensures ParseVib(dif, dife, input).Parsed? ==>
              ParseVib(dif, dife, input).value.0.dif == dif && ParseVib(dif, dife, input).value.0.dife == dife
  {
    hide HasExtension, IsPlainTextVif, ByteReversed, CustomVifLength, CustomVifText, ChainLength;
  }

  lemma {:induction false} HeaderIs(input: seq<Byte>, r: Record, rest: seq<Byte>)
    requires ParseHeader(input) == Parsed((r, rest)) && !TakesAll(r.dif)
    ensures var w := WireOf(Fillers(input), r, 0);
            && input == FillerBytes(w.fillers) + ([w.dif] + (w.dife + ([w.vif] + (TextBytes(w) + (w.vife + rest)))))
            && (if IsPlainTextVif(w.vif) then |w.text| <= MAX_CUSTOM_VIF else w.text == [])
    ensures r.dif != IDLE_FILLER && r.data == [] && !r.moreRecordsFollow && ChainAfter(r.dif, r.dife)
    ensures ChainAfter(r.vif, r.vife) || rest == []
  {
    hide IsPlainTextVif, ByteReversed, ParseVib, ParseHeader, TextBytes, ChainAfter, TakesAll, FillerBytes, Fillers;
    var vib := HeaderParts(input, r, rest);
    VibIs(r.dif, r.dife, vib, r, rest);
    TextDependsOn(WireOf(0, r, 0), WireOf(Fillers(input), r, 0));
  }

  lemma {:induction false} DataIs(h: Record, rest: seq<Byte>, consumed: nat, r: Record, n: nat)
    returns (lengthByte: Byte, left: seq<Byte>)
    requires ParseData(h, rest, consumed) == Parsed((r, n)) && !TakesAll(h.dif)
    ensures r == h.(data := r.data) && |r.data| <= DATA_CAPACITY
    ensures rest == (if IsVariableLength(r.dif) then [lengthByte] else []) + r.data + left
    ensures n == consumed + |rest| - |left|
    ensures if IsVariableLength(r.dif) then VariableDataLength(lengthByte) == Some(|r.data|)
            else |r.data| == DifDataLength(r.dif)
  {
    hide VariableDataLength, DifDataLength, IsVariableLength, TakesAll;
    lengthByte := if IsVariableLength(h.dif) then rest[0] else 0;
    var body := if IsVariableLength(h.dif) then rest[1..] else rest;
    left := body[|r.data|..];
    assert body == r.data + left;
  }

  lemma {:induction false} DataKeepsDif(h: Record, rest: seq<Byte>, consumed: nat)
    ensures ParseData(h, rest, consumed).Parsed? ==> ParseData(h, rest, consumed).value.0.dif == h.dif
  {
    hide VariableDataLength, DifDataLength, IsVariableLength, TakesAll;
  }

  /** Whatever the parser accepts, short of a DIF that takes the whole rest, is the encoding of
      the record it returns; the only exception is a VIFE chain cut off by the end of the
      input, with no data. */
  lemma {:induction false} ParsedIsEncoding(input: seq<Byte>, r: Record, n: nat) returns (w: Wire)
    requires ParseRecord(input) == Parsed((r, n)) && !TakesAll(r.dif)
    ensures n <= |input| && RecordOf(w) == r && Encode(w) == input[..n]
    ensures WellFormed(w) <==> ChainAfter(r.vif, r.vife)
    ensures !WellFormed(w) ==> n == |input| && r.data == []
  {
    hide HasExtension, IsPlainTextVif, ByteReversed, ParseHeader, ParseData, TextBytes, FillerBytes,
      VariableDataLength, DifDataLength, IsVariableLength, TakesAll, ChainAfter, Encode;
    var (h, rest) := ParseHeader(input).value;
    DataKeepsDif(h, rest, |input| - |rest|);
    var lengthByte, left := DataIs(h, rest, |input| - |rest|, r, n);
    HeaderIs(input, h, rest);
    w := WireOf(Fillers(input), r, lengthByte);
    TextDependsOn(w, WireOf(Fillers(input), h, 0));
    ReversedTwice(h.customVif);
    assert rest == LengthBytes(w) + w.data + left;
    EncodingThen(w, left);
    assert Encode(w) + left == input;
    assert Encode(w) == input[..n];
  }
}
