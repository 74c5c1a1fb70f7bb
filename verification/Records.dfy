/** Parsing one variable-length data record of EN 13757-3 with the exact number of bytes it
    consumed (src/payload/record.rs).

    Values, units, strings and time stamps derived from the raw bytes are not part of the
    model. A Rust panic (slice or array index out of range) is an outcome of its own. */
module Records {
  import opened Wrappers
  import opened Casts

  const IDLE_FILLER: Byte := 0x2F
  const MANUFACTURER_SPECIFIC: Byte := 0x0F
  const MORE_RECORDS_FOLLOW: Byte := 0x1F
  const MAX_CUSTOM_VIF := 16
  const MAX_EXTENSIONS := 10
  const DATA_CAPACITY := 256

  /** The raw content of a parsed record. The fixed arrays of extension bytes and data are
      the sequences of their used entries. */
  datatype Record = Record(
    dif: Byte,
    dife: seq<Byte>,
    vif: Byte,
    customVif: seq<Byte>,
    vife: seq<Byte>,
    data: seq<Byte>,
    moreRecordsFollow: bool)

  datatype RecordError = FrameParseError | PrematureEndAtData | UnknownDif

  datatype Outcome<+T> =
    | Parsed(value: T)
    | Rejected(error: RecordError)
    | Panics

  // ---------------------------------------------------------------- bytes of a record

  predicate HasExtension(b: Byte) { b & 0x80 != 0 }

  predicate IsPlainTextVif(vif: Byte) { vif & 0x7F == 0x7C }

  predicate IsVariableLength(dif: Byte) { dif & 0x0F == 0x0D }

  /** A DIF after which the whole rest of the payload belongs to the record. */
  predicate TakesAll(dif: Byte) {
    dif == MANUFACTURER_SPECIFIC || dif == MORE_RECORDS_FOLLOW
  }

  function DifDataLength(dif: Byte): (n: nat)
    ensures n <= 8
  {
    var low := dif & 0x0F;
    if low == 0x0 then 0
    else if low == 0x1 then 1
    else if low == 0x2 then 2
    else if low == 0x3 then 3
    else if low == 0x4 then 4
    else if low == 0x5 then 6
    else if low == 0x6 then 8
    else if low == 0x7 then 0
    else if low == 0x8 then 0
    else if low == 0x9 then 1
    else if low == 0xA then 2
    else if low == 0xB then 3
    else if low == 0xC then 4
    else if low == 0xD then 0
    else if low == 0xE then 6
    else 8
  }

  function VariableDataLength(b: Byte): Option<nat> {
    var n := Number(b);
    if n <= 0xBF then Some(n)
    else if n <= 0xCF then Some((n - 0xC0) * 2)
    else if n <= 0xDF then Some((n - 0xD0) * 2 + 1)
    else if n <= 0xEF then Some(n - 0xE0 + 64)
    else if n <= 0xFA then Some(n - 0xF0 + 1120)
    else None
  }

  /** Number of idle fillers in front. */
  function Fillers(input: seq<Byte>): (n: nat)
    ensures n <= |input|
    ensures forall i | 0 <= i < n :: input[i] == IDLE_FILLER
    ensures n < |input| ==> input[n] != IDLE_FILLER
  {
    if input == [] || input[0] != IDLE_FILLER then 0 else 1 + Fillers(input[1..])
  }

  /** Length of the chain of extension bytes in front: it ends with the first byte without the
      extension bit, with the input, or after `limit` bytes. */
  function ChainLength(input: seq<Byte>, limit: nat): (n: nat)
    ensures n <= limit && n <= |input|
    decreases limit
  {
    if input == [] || limit == 0 then 0
    else if HasExtension(input[0]) then 1 + ChainLength(input[1..], limit - 1)
    else 1
  }

  lemma {:induction false} ChainStep(input: seq<Byte>, limit: nat)
    ensures input == [] || limit == 0 ==> ChainLength(input, limit) == 0
    ensures input != [] && limit > 0 ==>
              ChainLength(input, limit) == 1 + if HasExtension(input[0]) then ChainLength(input[1..], limit - 1) else 0
  {
  }

  /** The parser's loop over extension bytes. */
  method ReadChain(input: seq<Byte>) returns (chain: seq<Byte>, rest: seq<Byte>)
    ensures chain == input[..ChainLength(input, MAX_EXTENSIONS)]
    ensures rest == input[ChainLength(input, MAX_EXTENSIONS)..]
  {
    hide HasExtension, ChainLength;
    var count := 0;
    chain, rest := [], input;
    ghost var total := ChainLength(input, MAX_EXTENSIONS);
    while true
      invariant 0 <= count <= MAX_EXTENSIONS && count <= |input|
      invariant chain == input[..count] && rest == input[count..]
      invariant total == count + ChainLength(rest, MAX_EXTENSIONS - count)
      decreases MAX_EXTENSIONS - count
    {
      ChainStep(rest, MAX_EXTENSIONS - count);
      if rest == [] || count >= MAX_EXTENSIONS {
        return;
      }
      var ext := rest[0];
      chain := chain + [ext];
      count := count + 1;
      rest := rest[1..];
      if !HasExtension(ext) {
        return;
      }
    }
  }

  // ---------------------------------------------------------------- the header

  function ByteReversed(s: seq<Byte>): (r: seq<Byte>)
    ensures |r| == |s|
  {
    if s == [] then [] else ByteReversed(s[1..]) + [s[0]]
  }

  /** Length of the plain-text part after a VIF; None if it is malformed. */
  function CustomVifLength(vif: Byte, input: seq<Byte>): Option<nat> {
    if !IsPlainTextVif(vif) then Some(0)
    else if input == [] || Number(input[0]) > MAX_CUSTOM_VIF || 1 + Number(input[0]) > |input| then None
    else Some(1 + Number(input[0]))
  }

  /** The text is stored reversed, as the decoder delivers it. */
  function CustomVifText(vif: Byte, input: seq<Byte>): seq<Byte>
    requires CustomVifLength(vif, input).Some?
  {
    if IsPlainTextVif(vif) then ByteReversed(input[1..1 + Number(input[0])]) else []
  }

  /** Parses VIF, plain text and VIFEs of a record whose DIF and DIFEs are known. */
  function ParseVib(dif: Byte, dife: seq<Byte>, input: seq<Byte>): (r: Outcome<(Record, seq<Byte>)>)
    ensures r.Parsed? ==> |r.value.1| < |input|
  {
    if input == [] then Rejected(FrameParseError)
    else
      var vif, i3 := input[0], input[1..];
      match CustomVifLength(vif, i3)
      case None => Rejected(FrameParseError)
      case Some(nt) =>
        var i4 := i3[nt..];
        var nv := if HasExtension(vif) then ChainLength(i4, MAX_EXTENSIONS) else 0;
        Parsed((Record(dif, dife, vif, CustomVifText(vif, i3), i4[..nv], [], false), i4[nv..]))
  }

  /** Parses fillers, DIF, DIFEs and the rest of the header. The result is the record without
      its data, and what is left of the input. */
  function ParseHeader(input: seq<Byte>): (r: Outcome<(Record, seq<Byte>)>)
    ensures r.Parsed? ==> |r.value.1| < |input|
  {
    var k := Fillers(input);
    if k == |input| then Rejected(FrameParseError)
    else
      var dif, i1 := input[k], input[k + 1..];
      if TakesAll(dif) then
        if |i1| > DATA_CAPACITY then Panics
        else Parsed((Record(dif, [], 0, [], [], i1, dif == MORE_RECORDS_FOLLOW), []))
      else
        var nd := if HasExtension(dif) then ChainLength(i1, MAX_EXTENSIONS) else 0;
        ParseVib(dif, i1[..nd], i1[nd..])
  }

  /** The record at the front of the input and the number of bytes it consumed. */
  function ParseRecord(input: seq<Byte>): Outcome<(Record, nat)> {
    match ParseHeader(input)
    case Rejected(e) => Rejected(e)
    case Panics => Panics
    case Parsed((r, rest)) => ParseData(r, rest, |input| - |rest|)
  }

  /** The data after a header that took `consumed` bytes. */
  function ParseData(r: Record, rest: seq<Byte>, consumed: nat): Outcome<(Record, nat)> {
    if TakesAll(r.dif) then Parsed((r, consumed))
    else if IsVariableLength(r.dif) then
      if rest == [] then Panics // a missing length byte reads as 0, then the slice fails
      else
        match VariableDataLength(rest[0])
        case None => Rejected(UnknownDif)
        case Some(n) => TakeData(r, rest[1..], consumed + 1, n)
    else TakeData(r, rest, consumed, DifDataLength(r.dif))
  }

  function TakeData(r: Record, rest: seq<Byte>, consumed: nat, n: nat): Outcome<(Record, nat)> {
    if n > |rest| then Rejected(PrematureEndAtData)
    else if n > DATA_CAPACITY then Panics
    else Parsed((r.(data := rest[..n]), consumed + n))
  }

  // ---------------------------------------------------------------- the parser as it runs

  method ReadVib(start: Record, input: seq<Byte>) returns (r: Outcome<(Record, seq<Byte>)>)
    requires start == Record(start.dif, start.dife, 0, [], [], [], false)
    ensures r == ParseVib(start.dif, start.dife, input)
  {
    hide HasExtension, ChainLength, IsPlainTextVif, ByteReversed;
    var record, i := start, input;
    if i == [] {
      return Rejected(FrameParseError);
    }
    record := record.(vif := i[0]);
    i := i[1..];
    if IsPlainTextVif(record.vif) {
      if i == [] {
        return Rejected(FrameParseError);
      }
      var length := Number(i[0]);
      if length > MAX_CUSTOM_VIF {
        return Rejected(FrameParseError);
      }
      if 1 + length > |i| {
        return Rejected(FrameParseError);
      }
      record := record.(customVif := ByteReversed(i[1..1 + length]));
      i := i[1 + length..];
    }
    if HasExtension(record.vif) {
      var chain;
      chain, i := ReadChain(i);
      record := record.(vife := chain);
    }
    return Parsed((record, i));
  }

  method ParseVariableRecordInner(input: seq<Byte>) returns (r: Outcome<(Record, seq<Byte>)>)
    ensures r == ParseHeader(input)
  {
    hide HasExtension, ChainLength, ParseVib;
    var record := Record(0, [], 0, [], [], [], false);
    var i := input[Fillers(input)..];
    if i == [] {
      return Rejected(FrameParseError);
    }
    record := record.(dif := i[0]);
    i := i[1..];
    assert i == input[Fillers(input) + 1..];
    if TakesAll(record.dif) {
      if record.dif == MORE_RECORDS_FOLLOW {
        record := record.(moreRecordsFollow := true);
      }
      if |i| > DATA_CAPACITY {
        return Panics;
      }
      record := record.(data := i);
      return Parsed((record, []));
    }
    if HasExtension(record.dif) {
      var chain;
      chain, i := ReadChain(i);
      record := record.(dife := chain);
    }
    r := ReadVib(record, i);
  }

  method ParseVariableRecordConsumed(input: seq<Byte>) returns (r: Outcome<(Record, nat)>)
    ensures r == ParseRecord(input)
  {
    hide ParseHeader, VariableDataLength, DifDataLength;
    var header := ParseVariableRecordInner(input);
    match header {
      case Rejected(e) => return Rejected(e);
      case Panics => return Panics;
      case Parsed((_, _)) =>
    }
    var (record, remaining) := header.value;
    var consumed: nat := |input| - |remaining|;
    if !TakesAll(record.dif) {
      var dataLen := DifDataLength(record.dif);
      if IsVariableLength(record.dif) {
        if remaining == [] {
          return Panics;
        }
        var length := VariableDataLength(remaining[0]);
        if length.None? {
          return Rejected(UnknownDif);
        }
        dataLen := length.value;
        remaining := remaining[1..];
        consumed := consumed + 1;
      }
      if dataLen > |remaining| {
        return Rejected(PrematureEndAtData);
      }
      if dataLen > DATA_CAPACITY {
        return Panics;
      }
      record := record.(data := remaining[..dataLen]);
      consumed := consumed + dataLen;
    }
    return Parsed((record, consumed));
  }
}
