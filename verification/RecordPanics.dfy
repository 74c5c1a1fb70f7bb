/** When the record parser and the walk index out of range (src/payload/record.rs,
    src/mbus/mbus_protocol.rs). */
module RecordPanics {
  import opened Wrappers
  import opened Casts
  import opened Records
  import opened RecordWalk
  import opened RecordEncoding

  // ---------------------------------------------------------------- one record

  /** A DIF that takes the whole rest, with more of it than the record has room for. */
  predicate TakesTooMuch(input: seq<Byte>) {
    var k := Fillers(input);
    k < |input| && TakesAll(input[k]) && |input| - k - 1 > DATA_CAPACITY
  }

  /** What may follow the header of a variable-length record to make the parser panic: nothing,
      or a length byte 0xF0 to 0xFA with as many bytes as it says, 1120 to 1130. */
  predicate FatalLength(rest: seq<Byte>) {
    rest == [] ||
    (0xF0 <= Number(rest[0]) <= 0xFA && |rest| - 1 >= 1120 + (Number(rest[0]) - 0xF0))
  }

  predicate VariableWithFatalLength(input: seq<Byte>) {
    match ParseHeader(input)
    case Parsed((header, rest)) => IsVariableLength(header.dif) && FatalLength(rest)
    case _ => false
  }

  lemma {:induction false} TakesAllIsFixedLength(dif: Byte)
    requires TakesAll(dif)
    ensures !IsVariableLength(dif)
  {
  }

  /** Exactly when parsing one record panics. */
  lemma {:induction false} ParsePanicsIff(input: seq<Byte>)
    ensures ParseRecord(input).Panics? <==> TakesTooMuch(input) || VariableWithFatalLength(input)
  {
    hide IsVariableLength, TakesAll, ParseHeader, VariableDataLength, DifDataLength;
    HeaderPanicsIff(input);
    match ParseHeader(input) {
      case Rejected(_) =>
      case Panics =>
      case Parsed((header, rest)) =>
        if TakesAll(header.dif) { TakesAllIsFixedLength(header.dif); }
        if rest != [] { LengthPanicsIff(rest[0], |rest| - 1); }
    }
  }

  lemma {:induction false} LengthPanicsIff(b: Byte, available: nat)
    ensures var n := VariableDataLength(b);
            n.Some? && n.value <= available && n.value > DATA_CAPACITY
            <==> 0xF0 <= Number(b) <= 0xFA && available >= 1120 + (Number(b) - 0xF0)
  {
  }

  lemma {:induction false} HeaderPanicsIff(input: seq<Byte>)
    ensures ParseHeader(input).Panics? <==> TakesTooMuch(input)
  {
    hide TakesAll, HasExtension, ChainLength, IsPlainTextVif, CustomVifText, CustomVifLength;
  }

  /** For a variable-length record whose header is complete: what follows decides. */
  lemma {:induction false} HeaderThenPanicsIff(w: Wire, rest: seq<Byte>)
    requires HeaderWellFormed(w) && IsVariableLength(w.dif)
    ensures ParseRecord(HeaderThen(w, rest)).Panics? <==> FatalLength(rest)
  {
    hide ParseRecord, ParseHeader, HeaderWellFormed, FatalLength, IsVariableLength, HeaderThen, TakesTooMuch;
    ParseHeaderOf(w, rest);
    HeaderPanicsIff(HeaderThen(w, rest));
    ParsePanicsIff(HeaderThen(w, rest));
  }

  // ---------------------------------------------------------------- the walk

  /** The fallback accepts a fixed record by its first 16 bytes, but copies all of them. */
  lemma {:induction false} FixedPanicsIff(input: seq<Byte>)
    ensures ParseFixed(input).Panics? <==> |input| > DATA_CAPACITY && ParseFixed(input[..16]).Parsed?
  {
    hide IsBcd, HasExtension;
  }

  /** Where the walk goes on from a position; None where it panics. */
  function Onward(payload: seq<Byte>, at: nat): (r: Option<nat>)
    requires at < |payload|
    ensures r.Some? ==> at < r.value <= |payload|
  {
    var rest := payload[at..];
    ParseConsumes(rest);
    FixedNeedsSixteen(rest);
    match ParseRecord(rest)
    case Panics => None
    case Parsed((_, n)) => Some(at + n)
    case Rejected(_) =>
      match ParseFixed(rest)
      case Panics => None
      case Parsed(_) => Some(at + FIXED_SIZE)
      case Rejected(_) => Some(at + 1)
  }

  /** The walk from `at` comes to `pos`. */
  predicate Reaches(payload: seq<Byte>, at: nat, pos: nat)
    requires at <= |payload|
    decreases |payload| - at
  {
    at == pos || (at < |payload| && Onward(payload, at).Some? && Reaches(payload, Onward(payload, at).value, pos))
  }

  /** What stands at a position is fatal to the walk: to the parser, or to the fallback after
      the parser has rejected it. */
  predicate Fatal(rest: seq<Byte>) {
    || TakesTooMuch(rest)
    || VariableWithFatalLength(rest)
    || (ParseRecord(rest).Rejected? && |rest| > DATA_CAPACITY && ParseFixed(rest[..16]).Parsed?)
  }

  lemma {:induction false} OnwardUnlessFatal(payload: seq<Byte>, at: nat)
    requires at < |payload|
    ensures Onward(payload, at).None? <==> Fatal(payload[at..])
  {
    hide ParseRecord, ParseFixed, TakesTooMuch, VariableWithFatalLength;
    var rest := payload[at..];
    ParsePanicsIff(rest);
    FixedPanicsIff(rest);
  }

  lemma {:induction false} WalkOnward(payload: seq<Byte>, at: nat)
    requires at < |payload|
    ensures Walk(payload, at).Panics?
       <==> Onward(payload, at).None? || Walk(payload, Onward(payload, at).value).Panics?
  {
    hide ParseRecord, ParseFixed;
    ParseConsumes(payload[at..]);
    FixedNeedsSixteen(payload[at..]);
  }

  lemma {:induction false} WalkPanicsIff(payload: seq<Byte>, at: nat)
    requires at <= |payload|
    ensures Walk(payload, at).Panics?
       <==> exists pos: nat | pos < |payload| :: Reaches(payload, at, pos) && Fatal(payload[pos..])
    decreases |payload| - at
  {
    hide Onward, Fatal;
    if at == |payload| {
      NothingPanics(payload);
    } else {
      WalkOnward(payload, at);
      OnwardUnlessFatal(payload, at);
      if Onward(payload, at).Some? {
        OnwardIsFurther(payload, at);
        WalkPanicsIff(payload, Onward(payload, at).value);
      }
    }
  }

  lemma {:induction false} OnwardIsFurther(payload: seq<Byte>, at: nat)
    requires at < |payload| && Onward(payload, at).Some?
    ensures at < Onward(payload, at).value <= |payload|
  {
    hide Onward;
  }

  lemma {:induction false} NothingPanics(payload: seq<Byte>)
    ensures Walk(payload, |payload|) == Parsed([])
    ensures forall pos: nat | pos < |payload| :: !Reaches(payload, |payload|, pos)
  {
  }

  /** Exactly when processing a payload panics: the walk comes to a position where what stands
      there is fatal. */
  lemma {:induction false} ProcessPanicsIff(payload: seq<Byte>)
    ensures Process(payload) == Panicked
       <==> exists pos: nat | pos < |payload| :: Reaches(payload, 0, pos) && Fatal(payload[pos..])
  {
    hide Walk, Fatal, Reaches, Acceptable;
    WalkPanicsIff(payload, 0);
  }

  // ---------------------------------------------------------------- inputs that panic

  lemma {:induction false} VolumeDib()
    ensures var w := Wire(0, 0x0D, [], 0x13, [], [], 0, []);
            && HeaderWellFormed(w) && IsVariableLength(w.dif) && TextBytes(w) == []
  {
  }

  /** The variable-length volume DIF and VIF, with a length byte that is missing or too large. */
  lemma {:induction false} VariableLengthPanics(data: seq<Byte>)
    ensures ParseRecord([0x0D, 0x13]).Panics?
    ensures |data| >= 1120 ==> ParseRecord([0x0D, 0x13, 0xF0] + data).Panics?
  {
    hide ParseRecord, HeaderWellFormed, IsVariableLength, TextBytes;
    var w := Wire(0, 0x0D, [], 0x13, [], [], 0, []);
    VolumeDib();
    HeaderThenPanicsIff(w, []);
    assert HeaderThen(w, []) == [0x0D, 0x13];
    if |data| >= 1120 {
      LengthOfF0();
      HeaderThenPanicsIff(w, [0xF0] + data);
      assert HeaderThen(w, [0xF0] + data) == [0x0D, 0x13, 0xF0] + data;
    }
  }

  lemma {:induction false} LengthOfF0()
    ensures Number(0xF0) == 0xF0
  {
  }

  /** Two bytes are enough to stop the walk. */
  lemma {:induction false} TwoBytesPanic()
    ensures Process([0x0D, 0x13]) == Panicked
  {
    hide ParseRecord, ParseFixed;
    VariableLengthPanics([]);
    assert [0x0D, 0x13][0..] == [0x0D, 0x13];
  }

  /** A chain of DIFEs before a malformed text length is rejected as a variable record and
      accepted as a fixed one; with more than 256 bytes that panics too. */
  lemma {:induction false} FixedFallbackPanics(data: seq<Byte>)
    requires |data| >= 247
    ensures Process([0x80, 0x80, 0x80, 0x80, 0x05, 0x7C, 0xFF, 0x00, 0x00, 0x80] + data) == Panicked
  {
    hide ParseRecord, ParseFixed;
    var payload := [0x80, 0x80, 0x80, 0x80, 0x05, 0x7C, 0xFF, 0x00, 0x00, 0x80] + data;
    ChainThenTextRejected(payload);
    FixedAccepted(payload[..16]);
    FixedPanicsIff(payload);
    assert payload[0..] == payload;
  }

  lemma {:induction false} FixedAccepted(input: seq<Byte>)
    requires |input| == 16 && input[..10] == [0x80, 0x80, 0x80, 0x80, 0x05, 0x7C, 0xFF, 0x00, 0x00, 0x80]
    ensures ParseFixed(input).Parsed?
  {
    assert input[0] == 0x80 && input[1] == 0x80 && input[2] == 0x80 && input[3] == 0x80;
    assert input[4] == 0x05 && input[5] == 0x7C && input[7] == 0x00 && input[9] == 0x80;
  }

  lemma {:induction false} ChainThenTextRejected(input: seq<Byte>)
    requires |input| >= 10 && input[..10] == [0x80, 0x80, 0x80, 0x80, 0x05, 0x7C, 0xFF, 0x00, 0x00, 0x80]
    ensures ParseRecord(input).Rejected?
  {
    assert input[0] == 0x80 && input[1] == 0x80 && input[2] == 0x80 && input[3] == 0x80;
    assert input[4] == 0x05 && input[5] == 0x7C && input[6] == 0xFF;
    var i1 := input[1..];
    assert i1[1..][1..][1..][0] == input[4];
    assert ChainLength(i1, MAX_EXTENSIONS) == 4;
    var vib := i1[4..];
    assert vib[0] == 0x7C && vib[1..][0] == 0xFF;
    assert Number(0xFF) == 255;
  }
}
