/** Walking a payload record by record (src/mbus/mbus_protocol.rs), and why the walk stays
    aligned. */
module RecordWalk {
  import opened Casts
  import opened Records

  // ---------------------------------------------------------------- the fallback parser

  predicate IsBcd(b: Byte) {
    (b & 0x0F) <= 9 && (b >> 4) <= 9
  }

  /** Bytes the walk advances after a fixed record. */
  const FIXED_SIZE := 3

  /** Whether the input is accepted as a fixed-length record. Its buffer copy of the whole input
      panics beyond 256 bytes. */
  function ParseFixed(input: seq<Byte>): Outcome<()> {
    if |input| < 16 then Rejected(FrameParseError)
    else if !(IsBcd(input[0]) && IsBcd(input[1]) && IsBcd(input[2]) && IsBcd(input[3])) then Rejected(FrameParseError)
    else if !(0x0421 <= 256 * Number(input[4]) + Number(input[5]) <= 0x6B5A) then Rejected(FrameParseError)
    else if !HasExtension(input[9])
            && !(IsBcd(input[12]) && IsBcd(input[13]) && IsBcd(input[14]) && IsBcd(input[15]))
         then Rejected(FrameParseError)
    else if Number(input[7]) > 0x7F then Rejected(FrameParseError)
    else if |input| > DATA_CAPACITY then Panics
    else Parsed(())
  }

  // ---------------------------------------------------------------- the walk

  /** A parsed record and the bytes of the payload it stands for. */
  datatype Placed =
    | Variable(record: Record, start: nat, size: nat)
    | Fixed(content: seq<Byte>, start: nat, size: nat)

  function Walk(payload: seq<Byte>, at: nat): Outcome<seq<Placed>>
    requires at <= |payload|
    decreases |payload| - at
  {
    var rest := payload[at..];
    if rest == [] then Parsed([])
    else
      ParseConsumes(rest);
      match ParseRecord(rest)
      case Panics => Panics
      case Parsed((r, n)) => Prepend(Variable(r, at, n), Walk(payload, at + n))
      case Rejected(_) =>
        match ParseFixed(rest)
        case Panics => Panics
        case Parsed(_) => Prepend(Fixed(rest, at, FIXED_SIZE), Walk(payload, at + FIXED_SIZE))
        case Rejected(_) => Walk(payload, at + 1)
  }

  function Prepend(p: Placed, later: Outcome<seq<Placed>>): Outcome<seq<Placed>> {
    if later.Parsed? then Parsed([p] + later.value) else later
  }

  /** A parsed record consumes at least one byte and at most all of them. */
  lemma {:induction false} ParseConsumes(input: seq<Byte>)
    ensures ParseRecord(input).Parsed? ==> 1 <= ParseRecord(input).value.1 <= |input|
  {
    hide ParseHeader, VariableDataLength, DifDataLength, TakesAll, IsVariableLength;
  }

  /** The checks after the walk: a device-error VIF or oversized data fails the whole payload. */
  predicate Acceptable(p: Placed) {
    match p
    case Variable(r, _, _) => r.vif != 0xFF && |r.data| <= 255
    case Fixed(content, _, _) => |content| <= 255
  }

  datatype ProcessError = DeviceErrorOrOversized

  datatype Processed = Records(items: seq<Placed>) | Failed(error: ProcessError) | Panicked

  function Process(payload: seq<Byte>): Processed {
    match Walk(payload, 0)
    case Panics => Panicked
    case Rejected(_) => Records([])
    case Parsed(items) =>
      if forall p | p in items :: Acceptable(p) then Records(items) else Failed(DeviceErrorOrOversized)
  }

  lemma {:induction false} WalkNeverRejects(payload: seq<Byte>, at: nat)
    requires at <= |payload|
    ensures !Walk(payload, at).Rejected?
    decreases |payload| - at
  {
    hide ParseRecord, ParseFixed;
    var rest := payload[at..];
    if rest != [] {
      ParseConsumes(rest);
      match ParseRecord(rest) {
        case Panics =>
        case Parsed((r, n)) => WalkNeverRejects(payload, at + n);
        case Rejected(_) =>
          match ParseFixed(rest) {
            case Panics =>
            case Parsed(_) => FixedNeedsSixteen(rest); WalkNeverRejects(payload, at + FIXED_SIZE);
            case Rejected(_) => WalkNeverRejects(payload, at + 1);
          }
      }
    }
  }

  lemma {:induction false} FixedNeedsSixteen(input: seq<Byte>)
    ensures ParseFixed(input).Parsed? ==> |input| >= 16
  {
  }

  /** The loop of `process_data`. Its safety break against endless loops is never taken. */
  method ProcessData(payload: seq<Byte>) returns (r: Processed)
    ensures r == Process(payload)
  {
    hide ParseRecord, ParseFixed;
    if payload == [] {
      return Records([]);
    }
    var records: seq<Placed> := [];
    var remaining := payload;
    ghost var walked := Walk(payload, 0);
    WalkNeverRejects(payload, 0);
    assert payload[0..] == payload;
    assert walked.Parsed? ==> records + walked.value == walked.value;
    while remaining != []
      invariant |remaining| <= |payload| && remaining == payload[|payload| - |remaining|..]
      invariant var later := Walk(payload, |payload| - |remaining|);
                walked == if later.Parsed? then Parsed(records + later.value) else later
      decreases |remaining|
    {
      ghost var at := |payload| - |remaining|;
      ParseConsumes(remaining);
      FixedNeedsSixteen(remaining);
      var parsed := ParseVariableRecordConsumed(remaining);
      match parsed {
        case Panics =>
          return Panicked;
        case Parsed((_, _)) =>
          var (record, consumed) := parsed.value;
          AppendWalked(records, Variable(record, at, consumed), Walk(payload, at + consumed));
          records := records + [Variable(record, |payload| - |remaining|, consumed)];
          if consumed >= |remaining| {
            remaining := [];
          } else {
            remaining := remaining[consumed..];
          }
        case Rejected(_) =>
          var fixedRecord := ParseFixed(remaining);
          match fixedRecord {
            case Panics =>
              return Panicked;
            case Parsed(_) =>
              AppendWalked(records, Fixed(remaining, at, FIXED_SIZE), Walk(payload, at + FIXED_SIZE));
              records := records + [Fixed(remaining, |payload| - |remaining|, FIXED_SIZE)];
              remaining := remaining[FIXED_SIZE..];
            case Rejected(_) =>
              remaining := remaining[1..];
          }
      }
      if |remaining| >= |payload| {
        assert false;
      }
    }
    assert records + [] == records;
    var valid := ValidateRecords(records);
    return if valid then Records(records) else Failed(DeviceErrorOrOversized);
  }

  method ValidateRecords(records: seq<Placed>) returns (valid: bool)
    ensures valid <==> forall p | p in records ::
              (p.Variable? ==> p.record.vif != 0xFF && |p.record.data| <= 255) && (p.Fixed? ==> |p.content| <= 255)
  {
    for i := 0 to |records|
      invariant forall j | 0 <= j < i :: Acceptable(records[j])
    {
      if !Acceptable(records[i]) {
        assert records[i] in records;
        return false;
      }
    }
    return true;
  }

  lemma {:induction false} AppendWalked(records: seq<Placed>, p: Placed, later: Outcome<seq<Placed>>)
    ensures Prepend(p, later).Parsed? <==> later.Parsed?
    ensures later.Parsed? ==> records + Prepend(p, later).value == records + [p] + later.value
    ensures !later.Parsed? ==> Prepend(p, later) == later
  {
  }
}
