/** What the walk over a payload delivers: exactly the records that were encoded, at the offsets
    they were encoded at; and for an arbitrary payload, disjoint records in order that stand on
    their own. */
module PayloadWalk {
  import opened Casts
  import opened Records
  import opened RecordWalk
  import opened RecordEncoding
  import opened RecordPanics

  /** How a payload ends: with idle fillers, with a record that takes all that is left, or with
      the header of a variable-length record whose length byte is missing or too large. */
  datatype End =
    | Idle(n: nat)
    | Rest(fillers: nat, dif: Byte, bytes: seq<Byte>)
    | Broken(header: Wire, bytes: seq<Byte>)

  predicate GoodEnd(end: End) {
    match end
    case Idle(_) => true
    case Rest(_, dif, _) => TakesAll(dif)
    case Broken(header, bytes) => HeaderWellFormed(header) && IsVariableLength(header.dif) && FatalLength(bytes)
  }

  predicate PanicsAtEnd(end: End) {
    end.Broken? || (end.Rest? && |end.bytes| > DATA_CAPACITY)
  }

  function EncodeEnd(end: End): seq<Byte> {
    match end
    case Idle(n) => FillerBytes(n)
    case Rest(fillers, dif, bytes) => FillerBytes(fillers) + ([dif] + bytes)
    case Broken(header, bytes) => HeaderThen(header, bytes)
  }

  function EncodeAll(ws: seq<Wire>, end: End): seq<Byte> {
    if ws == [] then EncodeEnd(end) else Encode(ws[0]) + EncodeAll(ws[1..], end)
  }

  /** The records of a payload at the offsets their encodings stand at. */
  function Placements(ws: seq<Wire>, end: End, at: nat): seq<Placed> {
    if ws != [] then
      [Variable(RecordOf(ws[0]), at, |Encode(ws[0])|)] + Placements(ws[1..], end, at + |Encode(ws[0])|)
    else if !end.Rest? then []
    else [Variable(RestRecord(end), at, |EncodeEnd(end)|)]
  }

  function RestRecord(end: End): Record
    requires end.Rest?
  {
    Record(end.dif, [], 0, [], [], end.bytes, end.dif == MORE_RECORDS_FOLLOW)
  }

  // ---------------------------------------------------------------- the end of a payload

  lemma {:induction false} FillersRejected(n: nat)
    ensures ParseRecord(FillerBytes(n)).Rejected? && ParseFixed(FillerBytes(n)).Rejected?
  {
    hide ParseVib, TakesAll;
    FillersOf(n, []);
    assert FillerBytes(n) + [] == FillerBytes(n);
    if n >= 16 {
      assert FillerBytes(n)[0] == IDLE_FILLER;
      assert !IsBcd(IDLE_FILLER);
    }
  }

  lemma {:induction false} WalkFillers(payload: seq<Byte>, at: nat)
    requires at <= |payload| && payload[at..] == FillerBytes(|payload| - at)
    ensures Walk(payload, at) == Parsed([])
    decreases |payload| - at
  {
    hide ParseRecord, ParseFixed;
    FillersRejected(|payload| - at);
    if at < |payload| {
      assert payload[at + 1..] == payload[at..][1..];
      WalkFillers(payload, at + 1);
    }
  }

  lemma {:induction false} ParseOfRest(end: End)
    requires end.Rest? && TakesAll(end.dif)
    ensures ParseRecord(EncodeEnd(end))
         == if |end.bytes| > DATA_CAPACITY then Panics else Parsed((RestRecord(end), |EncodeEnd(end)|))
  {
    hide ParseVib;
    var after := [end.dif] + end.bytes;
    FillersOf(end.fillers, after);
    var input := EncodeEnd(end);
    assert input[end.fillers] == end.dif;
    assert input[end.fillers + 1..] == after[1..] == end.bytes;
  }

  lemma {:induction false} WalkEnd(payload: seq<Byte>, at: nat, end: End)
    requires at <= |payload| && payload[at..] == EncodeEnd(end) && GoodEnd(end)
    ensures Walk(payload, at)
         == if PanicsAtEnd(end) then Panics else Parsed(Placements([], end, at))
  {
    hide ParseRecord, ParseFixed, FillerBytes, TakesAll, HeaderWellFormed, IsVariableLength, FatalLength, HeaderThen;
    if end.Idle? {
      assert end.n == |payload| - at;
      WalkFillers(payload, at);
    } else if end.Broken? {
      HeaderThenPanicsIff(end.header, end.bytes);
      HeaderIsSomething(end.header, end.bytes);
    } else {
      ParseOfRest(end);
      assert payload[|payload|..] == [];
      if |end.bytes| <= DATA_CAPACITY {
        assert Walk(payload, |payload|) == Parsed([]);
        var p := Variable(RestRecord(end), at, |EncodeEnd(end)|);
        ParseConsumes(payload[at..]);
        assert [p] + [] == [p];
        assert Walk(payload, at) == Prepend(p, Walk(payload, |payload|));
      }
    }
  }

  lemma {:induction false} HeaderIsSomething(w: Wire, rest: seq<Byte>)
    ensures HeaderThen(w, rest) != []
  {
  }

  // ---------------------------------------------------------------- the whole payload

  lemma {:induction false} WalkEncoded(payload: seq<Byte>, at: nat, ws: seq<Wire>, end: End)
    requires at <= |payload| && payload[at..] == EncodeAll(ws, end) && GoodEnd(end)
    requires forall w | w in ws :: WellFormed(w)
    ensures Walk(payload, at)
         == if PanicsAtEnd(end) then Panics else Parsed(Placements(ws, end, at))
    decreases |ws|
  {
    hide ParseRecord, ParseFixed, Encode, RecordOf, WellFormed, GoodEnd, EncodeEnd, PanicsAtEnd;
    if ws == [] {
      WalkEnd(payload, at, end);
    } else {
      var later := EncodeAll(ws[1..], end);
      var n := |Encode(ws[0])|;
      ParseOfEncode(ws[0], later);
      ParseConsumes(payload[at..]);
      assert payload[at + n..] == payload[at..][n..] == later;
      WalkEncoded(payload, at + n, ws[1..], end);
    }
  }

  lemma {:induction false} WellFormedDataIsShort(w: Wire)
    requires WellFormed(w)
    ensures |w.data| <= 191
  {
    hide ChainAfter, IsPlainTextVif, IsVariableLength, TakesAll, DifDataLength;
  }

  lemma {:induction false} PlacementsAcceptable(ws: seq<Wire>, end: End, at: nat)
    requires forall w | w in ws :: WellFormed(w)
    ensures (forall p | p in Placements(ws, end, at) :: Acceptable(p))
       <==> (forall w | w in ws :: w.vif != 0xFF) && (end.Rest? ==> |end.bytes| <= 255)
    decreases |ws|
  {
    hide WellFormed, Encode, EncodeEnd;
    if ws == [] {
      if end.Rest? {
        assert Placements(ws, end, at)[0] in Placements(ws, end, at);
      }
    } else {
      var later := Placements(ws[1..], end, at + |Encode(ws[0])|);
      var first := Variable(RecordOf(ws[0]), at, |Encode(ws[0])|);
      assert ws == [ws[0]] + ws[1..];
      WellFormedDataIsShort(ws[0]);
      PlacementsAcceptable(ws[1..], end, at + |Encode(ws[0])|);
      assert Placements(ws, end, at) == [first] + later;
      assert Acceptable(first) <==> ws[0].vif != 0xFF;
      assert forall p :: p in Placements(ws, end, at) <==> p == first || p in later;
    }
  }

  /** The walk over any concatenation of well-formed records returns exactly those records, in
      order and at their exact offsets, unless one of them carries the device-error VIF, the
      last one takes more than 255 bytes, or a variable-length one breaks off. */
  lemma {:induction false} ProcessOfEncoded(ws: seq<Wire>, end: End)
    requires GoodEnd(end)
    requires forall w | w in ws :: WellFormed(w)
    ensures Process(EncodeAll(ws, end))
         == if PanicsAtEnd(end) then Panicked
            else if (exists w | w in ws :: w.vif == 0xFF) || (end.Rest? && |end.bytes| == DATA_CAPACITY)
                 then Failed(DeviceErrorOrOversized)
            else Records(Placements(ws, end, 0))
  {
    hide WellFormed, Walk, Placements, Acceptable, GoodEnd;
    var payload := EncodeAll(ws, end);
    assert payload[0..] == payload;
    WalkEncoded(payload, 0, ws, end);
    PlacementsAcceptable(ws, end, 0);
  }

  // ---------------------------------------------------------------- any payload

  /** No record starts at any of these positions. */
  predicate Skipped(payload: seq<Byte>, from: nat, to: nat)
    requires to <= |payload|
  {
    forall q | from <= q < to :: ParseRecord(payload[q..]).Rejected? && ParseFixed(payload[q..]).Rejected?
  }

  /** The items lie in order and without overlap in the payload from `at` on, and nothing that
      could be parsed lies between them or after them. */
  predicate InOrder(payload: seq<Byte>, items: seq<Placed>, at: nat)
    decreases |items|
  {
    if items == [] then Skipped(payload, at, |payload|)
    else
      && at <= items[0].start && 1 <= items[0].size && items[0].start + items[0].size <= |payload|
      && Skipped(payload, at, items[0].start)
      && InOrder(payload, items[1..], items[0].start + items[0].size)
  }

  /** The bytes of a variable-length item parse to that item even when nothing follows them; a
      fixed one is three bytes of a rest that only the fallback parser accepts. */
  predicate StandsAlone(payload: seq<Byte>, p: Placed) {
    && p.start + p.size <= |payload|
    && match p
       case Variable(record, start, size) => ParseRecord(payload[start..start + size]) == Parsed((record, size))
       case Fixed(content, start, size) =>
         size == 3 && content == payload[start..] && ParseRecord(content).Rejected? && ParseFixed(content).Parsed?
  }

  lemma {:induction false} OneMoreSkipped(payload: seq<Byte>, at: nat, items: seq<Placed>)
    requires at < |payload| && ParseRecord(payload[at..]).Rejected? && ParseFixed(payload[at..]).Rejected?
    requires InOrder(payload, items, at + 1)
    ensures InOrder(payload, items, at)
  {
    hide ParseRecord, ParseFixed;
  }

  lemma {:induction false} ConsumedPartStandsAlone(input: seq<Byte>, r: Record, n: nat)
    requires ParseRecord(input) == Parsed((r, n)) && n <= |input|
    ensures ParseRecord(input[..n]) == Parsed((r, n))
  {
    hide ParseRecord, WellFormed, Encode, TakesAll;
    if TakesAll(r.dif) {
      TakesAllConsumesAll(input, r, n);
      assert input[..n] == input;
    } else {
      var w := ParsedIsEncoding(input, r, n);
      if WellFormed(w) {
        ParseOfEncode(w, []);
        assert Encode(w) + [] == Encode(w);
      } else {
        assert input[..n] == input;
      }
    }
  }

  lemma {:induction false} TakesAllConsumesAll(input: seq<Byte>, r: Record, n: nat)
    requires ParseRecord(input) == Parsed((r, n)) && TakesAll(r.dif)
    ensures n == |input|
  {
    hide TakesAll, ParseVib, VariableDataLength, DifDataLength, IsVariableLength, HasExtension, ChainLength;
    var k := Fillers(input);
    if !TakesAll(input[k]) {
      var nd := if HasExtension(input[k]) then ChainLength(input[k + 1..], MAX_EXTENSIONS) else 0;
      VibHead(input[k], input[k + 1..][..nd], input[k + 1..][nd..]);
      assert false;
    }
  }

  lemma {:induction false} InOrderFirst(payload: seq<Byte>, p: Placed, later: seq<Placed>)
    requires 1 <= p.size && p.start + p.size <= |payload|
    requires InOrder(payload, later, p.start + p.size)
    ensures InOrder(payload, [p] + later, p.start)
  {
    hide ParseRecord, ParseFixed;
    assert ([p] + later)[1..] == later;
  }

  /** For any payload the walk delivers disjoint records in order, each of which stands alone,
      and misses none: no position between them starts one. */
  lemma {:induction false} WalkPlacement(payload: seq<Byte>, at: nat, items: seq<Placed>)
    requires at <= |payload| && Walk(payload, at) == Parsed(items)
    ensures InOrder(payload, items, at)
    ensures forall p | p in items :: StandsAlone(payload, p)
    decreases |payload| - at
  {
    hide ParseRecord, ParseFixed, InOrder;
    var rest := payload[at..];
    if rest == [] {
      NothingLeft(payload, at);
    } else {
      ParseConsumes(rest);
      match ParseRecord(rest) {
        case Panics => assert false;
        case Parsed((r, n)) =>
          WalkPlacement(payload, at + n, items[1..]);
          ConsumedPartStandsAlone(rest, r, n);
          assert rest[..n] == payload[at..at + n];
          assert items == [Variable(r, at, n)] + items[1..];
          assert StandsAlone(payload, items[0]);
          InOrderFirst(payload, items[0], items[1..]);
        case Rejected(_) =>
          match ParseFixed(rest) {
            case Panics => assert false;
            case Parsed(_) =>
              FixedNeedsSixteen(rest);
              WalkPlacement(payload, at + FIXED_SIZE, items[1..]);
              assert items == [Fixed(rest, at, FIXED_SIZE)] + items[1..];
              InOrderFirst(payload, items[0], items[1..]);
            case Rejected(_) =>
              WalkPlacement(payload, at + 1, items);
              OneMoreSkipped(payload, at, items);
          }
      }
    }
  }

  lemma {:induction false} NothingLeft(payload: seq<Byte>, at: nat)
    requires at == |payload|
    ensures InOrder(payload, [], at)
  {
  }
}
