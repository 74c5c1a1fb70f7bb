/** What each operation of the persistent device manager does to its store
    (metermon-rs/src/devices.rs). A transaction is atomic: the store before it and the store
    after it. */
module DeviceStore {
  import opened Wrappers
  import opened Tables

  datatype Device = Device(
    manufacturer: string,
    version: nat,
    deviceType: nat,
    typeName: string,
    frameType: string,
    ci: Option<nat>,
    encrypted: bool,
    hasKey: bool,
    silent: bool,
    firstSeen: int,
    lastSeen: int,
    framesTotal: nat,
    framesOk: nat,
    framesFail: nat,
    lastRssi: int,
    lastReading: Option<string>,
    mode: string,
    lastFreqOffset: int)

  const BLANK := Device("", 0, 0, "", "", None, false, false, false, 0, 0, 0, 0, 0, 0, None, "", 0)

  datatype Kind =
    | FirstSeen(manufacturer: string, typeName: string, version: nat, frameType: string)
    | KeyAvailable
    | Resumed(rssi: int)
    | Reading(text: string)
    | Sample(sampleRssi: int, crcOk: bool)
    | Silent(minutes: int)
    | Discovery(summary: string)
    | Imported(name: string, detail: string)

  datatype Event = Event(ts: int, meter: nat, kind: Kind)

  datatype Store = Store(
    devices: Table<Device>,
    events: Table<Event>,
    unattributed: nat,
    imported: bool)

  const EMPTY_STORE := Store([], [], 0, false)

  datatype Observation = Observation(
    meter: nat,
    manufacturer: string,
    version: nat,
    deviceType: nat,
    typeName: string,
    frameType: string,
    ci: Option<nat>,
    encrypted: bool,
    crcOk: bool,
    rssi: int,
    hasKey: bool,
    reading: Option<string>,
    mode: string,
    freqOffset: int)

  datatype Dump = Dump(devices: seq<Row<Device>>, events: seq<Event>)

  /** Sampling period (at least 1) and silence limit in seconds (none if not positive). */
  datatype Config = Config(sampleEvery: nat, silenceAfter: int)

  predicate GoodConfig(c: Config) { c.sampleEvery >= 1 }

  // ---------------------------------------------------------------- events

  function Numbered(base: nat, events: seq<Event>): Table<Event>
    decreases |events|
  {
    if events == [] then [] else [Row(base, events[0])] + Numbered(base + 1, events[1..])
  }

  /** Events are appended under the keys after the last one. */
  function Append(table: Table<Event>, events: seq<Event>): Table<Event> {
    table + Numbered(NextKey(table), events)
  }

  function Stamped(ts: int, meter: nat, kinds: seq<Kind>): (r: seq<Event>)
    ensures |r| == |kinds|
    ensures forall i | 0 <= i < |r| :: r[i] == Event(ts, meter, kinds[i])
  {
    if kinds == [] then [] else [Event(ts, meter, kinds[0])] + Stamped(ts, meter, kinds[1..])
  }

  // ---------------------------------------------------------------- record_frame

  /** The record of a device after one more frame. Only a frame with a valid CRC may create a
      device or rewrite more than the counters and the signal strength. */
  function Upserted(prev: Option<Device>, o: Observation, now: int): Device
    requires prev.Some? || o.crcOk
  {
    if !o.crcOk then
      var d := prev.value;
      d.(framesTotal := d.framesTotal + 1, framesFail := d.framesFail + 1, lastRssi := o.rssi)
    else
      var d := if prev.Some? then prev.value else BLANK;
      Device(o.manufacturer, o.version, o.deviceType, o.typeName, o.frameType, o.ci, o.encrypted,
             o.hasKey, false, if prev.None? then now else d.firstSeen, now,
             d.framesTotal + 1, d.framesOk + 1, d.framesFail, o.rssi,
             if o.reading.Some? then o.reading else d.lastReading, o.mode, o.freqOffset)
  }

  /** The kinds of event a frame leaves, in order. */
  function FrameKinds(c: Config, prev: Option<Device>, o: Observation, total: nat): seq<Kind>
    requires GoodConfig(c)
  {
    var sampled := if total % c.sampleEvery == 0 then [Sample(o.rssi, o.crcOk)] else [];
    if !o.crcOk then sampled
    else
      (if prev.None? then [FirstSeen(o.manufacturer, o.typeName, o.version, o.frameType)] else [])
      + (if o.hasKey && !(prev.Some? && prev.value.hasKey) then [KeyAvailable] else [])
      + (if prev.Some? && prev.value.silent then [Resumed(o.rssi)] else [])
      + (if o.reading.Some? && !(prev.Some? && prev.value.lastReading == o.reading)
         then [Reading(o.reading.value)] else [])
      + sampled
  }

  predicate Attributed(s: Store, o: Observation) {
    o.crcOk || Get(s.devices, o.meter).Some?
  }

  function RecordFrame(c: Config, s: Store, o: Observation, now: int): Store
    requires GoodConfig(c)
  {
    var prev := Get(s.devices, o.meter);
    if !Attributed(s, o) then s.(unattributed := s.unattributed + 1)
    else
      var d := Upserted(prev, o, now);
      s.(devices := Put(s.devices, o.meter, d),
         events := Append(s.events, Stamped(now, o.meter, FrameKinds(c, prev, o, d.framesTotal))))
  }

  // ---------------------------------------------------------------- check_silence

  predicate FallsSilent(d: Device, cutoff: int) { !d.silent && d.lastSeen < cutoff }

  function Silenced(rows: Table<Device>, cutoff: int): (r: Table<Device>)
    ensures |r| == |rows|
    ensures forall i | 0 <= i < |r| ::
              r[i] == if FallsSilent(rows[i].value, cutoff) then Row(rows[i].key, rows[i].value.(silent := true))
                      else rows[i]
  {
    if rows == [] then []
    else
      var row := rows[0];
      [if FallsSilent(row.value, cutoff) then Row(row.key, row.value.(silent := true)) else row]
      + Silenced(rows[1..], cutoff)
  }

  function SilentEvents(rows: Table<Device>, cutoff: int, now: int): seq<Event> {
    if rows == [] then []
    else
      var row := rows[0];
      (if FallsSilent(row.value, cutoff) then [Event(now, row.key, Silent((now - row.value.lastSeen) / 60))] else [])
      + SilentEvents(rows[1..], cutoff, now)
  }

  function CheckSilence(c: Config, s: Store, now: int): Store {
    if c.silenceAfter <= 0 then s
    else
      var cutoff := now - c.silenceAfter;
      s.(devices := Silenced(s.devices, cutoff),
         events := Append(s.events, SilentEvents(s.devices, cutoff, now)))
  }

  // ---------------------------------------------------------------- the other operations

  function RecordDiscovery(s: Store, summary: string, now: int): Store {
    s.(events := Append(s.events, [Event(now, 0, Discovery(summary))]))
  }

  function Ghosts(rows: Table<Device>): (r: set<nat>)
    ensures forall k | k in r :: exists i | 0 <= i < |rows| :: rows[i].key == k && rows[i].value.framesOk == 0
    ensures forall i | 0 <= i < |rows| && rows[i].value.framesOk == 0 :: rows[i].key in r
  {
    if rows == [] then {}
    else (if rows[0].value.framesOk == 0 then {rows[0].key} else {}) + Ghosts(rows[1..])
  }

  function EventsOf(rows: Table<Event>, meters: set<nat>): (r: set<nat>)
    ensures forall k | k in r :: exists i | 0 <= i < |rows| :: rows[i].key == k && rows[i].value.meter in meters
    ensures forall i | 0 <= i < |rows| && rows[i].value.meter in meters :: rows[i].key in r
  {
    if rows == [] then {}
    else (if rows[0].value.meter in meters then {rows[0].key} else {}) + EventsOf(rows[1..], meters)
  }

  function PruneGhosts(s: Store): Store {
    var ghosts := Ghosts(s.devices);
    s.(devices := Without(s.devices, ghosts),
       events := Without(s.events, EventsOf(s.events, ghosts)))
  }

  function MinNonzero(a: int, b: int): int {
    if a == 0 then b else if b == 0 then a else if a < b then a else b
  }

  function Merged(current: Option<Device>, d: Device): Device {
    match current
    case None => d.(mode := "", lastFreqOffset := 0)
    case Some(cur) =>
      cur.(framesTotal := cur.framesTotal + d.framesTotal,
           framesOk := cur.framesOk + d.framesOk,
           framesFail := cur.framesFail + d.framesFail,
           firstSeen := MinNonzero(cur.firstSeen, d.firstSeen),
           lastSeen := if cur.lastSeen >= d.lastSeen then cur.lastSeen else d.lastSeen,
           manufacturer := if cur.manufacturer == "" then d.manufacturer else cur.manufacturer,
           typeName := if cur.typeName == "" then d.typeName else cur.typeName,
           frameType := if cur.frameType == "" then d.frameType else cur.frameType)
  }

  function MergedAll(t: Table<Device>, dump: seq<Row<Device>>): Table<Device>
    decreases |dump|
  {
    if dump == [] then t
    else MergedAll(Put(t, dump[0].key, Merged(Get(t, dump[0].key), dump[0].value)), dump[1..])
  }

  /** A second import is refused and changes nothing. */
  function ImportDump(s: Store, dump: Dump): Store {
    if s.imported then s
    else
      s.(devices := MergedAll(s.devices, dump.devices),
         events := Append(s.events, dump.events),
         imported := true)
  }

  // ---------------------------------------------------------------- runs

  datatype Call =
    | Frame(o: Observation, now: int)
    | Silence(at: int)
    | Sweep(summary: string, when: int)
    | Prune
    | Import(dump: Dump)

  function Apply(c: Config, s: Store, call: Call): Store
    requires GoodConfig(c)
  {
    match call
    case Frame(o, now) => RecordFrame(c, s, o, now)
    case Silence(now) => CheckSilence(c, s, now)
    case Sweep(summary, now) => RecordDiscovery(s, summary, now)
    case Prune => PruneGhosts(s)
    case Import(dump) => ImportDump(s, dump)
  }

  /** The store after a run of calls on an empty one. */
  function After(c: Config, calls: seq<Call>): Store
    requires GoodConfig(c)
  {
    if calls == [] then EMPTY_STORE else Apply(c, After(c, calls[..|calls| - 1]), calls[|calls| - 1])
  }

  // ---------------------------------------------------------------- appending

  lemma {:induction false} NumberedRows(base: nat, events: seq<Event>)
    ensures |Numbered(base, events)| == |events|
    ensures forall i | 0 <= i < |events| :: Numbered(base, events)[i] == Row(base + i, events[i])
    decreases |events|
  {
    if events != [] {
      NumberedRows(base + 1, events[1..]);
    }
  }

  /** Appending keeps every earlier event, in its place and under its key. */
  lemma {:induction false} AppendKeeps(table: Table<Event>, events: seq<Event>)
    requires Ascending(table)
    ensures Ascending(Append(table, events))
    ensures |Append(table, events)| == |table| + |events| && Append(table, events)[..|table|] == table
    ensures forall i | 0 <= i < |events| :: Append(table, events)[|table| + i].value == events[i]
    ensures forall i | 0 <= i < |table| :: Get(Append(table, events), table[i].key) == Some(table[i].value)
  {
    NumberedRows(NextKey(table), events);
    NextKeyIsBeyond(table);
    forall i | 0 <= i < |table| ensures Get(Append(table, events), table[i].key) == Some(table[i].value) {
      GetAt(Append(table, events), i);
    }
  }

  lemma {:induction false} AppendNone(table: Table<Event>)
    ensures Append(table, []) == table
  {
    assert table + [] == table;
  }

  lemma {:induction false} AppendOne(table: Table<Event>, e: Event)
    ensures Append(table, [e]) == table + [Row(NextKey(table), e)]
  {
    NumberedRows(NextKey(table), [e]);
    assert Numbered(NextKey(table), [e]) == [Row(NextKey(table), e)];
  }

  lemma {:induction false} AppendFirst(table: Table<Event>, events: seq<Event>)
    requires events != []
    ensures Append(table, events) == Append(Append(table, [events[0]]), events[1..])
  {
    AppendOne(table, events[0]);
    var first, later := [Row(NextKey(table), events[0])], Numbered(NextKey(table) + 1, events[1..]);
    assert table + (first + later) == table + first + later;
  }

  lemma {:induction false} AppendTwice(table: Table<Event>, a: seq<Event>, b: seq<Event>)
    ensures Append(Append(table, a), b) == Append(table, a + b)
    decreases |a|
  {
    hide Append;
    if a == [] {
      assert a + b == b;
      AppendNone(table);
    } else {
      AppendFirst(table, a);
      AppendTwice(Append(table, [a[0]]), a[1..], b);
      AppendFirst(table, a + b);
      assert (a + b)[1..] == a[1..] + b;
    }
  }
}
