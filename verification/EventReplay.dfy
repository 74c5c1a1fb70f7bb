/** The device table as a fold over the store's own event log. */
module EventReplay {
  import opened Wrappers
  import opened Tables
  import opened DeviceStore

  // ---------------------------------------------------------------- replaying a log

  /** What the log of one device tells about it. */
  datatype Replayed =
    | Illegal
    | Unseen
    | Seen(firstSeen: int, silent: bool, reading: Option<string>, samples: nat)

  /** One event of a device's log. `first_seen` may only come first, `silent` and `resumed` only
      in turn, and `reading` only with a new text. Discovery summaries are global. */
  function Step(r: Replayed, e: Event): Replayed {
    if e.kind.Discovery? || r.Illegal? then r
    else if e.kind.FirstSeen? then
      if r.Unseen? then Seen(e.ts, false, None, 0) else Illegal
    else if r.Unseen? then Illegal
    else
      match e.kind
      case KeyAvailable => r
      case Silent(_) => if r.silent then Illegal else r.(silent := true)
      case Resumed(_) => if r.silent then r.(silent := false) else Illegal
      case Reading(text) => if r.reading == Some(text) then Illegal else r.(reading := Some(text))
      case Sample(_, _) => r.(samples := r.samples + 1)
      case _ => Illegal
  }

  function Replay(r: Replayed, log: seq<Event>): Replayed
    decreases |log|
  {
    if log == [] then r else Replay(Step(r, log[0]), log[1..])
  }

  /** The events of one device in order. */
  function Log(rows: Table<Event>, meter: nat): (log: seq<Event>)
    ensures forall e | e in log :: e.meter == meter
  {
    if rows == [] then []
    else (if rows[0].value.meter == meter then [rows[0].value] else []) + Log(rows[1..], meter)
  }

  /** What the device table says, in the same terms. */
  function Stored(c: Config, s: Store, meter: nat): Replayed
    requires GoodConfig(c)
  {
    match Get(s.devices, meter)
    case None => Unseen
    case Some(d) => Seen(d.firstSeen, d.silent, d.lastReading, d.framesTotal / c.sampleEvery)
  }

  // ---------------------------------------------------------------- logs and appending

  lemma {:induction false} ReplayConcat(r: Replayed, a: seq<Event>, b: seq<Event>)
    ensures Replay(r, a + b) == Replay(Replay(r, a), b)
    decreases |a|
  {
    hide Step;
    if a == [] {
      assert a + b == b;
    } else {
      assert (a + b)[1..] == a[1..] + b;
      ReplayConcat(Step(r, a[0]), a[1..], b);
    }
  }

  lemma {:induction false} LogConcat(a: Table<Event>, b: Table<Event>, meter: nat)
    ensures Log(a + b, meter) == Log(a, meter) + Log(b, meter)
  {
    if a == [] {
      assert a + b == b;
    } else {
      assert (a + b)[1..] == a[1..] + b;
      LogConcat(a[1..], b, meter);
      var first, later := if a[0].value.meter == meter then [a[0].value] else [], Log(a[1..], meter);
      assert first + (later + Log(b, meter)) == first + later + Log(b, meter);
    }
  }

  function Only(events: seq<Event>, meter: nat): (r: seq<Event>) {
    if events == [] then []
    else (if events[0].meter == meter then [events[0]] else []) + Only(events[1..], meter)
  }

  lemma {:induction false} LogOfNumbered(base: nat, events: seq<Event>, meter: nat)
    ensures Log(Numbered(base, events), meter) == Only(events, meter)
    decreases |events|
  {
    if events != [] {
      LogOfNumbered(base + 1, events[1..], meter);
      assert Numbered(base, events)[1..] == Numbered(base + 1, events[1..]);
    }
  }

  lemma {:induction false} ReplayAppended(table: Table<Event>, events: seq<Event>, meter: nat)
    ensures Replay(Unseen, Log(Append(table, events), meter))
         == Replay(Replay(Unseen, Log(table, meter)), Only(events, meter))
  {
    hide Step;
    LogConcat(table, Numbered(NextKey(table), events), meter);
    LogOfNumbered(NextKey(table), events, meter);
    ReplayConcat(Unseen, Log(table, meter), Only(events, meter));
  }

  lemma {:induction false} OnlyStamped(ts: int, meter: nat, kinds: seq<Kind>, other: nat)
    ensures Only(Stamped(ts, meter, kinds), other) == if other == meter then Stamped(ts, meter, kinds) else []
  {
    if kinds != [] {
      OnlyStamped(ts, meter, kinds[1..], other);
    }
  }

  lemma {:induction false} StampedConcat(ts: int, meter: nat, a: seq<Kind>, b: seq<Kind>)
    ensures Stamped(ts, meter, a + b) == Stamped(ts, meter, a) + Stamped(ts, meter, b)
  {
    if a == [] {
      assert a + b == b;
    } else {
      assert (a + b)[1..] == a[1..] + b;
      StampedConcat(ts, meter, a[1..], b);
    }
  }

  function ReplayKinds(r: Replayed, ts: int, meter: nat, kinds: seq<Kind>): Replayed {
    Replay(r, Stamped(ts, meter, kinds))
  }

  lemma {:induction false} ReplayKindsConcat(r: Replayed, ts: int, meter: nat, a: seq<Kind>, b: seq<Kind>)
    ensures ReplayKinds(r, ts, meter, a + b) == ReplayKinds(ReplayKinds(r, ts, meter, a), ts, meter, b)
  {
    StampedConcat(ts, meter, a, b);
    ReplayConcat(r, Stamped(ts, meter, a), Stamped(ts, meter, b));
  }

  lemma {:induction false} ReplayOneKind(r: Replayed, ts: int, meter: nat, kind: Kind)
    ensures ReplayKinds(r, ts, meter, []) == r
    ensures ReplayKinds(r, ts, meter, [kind]) == Step(r, Event(ts, meter, kind))
  {
    hide Step;
    assert Stamped(ts, meter, [kind]) == [Event(ts, meter, kind)];
    assert Replay(Step(r, Event(ts, meter, kind)), []) == Step(r, Event(ts, meter, kind));
  }

  // ---------------------------------------------------------------- one frame

  lemma {:induction false} NextMultiple(n: nat, k: nat)
    requires k >= 1
    ensures (n + 1) / k == n / k + if (n + 1) % k == 0 then 1 else 0
  {
    var q, m := n / k, n % k;
    assert n == k * q + m;
    if m + 1 == k {
      assert n + 1 == k * (q + 1);
      Quotient(n + 1, k, q + 1, 0);
    } else {
      Quotient(n + 1, k, q, m + 1);
    }
  }

  lemma {:induction false} Quotient(n: nat, k: nat, q: nat, m: nat)
    requires n == k * q + m && m < k
    ensures n / k == q && n % k == m
  {
    var d := n / k - q;
    assert k * d == k * (n / k) - k * q == m - n % k;
    assert d < 1 && d > -1;
  }

  /** The events of a frame replay to the change it makes to the device. */
  lemma {:induction false} FrameReplays(c: Config, prev: Option<Device>, o: Observation, now: int)
    requires GoodConfig(c) && (prev.Some? || o.crcOk)
    ensures var d := Upserted(prev, o, now);
            var before := match prev
                          case None => Unseen
                          case Some(p) => Seen(p.firstSeen, p.silent, p.lastReading, p.framesTotal / c.sampleEvery);
            ReplayKinds(before, now, o.meter, FrameKinds(c, prev, o, d.framesTotal))
            == Seen(d.firstSeen, d.silent, d.lastReading, d.framesTotal / c.sampleEvery)
  {
    hide ReplayKinds, Replay;
    var d := Upserted(prev, o, now);
    var total := if prev.Some? then prev.value.framesTotal else 0;
    NextMultiple(total, c.sampleEvery);
    var before := match prev
                  case None => Unseen
                  case Some(p) => Seen(p.firstSeen, p.silent, p.lastReading, p.framesTotal / c.sampleEvery);
    var sampled := if d.framesTotal % c.sampleEvery == 0 then [Sample(o.rssi, o.crcOk)] else [];
    if !o.crcOk {
      ReplayOneKind(before, now, o.meter, Sample(o.rssi, o.crcOk));
    } else {
      ValidFrameReplays(c, prev, o, now, before, sampled, d);
    }
  }

  lemma {:induction false} ValidFrameReplays(c: Config, prev: Option<Device>, o: Observation, now: int,
                                             r0: Replayed, sampled: seq<Kind>, d: Device)
    requires GoodConfig(c) && o.crcOk && d == Upserted(prev, o, now)
    requires r0 == match prev
                   case None => Unseen
                   case Some(p) => Seen(p.firstSeen, p.silent, p.lastReading, p.framesTotal / c.sampleEvery)
    requires sampled == if d.framesTotal % c.sampleEvery == 0 then [Sample(o.rssi, o.crcOk)] else []
    requires d.framesTotal / c.sampleEvery
          == (if prev.Some? then prev.value.framesTotal / c.sampleEvery else 0) + |sampled|
    ensures ReplayKinds(r0, now, o.meter, FrameKinds(c, prev, o, d.framesTotal))
         == Seen(d.firstSeen, d.silent, d.lastReading, d.framesTotal / c.sampleEvery)
  {
    hide ReplayKinds, Replay;
    var m := o.meter;
    var k1 := if prev.None? then [FirstSeen(o.manufacturer, o.typeName, o.version, o.frameType)] else [];
    var k2 := if o.hasKey && !(prev.Some? && prev.value.hasKey) then [KeyAvailable] else [];
    var k3 := if prev.Some? && prev.value.silent then [Resumed(o.rssi)] else [];
    var k4 := if o.reading.Some? && !(prev.Some? && prev.value.lastReading == o.reading)
              then [Reading(o.reading.value)] else [];
    ReplayKindsConcat(r0, now, m, k1 + k2 + k3 + k4, sampled);
    ReplayKindsConcat(r0, now, m, k1 + k2 + k3, k4);
    ReplayKindsConcat(r0, now, m, k1 + k2, k3);
    ReplayKindsConcat(r0, now, m, k1, k2);
    ReplayOneKind(r0, now, m, FirstSeen(o.manufacturer, o.typeName, o.version, o.frameType));
    var r1 := ReplayKinds(r0, now, m, k1);
    ReplayOneKind(r1, now, m, KeyAvailable);
    ReplayOneKind(r1, now, m, Resumed(o.rssi));
    var r3 := ReplayKinds(r1, now, m, k3);
    if o.reading.Some? { ReplayOneKind(r3, now, m, Reading(o.reading.value)); }
    ReplayOneKind(r3, now, m, Sample(o.rssi, o.crcOk));
    var r4 := ReplayKinds(r3, now, m, k4);
    ReplayOneKind(r4, now, m, Sample(o.rssi, o.crcOk));
  }

  // ---------------------------------------------------------------- the silence check

  lemma {:induction false} OnlyOne(e: Event, meter: nat)
    ensures Only([e], meter) == if e.meter == meter then [e] else []
    ensures Only([], meter) == []
  {
    assert [e][1..] == [];
  }

  lemma {:induction false} OnlySilent(rows: Table<Device>, cutoff: int, now: int, meter: nat)
    requires Ascending(rows)
    ensures Only(SilentEvents(rows, cutoff, now), meter)
         == match Get(rows, meter)
            case None => []
            case Some(d) => if FallsSilent(d, cutoff) then [Event(now, meter, Silent((now - d.lastSeen) / 60))] else []
    ensures Get(Silenced(rows, cutoff), meter)
         == match Get(rows, meter)
            case None => None
            case Some(d) => if FallsSilent(d, cutoff) then Some(d.(silent := true)) else Some(d)
  {
    hide FallsSilent, Only;
    if rows == [] {
      OnlyOne(Event(now, meter, KeyAvailable), meter);
    } else {
      OnlySilent(rows[1..], cutoff, now, meter);
      if rows[0].key == meter {
        GetAbsent(rows[1..], meter);
      }
      var row := rows[0];
      var e := Event(now, row.key, Silent((now - row.value.lastSeen) / 60));
      var first := if FallsSilent(row.value, cutoff) then [e] else [];
      OnlyConcat(first, SilentEvents(rows[1..], cutoff, now), meter);
      OnlyOne(Event(now, row.key, Silent((now - row.value.lastSeen) / 60)), meter);
      var row' := if FallsSilent(row.value, cutoff) then Row(row.key, row.value.(silent := true)) else row;
      assert Silenced(rows, cutoff) == [row'] + Silenced(rows[1..], cutoff);
    }
  }

  lemma {:induction false} OnlyConcat(a: seq<Event>, b: seq<Event>, meter: nat)
    ensures Only(a + b, meter) == Only(a, meter) + Only(b, meter)
  {
    if a == [] {
      assert a + b == b;
    } else {
      assert (a + b)[1..] == a[1..] + b;
      OnlyConcat(a[1..], b, meter);
      var first, later := if a[0].meter == meter then [a[0]] else [], Only(a[1..], meter);
      assert first + (later + Only(b, meter)) == first + later + Only(b, meter);
    }
  }

  // ---------------------------------------------------------------- runs without import

  predicate NoImport(calls: seq<Call>) {
    forall i | 0 <= i < |calls| :: !calls[i].Import?
  }

  /** Every device has had a valid frame, and its counters add up. */
  predicate Healthy(d: Device) { d.framesOk >= 1 && d.framesTotal == d.framesOk + d.framesFail }

  predicate AllHealthy(rows: Table<Device>) { forall r | r in rows :: Healthy(r.value) }

  predicate Tidy(s: Store) { Ascending(s.devices) && Ascending(s.events) }

  lemma {:induction false} FrameKeepsHealthy(c: Config, s: Store, o: Observation, now: int)
    requires GoodConfig(c) && Tidy(s)
    ensures Tidy(RecordFrame(c, s, o, now))
    ensures AllHealthy(s.devices) ==> AllHealthy(RecordFrame(c, s, o, now).devices)
  {
    hide Put, Append, FrameKinds, Stamped;
    if Attributed(s, o) {
      var prev := Get(s.devices, o.meter);
      var d := Upserted(prev, o, now);
      PutRows(s.devices, o.meter, d);
      AppendKeeps(s.events, Stamped(now, o.meter, FrameKinds(c, prev, o, d.framesTotal)));
      if prev.Some? {
        var i := GetFound(s.devices, o.meter);
        assert s.devices[i] in s.devices;
      }
    }
  }

  /** With every device healthy there are no ghosts, and pruning changes nothing. */
  lemma {:induction false} PruneFindsNothing(s: Store)
    requires AllHealthy(s.devices)
    ensures PruneGhosts(s) == s
  {
    var ghosts := Ghosts(s.devices);
    assert ghosts == {};
    WithoutNone(s.devices, ghosts);
    assert EventsOf(s.events, ghosts) == {};
    WithoutNone(s.events, {});
  }

  lemma {:induction false} SilenceKeepsHealthy(c: Config, s: Store, now: int)
    requires Tidy(s)
    ensures Tidy(CheckSilence(c, s, now))
    ensures AllHealthy(s.devices) ==> AllHealthy(CheckSilence(c, s, now).devices)
  {
    hide Append, SilentEvents, AllHealthy;
    var cutoff := now - c.silenceAfter;
    AppendKeeps(s.events, SilentEvents(s.devices, cutoff, now));
    if AllHealthy(s.devices) {
      SilencedHealthy(s.devices, cutoff);
    }
  }

  lemma {:induction false} SilencedHealthy(rows: Table<Device>, cutoff: int)
    requires AllHealthy(rows)
    ensures AllHealthy(Silenced(rows, cutoff))
  {
    forall r | r in Silenced(rows, cutoff) ensures Healthy(r.value) {
      var i :| 0 <= i < |rows| && Silenced(rows, cutoff)[i] == r;
      assert rows[i] in rows;
    }
  }

  lemma {:induction false} CallKeepsTidy(c: Config, s: Store, call: Call)
    requires GoodConfig(c) && Tidy(s)
    ensures Tidy(Apply(c, s, call))
    ensures !call.Import? && AllHealthy(s.devices) ==> AllHealthy(Apply(c, s, call).devices)
  {
    hide RecordFrame, CheckSilence, Append, AllHealthy;
    match call {
      case Frame(o, now) => FrameKeepsHealthy(c, s, o, now);
      case Silence(now) => SilenceKeepsHealthy(c, s, now);
      case Sweep(summary, now) => AppendKeeps(s.events, [Event(now, 0, Discovery(summary))]);
      case Prune =>
        WithoutRows(s.devices, Ghosts(s.devices));
        WithoutRows(s.events, EventsOf(s.events, Ghosts(s.devices)));
        if AllHealthy(s.devices) { PruneFindsNothing(s); }
      case Import(dump) =>
        MergedAllTidy(s.devices, dump.devices);
        AppendKeeps(s.events, dump.events);
    }
  }

  lemma {:induction false} MergedAllTidy(t: Table<Device>, dump: seq<Row<Device>>)
    requires Ascending(t)
    ensures Ascending(MergedAll(t, dump))
    decreases |dump|
  {
    hide Merged, Put;
    if dump != [] {
      var merged := Merged(Get(t, dump[0].key), dump[0].value);
      PutRows(t, dump[0].key, merged);
      MergedAllTidy(Put(t, dump[0].key, merged), dump[1..]);
    }
  }

  lemma {:induction false} RunIsTidy(c: Config, calls: seq<Call>)
    requires GoodConfig(c)
    ensures Tidy(After(c, calls))
    decreases |calls|
  {
    hide Apply;
    if calls != [] {
      RunIsTidy(c, calls[..|calls| - 1]);
      CallKeepsTidy(c, After(c, calls[..|calls| - 1]), calls[|calls| - 1]);
    }
  }

  /** Without imports a device exists only because of a valid frame, its counters add up, and
      pruning never finds anything. */
  lemma {:induction false} RunIsHealthy(c: Config, calls: seq<Call>)
    requires GoodConfig(c) && NoImport(calls)
    ensures AllHealthy(After(c, calls).devices)
    ensures PruneGhosts(After(c, calls)) == After(c, calls)
    decreases |calls|
  {
    hide Apply, AllHealthy, PruneGhosts;
    if calls == [] {
      assert AllHealthy(EMPTY_STORE.devices) by { NoRowsHealthy(); }
    } else {
      var before := calls[..|calls| - 1];
      RunIsHealthy(c, before);
      RunIsTidy(c, before);
      CallKeepsTidy(c, After(c, before), calls[|calls| - 1]);
    }
    PruneFindsNothing(After(c, calls));
  }

  lemma {:induction false} NoRowsHealthy()
    ensures AllHealthy([])
  {
  }

  // ---------------------------------------------------------------- the log determines the table

  lemma {:induction false} FrameInStep(c: Config, s: Store, o: Observation, now: int, meter: nat)
    requires GoodConfig(c) && Tidy(s)
    requires Replay(Unseen, Log(s.events, meter)) == Stored(c, s, meter)
    ensures var t := RecordFrame(c, s, o, now);
            Replay(Unseen, Log(t.events, meter)) == Stored(c, t, meter)
  {
    hide Put, Append, FrameKinds, Stamped, Upserted, Step, Log, Only, Replay;
    if Attributed(s, o) {
      var prev := Get(s.devices, o.meter);
      var d := Upserted(prev, o, now);
      var kinds := FrameKinds(c, prev, o, d.framesTotal);
      GetOfPut(s.devices, o.meter, d, meter);
      ReplayAppended(s.events, Stamped(now, o.meter, kinds), meter);
      OnlyStamped(now, o.meter, kinds, meter);
      if meter == o.meter {
        FrameReplays(c, prev, o, now);
      } else {
        ReplayNothing(Replay(Unseen, Log(s.events, meter)));
      }
    }
  }

  lemma {:induction false} ReplayNothing(r: Replayed)
    ensures Replay(r, []) == r
  {
  }

  lemma {:induction false} ReplayOne(r: Replayed, e: Event)
    ensures Replay(r, [e]) == Step(r, e)
  {
    hide Step;
    assert [e][1..] == [];
    ReplayNothing(Step(r, e));
  }

  lemma {:induction false} SilenceInStep(c: Config, s: Store, now: int, meter: nat)
    requires GoodConfig(c) && Tidy(s)
    requires Replay(Unseen, Log(s.events, meter)) == Stored(c, s, meter)
    ensures var t := CheckSilence(c, s, now);
            Replay(Unseen, Log(t.events, meter)) == Stored(c, t, meter)
  {
    hide Append, SilentEvents, Silenced, Replay, Log, Only;
    if c.silenceAfter > 0 {
      var cutoff := now - c.silenceAfter;
      var r := Replay(Unseen, Log(s.events, meter));
      OnlySilent(s.devices, cutoff, now, meter);
      ReplayAppended(s.events, SilentEvents(s.devices, cutoff, now), meter);
      ReplayNothing(r);
      match Get(s.devices, meter) {
        case None =>
        case Some(d) => ReplayOne(r, Event(now, meter, Silent((now - d.lastSeen) / 60)));
      }
    }
  }

  lemma {:induction false} DiscoveryInStep(c: Config, s: Store, summary: string, now: int, meter: nat)
    requires GoodConfig(c)
    requires Replay(Unseen, Log(s.events, meter)) == Stored(c, s, meter)
    ensures var t := RecordDiscovery(s, summary, now);
            Replay(Unseen, Log(t.events, meter)) == Stored(c, t, meter)
  {
    hide Append, Replay, Log;
    var e := Event(now, 0, Discovery(summary));
    var r := Replay(Unseen, Log(s.events, meter));
    ReplayAppended(s.events, [e], meter);
    assert Only([e], meter) == if meter == 0 then [e] else [] by { assert [e][1..] == []; }
    ReplayNothing(r);
    ReplayOne(r, e);
  }

  /** In every run without imports, replaying the log of any device gives what the device table
      says of it: whether it exists, when it was first seen, whether it is silent, its last
      reading, and how many samples its frame count stands for. */
  lemma {:induction false} LogDeterminesDevice(c: Config, calls: seq<Call>, meter: nat)
    requires GoodConfig(c) && NoImport(calls)
    ensures Replay(Unseen, Log(After(c, calls).events, meter)) == Stored(c, After(c, calls), meter)
    decreases |calls|
  {
    hide RecordFrame, CheckSilence, RecordDiscovery, PruneGhosts, Log, Replay, Tidy;
    if calls == [] {
      ReplayNothing(Unseen);
      assert Log([], meter) == [] by { NoLog(meter); }
    } else {
      var before := calls[..|calls| - 1];
      var s := After(c, before);
      LogDeterminesDevice(c, before, meter);
      RunIsTidy(c, before);
      match calls[|calls| - 1] {
        case Frame(o, now) => FrameInStep(c, s, o, now, meter);
        case Silence(now) => SilenceInStep(c, s, now, meter);
        case Sweep(summary, now) => DiscoveryInStep(c, s, summary, now, meter);
        case Prune => RunIsHealthy(c, before);
        case Import(_) => assert false;
      }
    }
  }

  lemma {:induction false} NoLog(meter: nat)
    ensures Log([], meter) == []
  {
  }

  // ---------------------------------------------------------------- what a legal log looks like

  /** The kinds of a log's events, without discovery summaries. */
  function Kinds(log: seq<Event>): (r: seq<Kind>)
    ensures forall k | k in r :: !k.Discovery?
  {
    if log == [] then []
    else
      var last := log[|log| - 1].kind;
      Kinds(log[..|log| - 1]) + if last.Discovery? then [] else [last]
  }

  /** True for each `silent`, false for each `resumed`. */
  function Turns(log: seq<Event>): seq<bool> {
    if log == [] then []
    else
      var last := log[|log| - 1].kind;
      Turns(log[..|log| - 1]) + if last.Silent? then [true] else if last.Resumed? then [false] else []
  }

  function Readings(log: seq<Event>): seq<string> {
    if log == [] then []
    else
      var last := log[|log| - 1].kind;
      Readings(log[..|log| - 1]) + if last.Reading? then [last.text] else []
  }

  function Samples(log: seq<Event>): nat {
    if log == [] then 0
    else Samples(log[..|log| - 1]) + if log[|log| - 1].kind.Sample? then 1 else 0
  }

  predicate OnceAndFirst(kinds: seq<Kind>) {
    kinds != [] && kinds[0].FirstSeen? && forall i | 1 <= i < |kinds| :: !kinds[i].FirstSeen?
  }

  predicate Alternating(turns: seq<bool>) {
    forall i | 0 <= i < |turns| :: turns[i] == (i % 2 == 0)
  }

  predicate NoRepeat(readings: seq<string>) {
    forall i | 0 < i < |readings| :: readings[i - 1] != readings[i]
  }

  function LastOf(readings: seq<string>): Option<string> {
    if readings == [] then None else Some(readings[|readings| - 1])
  }

  /** What a legal log with the given result consists of. */
  predicate Tells(r: Replayed, kinds: seq<Kind>, turns: seq<bool>, readings: seq<string>, samples: nat) {
    match r
    case Illegal => true
    case Unseen => kinds == [] && turns == [] && readings == [] && samples == 0
    case Seen(_, silent, reading, n) =>
      && OnceAndFirst(kinds)
      && Alternating(turns) && (silent <==> |turns| % 2 == 1)
      && NoRepeat(readings) && reading == LastOf(readings)
      && n == samples
  }

  lemma {:induction false} AlternatingStep(turns: seq<bool>, silent: bool)
    requires Alternating(turns)
    ensures Alternating(turns + [silent]) <==> (silent <==> |turns| % 2 == 0)
    ensures |turns + [silent]| % 2 == 1 - |turns| % 2
  {
    if Alternating(turns + [silent]) {
      assert (turns + [silent])[|turns|] == silent;
    }
  }

  lemma {:induction false} TellsStep(r: Replayed, e: Event, kinds: seq<Kind>, turns: seq<bool>,
                                     readings: seq<string>, samples: nat)
    requires Tells(r, kinds, turns, readings, samples) && !e.kind.Discovery? && !Step(r, e).Illegal?
    ensures Tells(Step(r, e), kinds + [e.kind],
                  turns + (if e.kind.Silent? then [true] else if e.kind.Resumed? then [false] else []),
                  readings + (if e.kind.Reading? then [e.kind.text] else []),
                  samples + (if e.kind.Sample? then 1 else 0))
  {
    hide Alternating;
    assert turns + [] == turns && readings + [] == readings;
    if r.Seen? {
      AlternatingStep(turns, e.kind.Silent?);
    } else {
      NothingAlternates();
    }
  }

  lemma {:induction false} NothingAlternates()
    ensures Alternating([])
  {
  }

  lemma {:induction false} LegalLog(log: seq<Event>)
    ensures Tells(Replay(Unseen, log), Kinds(log), Turns(log), Readings(log), Samples(log))
    decreases |log|
  {
    hide Replay, Step, Tells;
    if log == [] {
      ReplayNothing(Unseen);
      TellsNothing();
    } else {
      var init, last := log[..|log| - 1], log[|log| - 1];
      assert log == init + [last];
      ReplayConcat(Unseen, init, [last]);
      ReplayOne(Replay(Unseen, init), last);
      LegalLog(init);
      LegalLogStep(Replay(Unseen, init), last, Kinds(init), Turns(init), Readings(init), Samples(init));
    }
  }

  lemma {:induction false} TellsNothing()
    ensures Tells(Unseen, [], [], [], 0)
  {
  }

  lemma {:induction false} LegalLogStep(r: Replayed, e: Event, kinds: seq<Kind>, turns: seq<bool>,
                                        readings: seq<string>, samples: nat)
    requires Tells(r, kinds, turns, readings, samples)
    ensures Tells(Step(r, e), kinds + (if e.kind.Discovery? then [] else [e.kind]),
                  turns + (if e.kind.Silent? then [true] else if e.kind.Resumed? then [false] else []),
                  readings + (if e.kind.Reading? then [e.kind.text] else []),
                  samples + (if e.kind.Sample? then 1 else 0))
  {
    hide OnceAndFirst, Alternating, NoRepeat, LastOf;
    if e.kind.Discovery? {
      assert kinds + [] == kinds && turns + [] == turns && readings + [] == readings;
    } else if !Step(r, e).Illegal? {
      TellsStep(r, e, kinds, turns, readings, samples);
    }
  }

  /** The history of every device in every run without imports: `first_seen` comes once and
      first, `silent` and `resumed` alternate starting with `silent` and the last of them is
      the stored flag, no two readings in a row are equal and the last one is the stored one,
      and there is one sample per full sampling period. A device that is not in the table has
      left no events. */
  lemma {:induction false} DeviceHistory(c: Config, calls: seq<Call>, meter: nat)
    requires GoodConfig(c) && NoImport(calls)
    ensures var log := Log(After(c, calls).events, meter);
            match Get(After(c, calls).devices, meter)
            case None => Kinds(log) == []
            case Some(d) =>
              && OnceAndFirst(Kinds(log))
              && Alternating(Turns(log)) && (d.silent <==> |Turns(log)| % 2 == 1)
              && NoRepeat(Readings(log)) && d.lastReading == LastOf(Readings(log))
              && Samples(log) == d.framesTotal / c.sampleEvery
  {
    hide Replay, After, Log, Kinds, Turns, Readings, Samples, OnceAndFirst, Alternating, NoRepeat, LastOf;
    LogDeterminesDevice(c, calls, meter);
    LegalLog(Log(After(c, calls).events, meter));
  }
}
