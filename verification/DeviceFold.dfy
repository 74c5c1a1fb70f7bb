/** The record of every device told from the calls alone, without the store. */
module DeviceFold {
  import opened Wrappers
  import opened Tables
  import opened DeviceStore
  import opened EventReplay

  /** A frame with a valid CRC and the time it came. */
  datatype Heard = Heard(o: Observation, now: int)

  predicate IsValidFrame(call: Call, meter: nat) {
    call.Frame? && call.o.meter == meter && call.o.crcOk
  }

  /** The valid frames of a device, in order. */
  function ValidFrames(calls: seq<Call>, meter: nat): (r: seq<Heard>) {
    if calls == [] then []
    else
      var last := calls[|calls| - 1];
      ValidFrames(calls[..|calls| - 1], meter)
      + if IsValidFrame(last, meter) then [Heard(last.o, last.now)] else []
  }

  /** Number of CRC-failed frames of a device after its first valid one. */
  function FailedFrames(calls: seq<Call>, meter: nat): nat {
    if calls == [] then 0
    else
      var before, last := calls[..|calls| - 1], calls[|calls| - 1];
      FailedFrames(before, meter)
      + if last.Frame? && last.o.meter == meter && !last.o.crcOk && ValidFrames(before, meter) != [] then 1 else 0
  }

  /** Number of CRC-failed frames of meters without a valid frame until then. */
  function StrayFrames(calls: seq<Call>): nat {
    if calls == [] then 0
    else
      var before, last := calls[..|calls| - 1], calls[|calls| - 1];
      StrayFrames(before)
      + if last.Frame? && !last.o.crcOk && ValidFrames(before, last.o.meter) == [] then 1 else 0
  }

  /** Whether a silence check since the last valid frame found that frame too old. */
  function FoundSilent(c: Config, calls: seq<Call>, meter: nat): bool {
    if calls == [] then false
    else
      var before, last := calls[..|calls| - 1], calls[|calls| - 1];
      var frames := ValidFrames(before, meter);
      if IsValidFrame(last, meter) then false
      else
        FoundSilent(c, before, meter)
        || (last.Silence? && c.silenceAfter > 0 && frames != []
            && frames[|frames| - 1].now < last.at - c.silenceAfter)
  }

  function LastReading(frames: seq<Heard>): Option<string> {
    if frames == [] then None
    else
      var last := frames[|frames| - 1].o.reading;
      if last.Some? then last else LastReading(frames[..|frames| - 1])
  }

  /** Signal strength of the last frame of a known device, valid or not. */
  function LastRssi(calls: seq<Call>, meter: nat): int {
    if calls == [] then 0
    else
      var before, last := calls[..|calls| - 1], calls[|calls| - 1];
      if last.Frame? && last.o.meter == meter && (last.o.crcOk || ValidFrames(before, meter) != []) then last.o.rssi
      else LastRssi(before, meter)
  }

  /** The record that the calls say a device should have. */
  function RecordOf(c: Config, calls: seq<Call>, meter: nat): Option<Device> {
    var frames := ValidFrames(calls, meter);
    if frames == [] then None
    else
      var (o, now) := (frames[|frames| - 1].o, frames[|frames| - 1].now);
      Some(Device(o.manufacturer, o.version, o.deviceType, o.typeName, o.frameType, o.ci, o.encrypted,
                  o.hasKey, FoundSilent(c, calls, meter), frames[0].now, now,
                  |frames| + FailedFrames(calls, meter), |frames|, FailedFrames(calls, meter),
                  LastRssi(calls, meter), LastReading(frames), o.mode, o.freqOffset))
  }

  // ---------------------------------------------------------------- one more call

  lemma {:induction false} NoneFailedYet(calls: seq<Call>, meter: nat)
    requires ValidFrames(calls, meter) == []
    ensures FailedFrames(calls, meter) == 0
  {
    if calls != [] {
      NoneFailedYet(calls[..|calls| - 1], meter);
    }
  }

  lemma {:induction false} AfterFrame(c: Config, calls: seq<Call>, meter: nat)
    requires calls != [] && calls[|calls| - 1].Frame?
    ensures var before, last := calls[..|calls| - 1], calls[|calls| - 1];
            var prev := RecordOf(c, before, meter);
            RecordOf(c, calls, meter)
            == if last.o.meter == meter && (prev.Some? || last.o.crcOk) then Some(Upserted(prev, last.o, last.now))
               else prev
  {
    var before, last := calls[..|calls| - 1], calls[|calls| - 1];
    var frames := ValidFrames(before, meter);
    if last.o.meter == meter && last.o.crcOk {
      var longer := frames + [Heard(last.o, last.now)];
      assert ValidFrames(calls, meter) == longer;
      if frames == [] { NoneFailedYet(before, meter); }
      assert longer[..|frames|] == frames;
      assert LastReading(longer) == if last.o.reading.Some? then last.o.reading else LastReading(frames);
    } else {
      assert ValidFrames(calls, meter) == frames;
    }
  }

  lemma {:induction false} AfterSilence(c: Config, calls: seq<Call>, meter: nat)
    requires calls != [] && calls[|calls| - 1].Silence?
    ensures var prev := RecordOf(c, calls[..|calls| - 1], meter);
            var cutoff := calls[|calls| - 1].at - c.silenceAfter;
            RecordOf(c, calls, meter)
            == if prev.Some? && c.silenceAfter > 0 && FallsSilent(prev.value, cutoff)
               then Some(prev.value.(silent := true)) else prev
  {
    hide LastReading;
    assert ValidFrames(calls, meter) == ValidFrames(calls[..|calls| - 1], meter);
  }

  lemma {:induction false} AfterOther(c: Config, calls: seq<Call>, meter: nat)
    requires calls != [] && (calls[|calls| - 1].Sweep? || calls[|calls| - 1].Prune?)
    ensures RecordOf(c, calls, meter) == RecordOf(c, calls[..|calls| - 1], meter)
  {
    hide LastReading;
    assert ValidFrames(calls, meter) == ValidFrames(calls[..|calls| - 1], meter);
  }

  lemma {:induction false} StrayStep(c: Config, calls: seq<Call>)
    requires calls != []
    ensures var before, last := calls[..|calls| - 1], calls[|calls| - 1];
            StrayFrames(calls) == StrayFrames(before)
              + if last.Frame? && !last.o.crcOk && RecordOf(c, before, last.o.meter).None? then 1 else 0
  {
    hide LastReading, FoundSilent, FailedFrames, LastRssi;
  }

  lemma {:induction false} GetSilenced(rows: Table<Device>, cutoff: int, meter: nat)
    requires Ascending(rows)
    ensures Get(Silenced(rows, cutoff), meter)
         == match Get(rows, meter)
            case None => None
            case Some(d) => if FallsSilent(d, cutoff) then Some(d.(silent := true)) else Some(d)
  {
    OnlySilent(rows, cutoff, 0, meter);
  }

  lemma {:induction false} GetAfter(c: Config, s: Store, call: Call, meter: nat)
    requires GoodConfig(c) && Tidy(s) && !call.Import? && !call.Prune?
    ensures Get(Apply(c, s, call).devices, meter)
         == match call
            case Frame(o, now) =>
              if o.meter == meter && Attributed(s, o) then Some(Upserted(Get(s.devices, meter), o, now))
              else Get(s.devices, meter)
            case Silence(at) =>
              var d := Get(s.devices, meter);
              if d.Some? && c.silenceAfter > 0 && FallsSilent(d.value, at - c.silenceAfter)
              then Some(d.value.(silent := true)) else d
            case _ => Get(s.devices, meter)
    ensures Apply(c, s, call).unattributed
         == s.unattributed + if call.Frame? && !Attributed(s, call.o) then 1 else 0
  {
    hide Append, FrameKinds, Stamped, Upserted, Put, Get, Silenced, SilentEvents, FallsSilent;
    match call {
      case Frame(o, now) =>
        if Attributed(s, o) {
          GetOfPut(s.devices, o.meter, Upserted(Get(s.devices, o.meter), o, now), meter);
        }
      case Silence(at) => GetSilenced(s.devices, at - c.silenceAfter, meter);
      case _ =>
    }
  }

  /** In every run without imports the table holds, for every meter, exactly the record its
      frames and the silence checks call for: it exists from the first valid frame on; identity,
      key, mode and last-seen time are those of the last valid frame; the counters are those of
      its valid and failed frames; it is silent if and only if a check since the last valid
      frame found it overdue. Failed frames of unknown meters are all counted as
      unattributed. */
  lemma {:induction false} TableIsFoldOfCalls(c: Config, calls: seq<Call>, meter: nat)
    requires GoodConfig(c) && NoImport(calls)
    ensures Get(After(c, calls).devices, meter) == RecordOf(c, calls, meter)
    ensures After(c, calls).unattributed == StrayFrames(calls)
    decreases |calls|
  {
    hide RecordOf, Apply, PruneGhosts, Tidy, Upserted, FallsSilent, StrayFrames, Get;
    if calls == [] {
      NothingHeard(c, meter);
    } else {
      var before, last := calls[..|calls| - 1], calls[|calls| - 1];
      var s := After(c, before);
      TableIsFoldOfCalls(c, before, meter);
      RunIsTidy(c, before);
      StrayStep(c, calls);
      match last {
        case Frame(o, now) =>
          TableIsFoldOfCalls(c, before, o.meter);
          AfterFrame(c, calls, meter);
          GetAfter(c, s, last, meter);
        case Silence(_) =>
          AfterSilence(c, calls, meter);
          GetAfter(c, s, last, meter);
        case Sweep(_, _) =>
          AfterOther(c, calls, meter);
          GetAfter(c, s, last, meter);
        case Prune =>
          AfterOther(c, calls, meter);
          RunIsHealthy(c, before);
          PruneIs(c, s);
        case Import(_) => assert false;
      }
    }
  }

  lemma {:induction false} PruneIs(c: Config, s: Store)
    requires GoodConfig(c)
    ensures Apply(c, s, Prune) == PruneGhosts(s)
  {
  }

  lemma {:induction false} NothingHeard(c: Config, meter: nat)
    ensures RecordOf(c, [], meter) == None && StrayFrames([]) == 0
    ensures Get(EMPTY_STORE.devices, meter) == None
  {
  }

  // ---------------------------------------------------------------- the log

  /** The events that the calls say a device's log should have, in order: of a frame, first sight,
      a key that was not there with the last valid frame, the end of a silence, a new reading, and
      a sample of every so many frames; of a check, the beginning of a silence; under meter 0, the
      discovery summaries. */
  function ExpectedLog(c: Config, calls: seq<Call>, meter: nat): seq<Event>
    requires GoodConfig(c)
  {
    if calls == [] then []
    else
      var before, last := calls[..|calls| - 1], calls[|calls| - 1];
      var frames := ValidFrames(before, meter);
      ExpectedLog(c, before, meter) +
      match last
      case Frame(o, now) =>
        if o.meter == meter && (o.crcOk || frames != []) then
          FrameEvents(c, frames, FailedFrames(before, meter), FoundSilent(c, before, meter), o, now)
        else []
      case Silence(at) =>
        if !FoundSilent(c, before, meter) && FoundSilent(c, calls, meter) && frames != []
        then [Event(at, meter, Silent((at - frames[|frames| - 1].now) / 60))] else []
      case Sweep(summary, when) => if meter == 0 then [Event(when, 0, Discovery(summary))] else []
      case _ => []
  }

  function FrameEvents(c: Config, frames: seq<Heard>, failed: nat, silent: bool, o: Observation, now: int): seq<Event>
    requires GoodConfig(c)
  {
    var isNew := frames == [];
    var keyKnown := !isNew && frames[|frames| - 1].o.hasKey;
    (if o.crcOk && isNew
     then [Event(now, o.meter, FirstSeen(o.manufacturer, o.typeName, o.version, o.frameType))] else [])
    + (if o.crcOk && o.hasKey && !keyKnown then [Event(now, o.meter, KeyAvailable)] else [])
    + (if o.crcOk && silent then [Event(now, o.meter, Resumed(o.rssi))] else [])
    + (if o.crcOk && o.reading.Some? && o.reading != LastReading(frames)
       then [Event(now, o.meter, Reading(o.reading.value))] else [])
    + (if (|frames| + failed + 1) % c.sampleEvery == 0 then [Event(now, o.meter, Sample(o.rssi, o.crcOk))] else [])
  }

  lemma {:induction false} NotSilentYet(c: Config, calls: seq<Call>, meter: nat)
    requires ValidFrames(calls, meter) == []
    ensures !FoundSilent(c, calls, meter)
  {
    if calls != [] {
      NotSilentYet(c, calls[..|calls| - 1], meter);
    }
  }

  lemma {:induction false} StampedOne(ts: int, meter: nat, yes: bool, kind: Kind)
    ensures Stamped(ts, meter, if yes then [kind] else []) == if yes then [Event(ts, meter, kind)] else []
  {
    assert Stamped(ts, meter, []) == [];
    assert [kind][1..] == [];
  }

  lemma {:induction false} StampedFive(ts: int, m: nat, a: seq<Kind>, b: seq<Kind>, c: seq<Kind>, d: seq<Kind>,
                                       e: seq<Kind>)
    ensures Stamped(ts, m, a + b + c + d + e)
         == Stamped(ts, m, a) + Stamped(ts, m, b) + Stamped(ts, m, c) + Stamped(ts, m, d) + Stamped(ts, m, e)
  {
    hide Stamped;
    StampedConcat(ts, m, a, b);
    StampedConcat(ts, m, a + b, c);
    StampedConcat(ts, m, a + b + c, d);
    StampedConcat(ts, m, a + b + c + d, e);
  }

  /** The kinds of event the store notes for a frame are those expected of what it knows. */
  lemma {:induction false} FrameEventsAre(c: Config, frames: seq<Heard>, failed: nat, prev: Option<Device>,
                                          o: Observation, now: int)
    requires GoodConfig(c) && (o.crcOk || prev.Some?)
    requires prev.None? <==> frames == []
    requires prev.None? ==> failed == 0
    requires prev.Some? ==>
               && prev.value.hasKey == frames[|frames| - 1].o.hasKey
               && prev.value.lastReading == LastReading(frames)
               && prev.value.framesTotal == |frames| + failed
    ensures Stamped(now, o.meter, FrameKinds(c, prev, o, Upserted(prev, o, now).framesTotal))
         == FrameEvents(c, frames, failed, prev.Some? && prev.value.silent, o, now)
  {
    hide Stamped, LastReading;
    var m, total := o.meter, |frames| + failed + 1;
    assert Upserted(prev, o, now).framesTotal == total;
    var isNew, silent := prev.None?, prev.Some? && prev.value.silent;
    var keyed := o.hasKey && !(prev.Some? && prev.value.hasKey);
    var read := o.reading.Some? && !(prev.Some? && prev.value.lastReading == o.reading);
    var due := total % c.sampleEvery == 0;
    NoReadingYet();
    StampedOne(now, m, due, Sample(o.rssi, o.crcOk));
    if o.crcOk {
      var text := if o.reading.Some? then o.reading.value else "";
      var k1 := if isNew then [FirstSeen(o.manufacturer, o.typeName, o.version, o.frameType)] else [];
      var k2 := if keyed then [KeyAvailable] else [];
      var k3 := if silent then [Resumed(o.rssi)] else [];
      var k4 := if read then [Reading(text)] else [];
      var k5 := if due then [Sample(o.rssi, o.crcOk)] else [];
      StampedFive(now, m, k1, k2, k3, k4, k5);
      StampedOne(now, m, isNew, FirstSeen(o.manufacturer, o.typeName, o.version, o.frameType));
      StampedOne(now, m, keyed, KeyAvailable);
      StampedOne(now, m, silent, Resumed(o.rssi));
      StampedOne(now, m, read, Reading(text));
    }
  }

  lemma {:induction false} NoReadingYet()
    ensures LastReading([]) == None
  {
  }

  lemma {:induction false} LogOfAppended(table: Table<Event>, events: seq<Event>, meter: nat)
    ensures Log(Append(table, events), meter) == Log(table, meter) + Only(events, meter)
  {
    LogConcat(table, Numbered(NextKey(table), events), meter);
    LogOfNumbered(NextKey(table), events, meter);
  }

  lemma {:induction false} LogAfterFrame(c: Config, before: seq<Call>, o: Observation, now: int, meter: nat)
    requires GoodConfig(c) && NoImport(before)
    ensures var s := After(c, before);
            var frames := ValidFrames(before, meter);
            Log(RecordFrame(c, s, o, now).events, meter)
            == Log(s.events, meter)
               + if o.meter == meter && (o.crcOk || frames != []) then
                   FrameEvents(c, frames, FailedFrames(before, meter), FoundSilent(c, before, meter), o, now)
                 else []
  {
    hide FrameKinds, FrameEvents, Stamped, Upserted, Put, Get, Append, Log, Only, LastReading, After, LastRssi;
    var s := After(c, before);
    TableIsFoldOfCalls(c, before, o.meter);
    assert Log(s.events, meter) + [] == Log(s.events, meter);
    if Attributed(s, o) {
      var prev, frames := Get(s.devices, o.meter), ValidFrames(before, o.meter);
      var events := Stamped(now, o.meter, FrameKinds(c, prev, o, Upserted(prev, o, now).framesTotal));
      LogOfAppended(s.events, events, meter);
      OnlyStamped(now, o.meter, FrameKinds(c, prev, o, Upserted(prev, o, now).framesTotal), meter);
      if meter == o.meter {
        if frames == [] {
          NoneFailedYet(before, meter);
          NotSilentYet(c, before, meter);
        }
        FrameEventsAre(c, frames, FailedFrames(before, meter), prev, o, now);
      }
    }
  }

  lemma {:induction false} LogAfterSilence(c: Config, before: seq<Call>, at: int, meter: nat)
    requires GoodConfig(c) && NoImport(before)
    ensures var s := After(c, before);
            var calls, frames := before + [Silence(at)], ValidFrames(before, meter);
            Log(CheckSilence(c, s, at).events, meter)
            == Log(s.events, meter)
               + if !FoundSilent(c, before, meter) && FoundSilent(c, calls, meter) && frames != []
                 then [Event(at, meter, Silent((at - frames[|frames| - 1].now) / 60))] else []
  {
    hide Silenced, SilentEvents, Get, Append, Log, Only, LastReading, After, LastRssi, FailedFrames, ValidFrames;
    var s := After(c, before);
    TableIsFoldOfCalls(c, before, meter);
    RunIsTidy(c, before);
    assert (before + [Silence(at)])[..|before|] == before;
    assert Log(s.events, meter) + [] == Log(s.events, meter);
    if c.silenceAfter > 0 {
      OnlySilent(s.devices, at - c.silenceAfter, at, meter);
      LogOfAppended(s.events, SilentEvents(s.devices, at - c.silenceAfter, at), meter);
    }
  }

  lemma {:induction false} LogAfterSweep(s: Store, summary: string, when: int, meter: nat)
    ensures Log(RecordDiscovery(s, summary, when).events, meter)
         == Log(s.events, meter) + if meter == 0 then [Event(when, 0, Discovery(summary))] else []
  {
    hide Append, Log, Only;
    var e := Event(when, 0, Discovery(summary));
    LogOfAppended(s.events, [e], meter);
    OnlyOne(e, meter);
  }

  /** In every run without imports the log of every meter is, event for event, what its frames,
      the silence checks and the sweeps call for. */
  lemma {:induction false} LogIsFoldOfCalls(c: Config, calls: seq<Call>, meter: nat)
    requires GoodConfig(c) && NoImport(calls)
    ensures Log(After(c, calls).events, meter) == ExpectedLog(c, calls, meter)
    decreases |calls|
  {
    hide RecordFrame, CheckSilence, RecordDiscovery, PruneGhosts, Log, FrameEvents, ValidFrames, FoundSilent;
    if calls == [] {
      NoLog(meter);
    } else {
      var before, last := calls[..|calls| - 1], calls[|calls| - 1];
      var s := After(c, before);
      LogIsFoldOfCalls(c, before, meter);
      assert Log(s.events, meter) + [] == Log(s.events, meter);
      match last {
        case Frame(o, now) => LogAfterFrame(c, before, o, now, meter);
        case Silence(at) =>
          LogAfterSilence(c, before, at, meter);
          assert before + [Silence(at)] == calls;
        case Sweep(summary, when) => LogAfterSweep(s, summary, when, meter);
        case Prune => RunIsHealthy(c, before);
        case Import(_) => assert false;
      }
    }
  }
}
