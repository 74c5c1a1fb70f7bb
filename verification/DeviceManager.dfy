/** The device manager as it runs, transaction by transaction. */
module DeviceManagement {
  import opened Wrappers
  import opened Tables
  import opened DeviceStore

  datatype ImportError = AlreadyImported

  datatype ImportCount = ImportCount(devices: nat, events: nat)

  class DeviceManager {
    var devices: Table<Device>
    var events: Table<Event>
    var unattributed: nat
    var imported: bool
    const sampleEvery: nat
    const silenceAfter: int

    ghost predicate Valid()
      reads this
    {
      sampleEvery >= 1 && Ascending(devices) && Ascending(events)
    }

    ghost function State(): Store
      reads this
    {
      Store(devices, events, unattributed, imported)
    }

    ghost function Settings(): Config { Config(sampleEvery, silenceAfter) }

    /** A sampling period of zero counts as one. */
    constructor (every: nat, silenceAfterSecs: int)
      ensures Valid() && State() == EMPTY_STORE
      ensures Settings() == Config(if every < 1 then 1 else every, silenceAfterSecs)
    {
      devices, events, unattributed, imported := [], [], 0, false;
      sampleEvery := if every < 1 then 1 else every;
      silenceAfter := silenceAfterSecs;
    }

    /** Appends events one by one under fresh keys. */
    method AppendEvents(batch: seq<Event>)
      requires Valid()
      modifies this`events
      ensures Valid() && events == Append(old(events), batch)
    {
      hide Append, Put, Ascending;
      var base := NextKey(events);
      AppendKeeps(events, batch);
      AppendPrefixes(events, batch);
      for i := 0 to |batch|
        invariant events == Append(old(events), batch)[..|old(events)| + i]
      {
        AppendPrefix(old(events), batch, i);
        PutBeyond(events, base + i, batch[i]);
        events := Put(events, base + i, batch[i]);
      }
    }

    /** Returns whether the frame could be attributed to a device. */
    method RecordFrame(o: Observation, now: int) returns (attributed: bool)
      requires Valid()
      modifies this
      ensures Valid() && State() == DeviceStore.RecordFrame(Settings(), old(State()), o, now)
      ensures attributed == Attributed(old(State()), o)
    {
      hide Put, Append, Stamped, Ascending;
      var prev := Get(devices, o.meter);
      if prev.None? && !o.crcOk {
        unattributed := unattributed + 1;
        return false;
      }
      var kinds: seq<Kind> := [];
      var d;
      if !o.crcOk {
        d := prev.value;
        d := d.(framesTotal := d.framesTotal + 1, framesFail := d.framesFail + 1, lastRssi := o.rssi);
        if d.framesTotal % sampleEvery == 0 {
          kinds := [Sample(o.rssi, false)];
        }
      } else {
        d := if prev.Some? then prev.value else BLANK;
        d := d.(manufacturer := o.manufacturer, version := o.version, deviceType := o.deviceType,
                typeName := o.typeName, frameType := o.frameType, ci := o.ci,
                encrypted := o.encrypted, hasKey := o.hasKey, mode := o.mode,
                lastFreqOffset := o.freqOffset, silent := false);
        if prev.None? {
          d := d.(firstSeen := now);
        }
        d := d.(lastSeen := now, framesTotal := d.framesTotal + 1, framesOk := d.framesOk + 1, lastRssi := o.rssi);
        if o.reading.Some? {
          d := d.(lastReading := o.reading);
        }
        kinds := ValidFrameKinds(prev, o, d.framesTotal);
      }
      PutRows(devices, o.meter, d);
      devices := Put(devices, o.meter, d);
      AppendEvents(Stamped(now, o.meter, kinds));
      return true;
    }

    method ValidFrameKinds(prev: Option<Device>, o: Observation, total: nat) returns (kinds: seq<Kind>)
      requires Valid() && o.crcOk
      ensures kinds == FrameKinds(Settings(), prev, o, total)
    {
      hide Ascending;
      kinds := [];
      if prev.None? {
        kinds := kinds + [FirstSeen(o.manufacturer, o.typeName, o.version, o.frameType)];
      }
      if o.hasKey && !(prev.Some? && prev.value.hasKey) {
        kinds := kinds + [KeyAvailable];
      }
      if prev.Some? && prev.value.silent {
        kinds := kinds + [Resumed(o.rssi)];
      }
      if o.reading.Some? && !(prev.Some? && prev.value.lastReading == o.reading) {
        kinds := kinds + [Reading(o.reading.value)];
      }
      if total % sampleEvery == 0 {
        kinds := kinds + [Sample(o.rssi, true)];
      }
    }

    method RecordDiscovery(summary: string, now: int)
      requires Valid()
      modifies this
      ensures Valid() && State() == DeviceStore.RecordDiscovery(old(State()), summary, now)
    {
      AppendEvents([Event(now, 0, Discovery(summary))]);
    }

    /** Collects the devices that fall silent, rewrites their rows, then appends one event for
        each. */
    method CheckSilence(now: int)
      requires Valid()
      modifies this
      ensures Valid() && State() == DeviceStore.CheckSilence(Settings(), old(State()), now)
    {
      hide Append, Put, SilentEvents, Silenced, FallsSilent, Due, PutAll, Notices, Ascending;
      if silenceAfter <= 0 {
        return;
      }
      var cutoff := now - silenceAfter;
      SilencedAscending(devices, cutoff);
      var newly := NewlySilent(cutoff);
      NoticesAreSilentEvents(devices, cutoff, now);
      assert [] + devices == devices;
      PutAllDue([], devices, cutoff);
      assert [] + Silenced(devices, cutoff) == Silenced(devices, cutoff);
      PutAllRows(newly);
      AppendNotices(newly, now);
    }

    method AppendNotices(newly: Table<Device>, now: int)
      requires Valid()
      modifies this`events
      ensures Valid() && events == Append(old(events), Notices(newly, now))
    {
      hide Append, Ascending;
      assert newly[0..] == newly;
      for i := 0 to |newly|
        invariant Valid()
        invariant Append(events, Notices(newly[i..], now)) == Append(old(events), Notices(newly, now))
      {
        var e := Event(now, newly[i].key, Silent((now - newly[i].value.lastSeen) / 60));
        assert newly[i..][1..] == newly[i + 1..];
        AppendTwice(events, [e], Notices(newly[i + 1..], now));
        AppendEvents([e]);
      }
      AppendNone(events);
    }

    method NewlySilent(cutoff: int) returns (newly: Table<Device>)
      ensures newly == Due(devices, cutoff)
    {
      hide FallsSilent;
      newly := [];
      assert devices[0..] == devices;
      for i := 0 to |devices|
        invariant newly + Due(devices[i..], cutoff) == Due(devices, cutoff)
      {
        assert devices[i..][1..] == devices[i + 1..];
        var row := devices[i];
        if FallsSilent(row.value, cutoff) {
          newly := newly + [Row(row.key, row.value.(silent := true))];
        }
      }
    }

    method PutAllRows(rows: Table<Device>)
      modifies this`devices
      ensures devices == PutAll(old(devices), rows)
    {
      hide Put;
      assert rows[0..] == rows;
      for i := 0 to |rows|
        invariant PutAll(devices, rows[i..]) == PutAll(old(devices), rows)
      {
        assert rows[i..][1..] == rows[i + 1..];
        devices := Put(devices, rows[i].key, rows[i].value);
      }
    }

    /** Returns the numbers of devices and events removed. */
    method PruneGhosts() returns (removedDevices: nat, removedEvents: nat)
      requires Valid()
      modifies this
      ensures Valid() && State() == DeviceStore.PruneGhosts(old(State()))
      ensures |devices| + removedDevices == |old(devices)| && |events| + removedEvents == |old(events)|
    {
      hide Without, Ascending, GhostKeys, DoomedKeys, Ghosts, EventsOf, Keys;
      var ghosts := GhostKeys(devices);
      GhostKeysAre(devices);
      WithoutRows(devices, Ghosts(devices));
      RemoveDevices(ghosts);
      var doomed := DoomedKeys(events, Keys(ghosts));
      DoomedKeysAre(events, Keys(ghosts));
      WithoutRows(events, EventsOf(events, Keys(ghosts)));
      removedEvents := RemoveEvents(doomed);
      removedDevices := |ghosts|;
    }

    method RemoveDevices(keys: seq<nat>)
      modifies this`devices
      ensures devices == Without(old(devices), Keys(keys))
    {
      hide Without, Keys;
      KeysOfPrefix(keys);
      WithoutNone(devices, {});
      for i := 0 to |keys|
        invariant devices == Without(old(devices), Keys(keys[..i]))
      {
        WithoutTwice(old(devices), Keys(keys[..i]), {keys[i]});
        devices := Without(devices, {keys[i]});
      }
    }

    method RemoveEvents(keys: seq<nat>) returns (removed: nat)
      modifies this`events
      ensures events == Without(old(events), Keys(keys)) && removed == |keys|
    {
      hide Without, Keys;
      KeysOfPrefix(keys);
      WithoutNone(events, {});
      removed := 0;
      for i := 0 to |keys|
        invariant removed == i && events == Without(old(events), Keys(keys[..i]))
      {
        WithoutTwice(old(events), Keys(keys[..i]), {keys[i]});
        events := Without(events, {keys[i]});
        removed := removed + 1;
      }
    }

    method ImportDump(dump: Dump) returns (r: Result<ImportCount, ImportError>)
      requires Valid()
      modifies this
      ensures Valid() && State() == DeviceStore.ImportDump(old(State()), dump)
      ensures r == if old(imported) then Err(AlreadyImported) else Ok(ImportCount(|dump.devices|, |dump.events|))
    {
      hide Put, Merged, Append, Ascending;
      if imported {
        return Err(AlreadyImported);
      }
      var ds := dump.devices;
      assert ds[0..] == ds;
      for i := 0 to |ds|
        invariant Valid() && unattributed == old(unattributed) && imported == old(imported) && events == old(events)
        invariant MergedAll(devices, ds[i..]) == MergedAll(old(devices), ds)
      {
        assert ds[i..][1..] == ds[i + 1..];
        var merged := Merged(Get(devices, ds[i].key), ds[i].value);
        PutRows(devices, ds[i].key, merged);
        devices := Put(devices, ds[i].key, merged);
      }
      AppendEvents(dump.events);
      imported := true;
      return Ok(ImportCount(|dump.devices|, |dump.events|));
    }
  }

  // ---------------------------------------------------------------- what the loops work through

  /** The rows of the devices that fall silent, as they are written back. */
  function Due(rows: Table<Device>, cutoff: int): Table<Device> {
    if rows == [] then []
    else
      (if FallsSilent(rows[0].value, cutoff) then [Row(rows[0].key, rows[0].value.(silent := true))] else [])
      + Due(rows[1..], cutoff)
  }

  function PutAll(t: Table<Device>, rows: Table<Device>): Table<Device>
    decreases |rows|
  {
    if rows == [] then t else PutAll(Put(t, rows[0].key, rows[0].value), rows[1..])
  }

  function Notices(newly: Table<Device>, now: int): seq<Event> {
    if newly == [] then []
    else [Event(now, newly[0].key, Silent((now - newly[0].value.lastSeen) / 60))] + Notices(newly[1..], now)
  }

  function GhostKeys(rows: Table<Device>): seq<nat> {
    if rows == [] then []
    else (if rows[0].value.framesOk == 0 then [rows[0].key] else []) + GhostKeys(rows[1..])
  }

  function DoomedKeys(rows: Table<Event>, meters: set<nat>): seq<nat> {
    if rows == [] then []
    else (if rows[0].value.meter in meters then [rows[0].key] else []) + DoomedKeys(rows[1..], meters)
  }

  function Keys(keys: seq<nat>): set<nat> { set k | k in keys }

  lemma {:induction false} KeysOfPrefix(keys: seq<nat>)
    ensures Keys(keys[..0]) == {} && Keys(keys[..|keys|]) == Keys(keys)
    ensures forall i | 0 <= i < |keys| :: Keys(keys[..i + 1]) == Keys(keys[..i]) + {keys[i]}
  {
    assert keys[..|keys|] == keys;
    forall i | 0 <= i < |keys| ensures Keys(keys[..i + 1]) == Keys(keys[..i]) + {keys[i]} {
      assert keys[..i + 1] == keys[..i] + [keys[i]];
    }
  }

  lemma {:induction false} AppendPrefixes(table: Table<Event>, batch: seq<Event>)
    ensures |Append(table, batch)| == |table| + |batch|
    ensures Append(table, batch)[..|table|] == table
    ensures Append(table, batch)[..|table| + |batch|] == Append(table, batch)
  {
    NumberedRows(NextKey(table), batch);
  }

  lemma {:induction false} AppendPrefix(table: Table<Event>, batch: seq<Event>, i: nat)
    requires Ascending(table) && i < |batch| && |Append(table, batch)| == |table| + |batch|
    ensures var all, n := Append(table, batch), |table| + i;
            && (forall j | 0 <= j < n :: all[..n][j].key < NextKey(table) + i)
            && all[..n + 1] == all[..n] + [Row(NextKey(table) + i, batch[i])]
  {
    hide Numbered, Ascending;
    NumberedRows(NextKey(table), batch);
    NextKeyIsBeyond(table);
  }

  lemma {:induction false} SilencedAscending(rows: Table<Device>, cutoff: int)
    requires Ascending(rows)
    ensures Ascending(Silenced(rows, cutoff))
  {
  }

  lemma {:induction false} NoticesAreSilentEvents(rows: Table<Device>, cutoff: int, now: int)
    ensures Notices(Due(rows, cutoff), now) == SilentEvents(rows, cutoff, now)
  {
    hide FallsSilent;
    if rows != [] {
      NoticesAreSilentEvents(rows[1..], cutoff, now);
      var d := Due(rows[1..], cutoff);
      var row := Row(rows[0].key, rows[0].value.(silent := true));
      assert ([row] + d)[1..] == d;
      assert [] + d == d;
    }
  }

  /** Writing the silenced rows back one by one changes exactly the rows that fall silent. */
  lemma {:induction false} PutAllDue(done: Table<Device>, rest: Table<Device>, cutoff: int)
    requires Ascending(done + rest)
    ensures PutAll(done + rest, Due(rest, cutoff)) == done + Silenced(rest, cutoff)
    decreases |rest|
  {
    hide FallsSilent, Put, PutAll, Due, Silenced, Ascending;
    DueStep(rest, cutoff);
    if rest == [] {
      PutAllStep(done, Row(0, BLANK), []);
      assert done + [] == done;
    } else {
      var row, later := rest[0], rest[1..];
      var row' := if FallsSilent(row.value, cutoff) then Row(row.key, row.value.(silent := true)) else row;
      assert done + rest == done + [row] + later;
      SameKeysAscending(done, row, row', later);
      PutAllDue(done + [row'], later, cutoff);
      assert done + ([row'] + Silenced(later, cutoff)) == done + [row'] + Silenced(later, cutoff);
      if FallsSilent(row.value, cutoff) {
        PutInPlace(done, row, later, row'.value);
        PutAllStep(done + rest, row', Due(later, cutoff));
      }
    }
  }

  lemma {:induction false} PutAllStep(t: Table<Device>, row: Row<Device>, rows: Table<Device>)
    ensures PutAll(t, []) == t
    ensures PutAll(t, [row] + rows) == PutAll(Put(t, row.key, row.value), rows)
  {
    assert ([row] + rows)[1..] == rows;
  }

  lemma {:induction false} DueStep(rows: Table<Device>, cutoff: int)
    ensures if rows == [] then Due(rows, cutoff) == [] && Silenced(rows, cutoff) == []
            else if FallsSilent(rows[0].value, cutoff) then
              var row := Row(rows[0].key, rows[0].value.(silent := true));
              && Due(rows, cutoff) == [row] + Due(rows[1..], cutoff)
              && Silenced(rows, cutoff) == [row] + Silenced(rows[1..], cutoff)
            else
              && Due(rows, cutoff) == Due(rows[1..], cutoff)
              && Silenced(rows, cutoff) == [rows[0]] + Silenced(rows[1..], cutoff)
  {
  }

  lemma {:induction false} SameKeysAscending(before: Table<Device>, row: Row<Device>, row': Row<Device>,
                                             after: Table<Device>)
    requires Ascending(before + [row] + after) && row.key == row'.key
    ensures Ascending(before + [row'] + after)
  {
    var t, t' := before + [row] + after, before + [row'] + after;
    assert forall i | 0 <= i < |t'| :: t'[i].key == t[i].key;
  }

  lemma {:induction false} GhostCount(rows: Table<Device>, keys: set<nat>)
    requires forall i | 0 <= i < |rows| :: rows[i].key in keys <==> rows[i].value.framesOk == 0
    ensures |Without(rows, keys)| + |GhostKeys(rows)| == |rows|
  {
    if rows != [] {
      GhostCount(rows[1..], keys);
    }
  }

  lemma {:induction false} GhostKeySet(rows: Table<Device>)
    ensures Keys(GhostKeys(rows)) == Ghosts(rows)
  {
    if rows != [] {
      GhostKeySet(rows[1..]);
      assert forall k :: k in GhostKeys(rows[1..]) <==> k in Ghosts(rows[1..]);
    }
  }

  lemma {:induction false} GhostKeysAre(rows: Table<Device>)
    requires Ascending(rows)
    ensures Keys(GhostKeys(rows)) == Ghosts(rows)
    ensures |Without(rows, Ghosts(rows))| + |GhostKeys(rows)| == |rows|
  {
    GhostKeySet(rows);
    GhostCount(rows, Ghosts(rows));
  }

  lemma {:induction false} DoomedCount(rows: Table<Event>, meters: set<nat>, keys: set<nat>)
    requires forall i | 0 <= i < |rows| :: rows[i].key in keys <==> rows[i].value.meter in meters
    ensures |Without(rows, keys)| + |DoomedKeys(rows, meters)| == |rows|
  {
    if rows != [] {
      DoomedCount(rows[1..], meters, keys);
    }
  }

  lemma {:induction false} DoomedKeySet(rows: Table<Event>, meters: set<nat>)
    ensures Keys(DoomedKeys(rows, meters)) == EventsOf(rows, meters)
  {
    if rows != [] {
      DoomedKeySet(rows[1..], meters);
      assert forall k :: k in DoomedKeys(rows[1..], meters) <==> k in EventsOf(rows[1..], meters);
    }
  }

  lemma {:induction false} DoomedKeysAre(rows: Table<Event>, meters: set<nat>)
    requires Ascending(rows)
    ensures Keys(DoomedKeys(rows, meters)) == EventsOf(rows, meters)
    ensures |Without(rows, EventsOf(rows, meters))| + |DoomedKeys(rows, meters)| == |rows|
  {
    DoomedKeySet(rows, meters);
    DoomedCount(rows, meters, EventsOf(rows, meters));
  }
}
