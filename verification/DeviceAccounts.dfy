/** Frame conservation over every run of the device manager, imports and pruning included. */
module DeviceAccounts {
  import opened Wrappers
  import opened Tables
  import opened DeviceStore
  import opened EventReplay

  /** The frames of all devices together. */
  function FramesTotal(rows: Table<Device>): nat {
    if rows == [] then 0 else rows[0].value.framesTotal + FramesTotal(rows[1..])
  }

  /** The frames of the ghosts: devices without a single valid frame. */
  function GhostFrames(rows: Table<Device>): nat {
    if rows == [] then 0
    else (if rows[0].value.framesOk == 0 then rows[0].value.framesTotal else 0) + GhostFrames(rows[1..])
  }

  /** Frames recorded, brought in and thrown away by a run. */
  datatype Ledger = Ledger(recorded: nat, brought: nat, pruned: nat)

  function Booked(l: Ledger, s: Store, call: Call): Ledger {
    match call
    case Frame(_, _) => l.(recorded := l.recorded + 1)
    case Import(dump) => if s.imported then l else l.(brought := l.brought + FramesTotal(dump.devices))
    case Prune => l.(pruned := l.pruned + GhostFrames(s.devices))
    case _ => l
  }

  function Books(c: Config, calls: seq<Call>): Ledger
    requires GoodConfig(c)
  {
    if calls == [] then Ledger(0, 0, 0)
    else Booked(Books(c, calls[..|calls| - 1]), After(c, calls[..|calls| - 1]), calls[|calls| - 1])
  }

  predicate Balanced(s: Store, l: Ledger) {
    FramesTotal(s.devices) + s.unattributed + l.pruned == l.recorded + l.brought
  }

  // ---------------------------------------------------------------- sums over tables

  lemma {:induction false} FramesOfPut(rows: Table<Device>, key: nat, d: Device)
    requires Ascending(rows)
    ensures FramesTotal(Put(rows, key, d))
         == FramesTotal(rows) + d.framesTotal - (if Get(rows, key).Some? then Get(rows, key).value.framesTotal else 0)
  {
    if rows == [] || key < rows[0].key {
      GetAbsent(rows, key);
      assert Put(rows, key, d)[1..] == rows;
    } else if rows[0].key == key {
      assert Put(rows, key, d)[1..] == rows[1..];
    } else {
      FramesOfPut(rows[1..], key, d);
      assert Put(rows, key, d)[1..] == Put(rows[1..], key, d);
    }
  }

  lemma {:induction false} FramesOfSilenced(rows: Table<Device>, cutoff: int)
    ensures FramesTotal(Silenced(rows, cutoff)) == FramesTotal(rows)
  {
    if rows != [] {
      FramesOfSilenced(rows[1..], cutoff);
      assert Silenced(rows, cutoff)[1..] == Silenced(rows[1..], cutoff);
    }
  }

  lemma {:induction false} FramesOfWithout(rows: Table<Device>, keys: set<nat>)
    requires Ascending(rows)
    requires forall i | 0 <= i < |rows| :: rows[i].key in keys <==> rows[i].value.framesOk == 0
    ensures FramesTotal(Without(rows, keys)) + GhostFrames(rows) == FramesTotal(rows)
  {
    if rows != [] {
      FramesOfWithout(rows[1..], keys);
    }
  }

  lemma {:induction false} GhostsExactly(rows: Table<Device>)
    requires Ascending(rows)
    ensures forall i | 0 <= i < |rows| :: rows[i].key in Ghosts(rows) <==> rows[i].value.framesOk == 0
  {
  }

  lemma {:induction false} FramesOfMerged(t: Table<Device>, dump: seq<Row<Device>>)
    requires Ascending(t)
    ensures FramesTotal(MergedAll(t, dump)) == FramesTotal(t) + FramesTotal(dump)
    decreases |dump|
  {
    hide Put, Ascending;
    if dump != [] {
      var merged := Merged(Get(t, dump[0].key), dump[0].value);
      FramesOfPut(t, dump[0].key, merged);
      PutRows(t, dump[0].key, merged);
      FramesOfMerged(Put(t, dump[0].key, merged), dump[1..]);
    }
  }

  // ---------------------------------------------------------------- conservation

  lemma {:induction false} CallBalances(c: Config, s: Store, call: Call, l: Ledger)
    requires GoodConfig(c) && Ascending(s.devices) && Balanced(s, l)
    ensures Balanced(Apply(c, s, call), Booked(l, s, call))
  {
    hide Put, Append, FrameKinds, FramesTotal, GhostFrames, Ascending, MergedAll, SilentEvents,
      EventsOf, Stamped;
    match call {
      case Frame(o, now) =>
        if Attributed(s, o) {
          FramesOfPut(s.devices, o.meter, Upserted(Get(s.devices, o.meter), o, now));
        }
      case Silence(now) => FramesOfSilenced(s.devices, now - c.silenceAfter);
      case Sweep(_, _) =>
      case Prune =>
        GhostsExactly(s.devices);
        FramesOfWithout(s.devices, Ghosts(s.devices));
      case Import(dump) => FramesOfMerged(s.devices, dump.devices);
    }
  }

  /** Every frame recorded or imported is in the total of some device, in the count of
      unattributed frames, or was pruned with a ghost, exactly once. */
  lemma {:induction false} FramesConserved(c: Config, calls: seq<Call>)
    requires GoodConfig(c)
    ensures Balanced(After(c, calls), Books(c, calls))
    decreases |calls|
  {
    hide Apply, Booked, Balanced;
    if calls == [] {
      EmptyBalances();
    } else {
      var before := calls[..|calls| - 1];
      FramesConserved(c, before);
      RunIsTidy(c, before);
      CallBalances(c, After(c, before), calls[|calls| - 1], Books(c, before));
    }
  }

  lemma {:induction false} EmptyBalances()
    ensures Balanced(EMPTY_STORE, Ledger(0, 0, 0))
  {
  }

  // ---------------------------------------------------------------- events and imports over runs

  /** No call but pruning removes, moves or overwrites an event. */
  lemma {:induction false} EventsOnlyGrow(c: Config, calls: seq<Call>, call: Call)
    requires GoodConfig(c) && !call.Prune?
    ensures var before, after := After(c, calls).events, After(c, calls + [call]).events;
            && |before| <= |after| && after[..|before|] == before
            && forall i | 0 <= i < |before| :: Get(after, before[i].key) == Some(before[i].value)
  {
    hide FrameKinds, SilentEvents, Silenced, Append, Put, MergedAll, Upserted, Stamped, After;
    var s := After(c, calls);
    RunIsTidy(c, calls);
    ExtendedRun(c, calls, call);
    var events := ApplyAppends(c, s, call);
    AppendKeeps(s.events, events);
  }

  lemma {:induction false} ExtendedRun(c: Config, calls: seq<Call>, call: Call)
    requires GoodConfig(c)
    ensures After(c, calls + [call]) == Apply(c, After(c, calls), call)
  {
    assert (calls + [call])[..|calls|] == calls;
  }

  lemma {:induction false} ApplyAppends(c: Config, s: Store, call: Call) returns (events: seq<Event>)
    requires GoodConfig(c) && !call.Prune?
    ensures Apply(c, s, call).events == Append(s.events, events)
  {
    hide FrameKinds, SilentEvents, Silenced, Append, Put, MergedAll, Upserted, Stamped;
    AppendNone(s.events);
    match call {
      case Frame(o, now) =>
        var prev := Get(s.devices, o.meter);
        events := if !Attributed(s, o) then []
                  else Stamped(now, o.meter, FrameKinds(c, prev, o, Upserted(prev, o, now).framesTotal));
      case Silence(now) =>
        events := if c.silenceAfter <= 0 then [] else SilentEvents(s.devices, now - c.silenceAfter, now);
      case Sweep(summary, now) => events := [Event(now, 0, Discovery(summary))];
      case Import(dump) => events := if s.imported then [] else dump.events;
    }
  }

  lemma {:induction false} LogWithout(rows: Table<Event>, meters: set<nat>, keys: set<nat>, meter: nat)
    requires forall i | 0 <= i < |rows| :: rows[i].key in keys <==> rows[i].value.meter in meters
    ensures Log(Without(rows, keys), meter) == if meter in meters then [] else Log(rows, meter)
  {
    if rows != [] {
      LogWithout(rows[1..], meters, keys, meter);
      if rows[0].key !in keys {
        assert Without(rows, keys)[1..] == Without(rows[1..], keys);
      }
    }
  }

  /** Pruning takes out every device without a valid frame together with its whole log, and
      leaves every other device and its log as they were. */
  lemma {:induction false} PruneRemovesExactlyGhosts(c: Config, calls: seq<Call>, meter: nat)
    requires GoodConfig(c)
    ensures var s := After(c, calls);
            var t := PruneGhosts(s);
            var isGhost := Get(s.devices, meter).Some? && Get(s.devices, meter).value.framesOk == 0;
            && Get(t.devices, meter) == (if isGhost then None else Get(s.devices, meter))
            && Log(t.events, meter) == (if isGhost then [] else Log(s.events, meter))
  {
    hide After, Log, Without, EventsOf;
    var s := After(c, calls);
    RunIsTidy(c, calls);
    var ghosts := Ghosts(s.devices);
    GhostsExactly(s.devices);
    GetOfWithout(s.devices, ghosts, meter);
    LogWithout(s.events, ghosts, EventsOf(s.events, ghosts), meter);
    if meter in ghosts {
      var i :| 0 <= i < |s.devices| && s.devices[i].key == meter && s.devices[i].value.framesOk == 0;
      GetAt(s.devices, i);
    } else if Get(s.devices, meter).Some? {
      var i := GetFound(s.devices, meter);
    }
  }

  /** Number of imports that did something. */
  function Imports(c: Config, calls: seq<Call>): nat
    requires GoodConfig(c)
  {
    if calls == [] then 0
    else
      var before := calls[..|calls| - 1];
      Imports(c, before) + if calls[|calls| - 1].Import? && !After(c, before).imported then 1 else 0
  }

  /** At most one import of a run succeeds: the first one. */
  lemma {:induction false} ImportsOnce(c: Config, calls: seq<Call>)
    requires GoodConfig(c)
    ensures Imports(c, calls) <= 1
    ensures After(c, calls).imported <==> Imports(c, calls) == 1
    ensures After(c, calls).imported <==> exists i | 0 <= i < |calls| :: calls[i].Import?
    decreases |calls|
  {
    hide RecordFrame, CheckSilence;
    if calls != [] {
      var before, last := calls[..|calls| - 1], calls[|calls| - 1];
      ImportsOnce(c, before);
      ImportedFlag(c, After(c, before), last);
      assert calls == before + [last];
    }
  }

  lemma {:induction false} ImportedFlag(c: Config, s: Store, call: Call)
    requires GoodConfig(c)
    ensures Apply(c, s, call).imported <==> s.imported || call.Import?
  {
    hide FrameKinds, SilentEvents, Silenced, Append, Put, MergedAll, Upserted;
  }
}
