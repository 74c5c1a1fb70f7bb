/** What an import of a dump makes of every meter (metermon-rs/src/devices.rs). */
module ImportEffects {
  import opened Wrappers
  import opened Tables
  import opened DeviceStore

  // ---------------------------------------------------------------- the records of a meter

  /** The records a dump has for a meter, in order. */
  function RowsOf(dump: seq<Row<Device>>, meter: nat): seq<Device> {
    if dump == [] then []
    else (if dump[0].key == meter then [dump[0].value] else []) + RowsOf(dump[1..], meter)
  }

  /** All the records there are of a meter: the stored one, if any, and those of the dump. */
  function RecordsOf(stored: Option<Device>, rows: seq<Device>): seq<Device> {
    (if stored.Some? then [stored.value] else []) + rows
  }

  function Sum(ds: seq<Device>, count: Device -> nat): nat {
    if ds == [] then 0 else count(ds[0]) + Sum(ds[1..], count)
  }

  function FramesTotal(d: Device): nat { d.framesTotal }

  function FramesOk(d: Device): nat { d.framesOk }

  function FramesFail(d: Device): nat { d.framesFail }

  function FirstNonEmpty(ds: seq<Device>, name: Device -> string): string {
    if ds == [] then "" else if name(ds[0]) != "" then name(ds[0]) else FirstNonEmpty(ds[1..], name)
  }

  function Manufacturer(d: Device): string { d.manufacturer }

  function TypeNameOf(d: Device): string { d.typeName }

  function FrameType(d: Device): string { d.frameType }

  predicate IsLatest(t: int, ds: seq<Device>) {
    (exists i :: 0 <= i < |ds| && ds[i].lastSeen == t) && forall i | 0 <= i < |ds| :: ds[i].lastSeen <= t
  }

  /** The earliest time that is not zero; zero if there is none. */
  predicate IsEarliest(t: int, ds: seq<Device>) {
    if t == 0 then forall i | 0 <= i < |ds| :: ds[i].firstSeen == 0
    else
      && (exists i :: 0 <= i < |ds| && ds[i].firstSeen == t)
      && forall i | 0 <= i < |ds| :: ds[i].firstSeen == 0 || t <= ds[i].firstSeen
  }

  /** `d` unites the records: counters summed, latest and earliest time, first names given. */
  predicate Unites(d: Device, ds: seq<Device>) {
    && d.framesTotal == Sum(ds, FramesTotal)
    && d.framesOk == Sum(ds, FramesOk)
    && d.framesFail == Sum(ds, FramesFail)
    && IsLatest(d.lastSeen, ds)
    && IsEarliest(d.firstSeen, ds)
    && d.manufacturer == FirstNonEmpty(ds, Manufacturer)
    && d.typeName == FirstNonEmpty(ds, TypeNameOf)
    && d.frameType == FirstNonEmpty(ds, FrameType)
  }

  /** Everything that is not united is the same in both. */
  predicate SameOtherwise(d: Device, first: Device) {
    && d.version == first.version && d.deviceType == first.deviceType && d.ci == first.ci
    && d.encrypted == first.encrypted && d.hasKey == first.hasKey && d.silent == first.silent
    && d.lastRssi == first.lastRssi && d.lastReading == first.lastReading
  }

  // ---------------------------------------------------------------- one record after the other

  function MergedIn(stored: Option<Device>, rows: seq<Device>): Option<Device>
    decreases |rows|
  {
    if rows == [] then stored else MergedIn(Some(Merged(stored, rows[0])), rows[1..])
  }

  lemma {:induction false} MergedAllIs(t: Table<Device>, dump: seq<Row<Device>>, meter: nat)
    requires Ascending(t)
    ensures Get(MergedAll(t, dump), meter) == MergedIn(Get(t, meter), RowsOf(dump, meter))
    decreases |dump|
  {
    hide Merged, Get, Put;
    if dump != [] {
      var merged := Merged(Get(t, dump[0].key), dump[0].value);
      PutRows(t, dump[0].key, merged);
      GetOfPut(t, dump[0].key, merged, meter);
      MergedAllIs(Put(t, dump[0].key, merged), dump[1..], meter);
      var later := RowsOf(dump[1..], meter);
      assert ([dump[0].value] + later)[1..] == later && [] + later == later;
    }
  }

  lemma {:induction false} OneRecord(d: Device)
    ensures Unites(d, [d])
  {
    assert Sum([], FramesTotal) == Sum([], FramesOk) == Sum([], FramesFail) == 0;
    assert [d][1..] == [] && [d][0] == d;
    assert FirstNonEmpty([], Manufacturer) == FirstNonEmpty([], TypeNameOf) == FirstNonEmpty([], FrameType) == "";
  }

  lemma {:induction false} SumTwo(merged: Device, cur: Device, d: Device, rest: seq<Device>, count: Device -> nat)
    requires count(merged) == count(cur) + count(d)
    ensures Sum([merged] + rest, count) == Sum([cur, d] + rest, count)
  {
    assert ([merged] + rest)[1..] == rest;
    assert ([cur, d] + rest)[1..] == [d] + rest && ([d] + rest)[1..] == rest;
  }

  lemma {:induction false} NameTwo(merged: Device, cur: Device, d: Device, rest: seq<Device>, name: Device -> string)
    requires name(merged) == if name(cur) == "" then name(d) else name(cur)
    ensures FirstNonEmpty([merged] + rest, name) == FirstNonEmpty([cur, d] + rest, name)
  {
    assert ([merged] + rest)[1..] == rest;
    assert ([cur, d] + rest)[1..] == [d] + rest && ([d] + rest)[1..] == rest;
  }

  lemma {:induction false} TimesTwo(merged: Device, cur: Device, d: Device, rest: seq<Device>, t: int)
    requires merged == Merged(Some(cur), d)
    ensures IsLatest(t, [merged] + rest) ==> IsLatest(t, [cur, d] + rest)
    ensures IsEarliest(t, [merged] + rest) ==> IsEarliest(t, [cur, d] + rest)
  {
    var one, two := [merged] + rest, [cur, d] + rest;
    assert forall i | 2 <= i < |two| :: two[i] == one[i - 1];
    assert one[0] == merged && two[0] == cur && two[1] == d;
    if IsLatest(t, one) {
      LatestTwo(merged, cur, d, rest, t);
    }
    if IsEarliest(t, one) {
      EarliestTwo(merged, cur, d, rest, t);
    }
  }

  lemma {:induction false} LatestTwo(merged: Device, cur: Device, d: Device, rest: seq<Device>, t: int)
    requires merged == Merged(Some(cur), d) && IsLatest(t, [merged] + rest)
    ensures IsLatest(t, [cur, d] + rest)
  {
    var one, two := [merged] + rest, [cur, d] + rest;
    var i :| 0 <= i < |one| && one[i].lastSeen == t;
    var j := if i > 0 then i + 1 else if cur.lastSeen >= d.lastSeen then 0 else 1;
    assert two[j].lastSeen == t;
    forall k | 0 <= k < |two| ensures two[k].lastSeen <= t {
      assert one[if k < 2 then 0 else k - 1].lastSeen <= t;
    }
  }

  lemma {:induction false} EarliestTwo(merged: Device, cur: Device, d: Device, rest: seq<Device>, t: int)
    requires merged == Merged(Some(cur), d) && IsEarliest(t, [merged] + rest)
    ensures IsEarliest(t, [cur, d] + rest)
  {
    var one, two := [merged] + rest, [cur, d] + rest;
    forall k | 0 <= k < |two| ensures two[k].firstSeen == 0 || (t != 0 && t <= two[k].firstSeen) {
      var o := one[if k < 2 then 0 else k - 1].firstSeen;
      assert o == 0 || (t != 0 && t <= o);
    }
    if t != 0 {
      var i :| 0 <= i < |one| && one[i].firstSeen == t;
      var j := if i > 0 then i + 1 else if merged.firstSeen == cur.firstSeen then 0 else 1;
      assert two[j].firstSeen == t;
    }
  }

  lemma {:induction false} MergedUnites(stored: Device, rows: seq<Device>)
    ensures MergedIn(Some(stored), rows).Some?
    ensures var d := MergedIn(Some(stored), rows).value;
            && Unites(d, [stored] + rows) && SameOtherwise(d, stored)
            && d.mode == stored.mode && d.lastFreqOffset == stored.lastFreqOffset
    decreases |rows|
  {
    hide Sum, FirstNonEmpty, IsLatest, IsEarliest;
    if rows == [] {
      OneRecord(stored);
      assert [stored] + [] == [stored];
    } else {
      var d, rest := rows[0], rows[1..];
      var merged := Merged(Some(stored), d);
      MergedUnites(merged, rest);
      assert [stored] + rows == [stored, d] + rest;
      SumTwo(merged, stored, d, rest, FramesTotal);
      SumTwo(merged, stored, d, rest, FramesOk);
      SumTwo(merged, stored, d, rest, FramesFail);
      NameTwo(merged, stored, d, rest, Manufacturer);
      NameTwo(merged, stored, d, rest, TypeNameOf);
      NameTwo(merged, stored, d, rest, FrameType);
      var united := MergedIn(Some(merged), rest).value;
      TimesTwo(merged, stored, d, rest, united.lastSeen);
      TimesTwo(merged, stored, d, rest, united.firstSeen);
    }
  }

  lemma {:induction false} ClearedUnites(d: Device, first: Device, rest: seq<Device>)
    requires Unites(d, [first.(mode := "", lastFreqOffset := 0)] + rest)
    ensures Unites(d, [first] + rest)
  {
    hide Sum, FirstNonEmpty;
    var cleared := first.(mode := "", lastFreqOffset := 0);
    SameSum(cleared, first, rest, FramesTotal);
    SameSum(cleared, first, rest, FramesOk);
    SameSum(cleared, first, rest, FramesFail);
    SameName(cleared, first, rest, Manufacturer);
    SameName(cleared, first, rest, TypeNameOf);
    SameName(cleared, first, rest, FrameType);
    var one, two := [cleared] + rest, [first] + rest;
    assert forall i | 0 <= i < |one| :: one[i].lastSeen == two[i].lastSeen && one[i].firstSeen == two[i].firstSeen;
    var i :| 0 <= i < |one| && one[i].lastSeen == d.lastSeen;
    assert two[i].lastSeen == d.lastSeen;
    if d.firstSeen != 0 {
      var j :| 0 <= j < |one| && one[j].firstSeen == d.firstSeen;
      assert two[j].firstSeen == d.firstSeen;
    }
  }

  lemma {:induction false} SameSum(a: Device, b: Device, rest: seq<Device>, count: Device -> nat)
    requires count(a) == count(b)
    ensures Sum([a] + rest, count) == Sum([b] + rest, count)
  {
    assert ([a] + rest)[1..] == ([b] + rest)[1..];
  }

  lemma {:induction false} SameName(a: Device, b: Device, rest: seq<Device>, name: Device -> string)
    requires name(a) == name(b)
    ensures FirstNonEmpty([a] + rest, name) == FirstNonEmpty([b] + rest, name)
  {
    assert ([a] + rest)[1..] == ([b] + rest)[1..];
  }

  // ---------------------------------------------------------------- the whole import

  /** After the first import, whatever the store and whatever the dump, each meter has one record
      that unites all its records: the counters are the sums, the times the latest and the
      earliest, the names the first given. What is not united comes from the stored device or,
      for a new meter, from its first row in the dump, then without mode and frequency offset. A
      meter the dump does not mention keeps its record, and the dump's events follow the others
      in order. */
  lemma {:induction false} ImportUnites(s: Store, dump: Dump, meter: nat)
    requires !s.imported && Ascending(s.devices) && Ascending(s.events)
    ensures var t := ImportDump(s, dump);
            var stored, rows := Get(s.devices, meter), RowsOf(dump.devices, meter);
            var all := RecordsOf(stored, rows);
            && (rows == [] ==> Get(t.devices, meter) == stored)
            && (all != [] ==>
                  && Get(t.devices, meter).Some?
                  && var d := Get(t.devices, meter).value;
                     && Unites(d, all) && SameOtherwise(d, all[0])
                     && d.mode == (if stored.Some? then stored.value.mode else "")
                     && d.lastFreqOffset == (if stored.Some? then stored.value.lastFreqOffset else 0))
    ensures var t := ImportDump(s, dump);
            && t.imported && t.unattributed == s.unattributed
            && |t.events| == |s.events| + |dump.events| && t.events[..|s.events|] == s.events
            && forall i | 0 <= i < |dump.events| :: t.events[|s.events| + i].value == dump.events[i]
  {
    hide Get, Merged, MergedAll, Append, Unites, SameOtherwise;
    var stored, rows := Get(s.devices, meter), RowsOf(dump.devices, meter);
    MergedAllIs(s.devices, dump.devices, meter);
    AppendKeeps(s.events, dump.events);
    if stored.Some? {
      MergedUnites(stored.value, rows);
      assert RecordsOf(stored, rows) == [stored.value] + rows;
    } else if rows != [] {
      NewMeter(rows);
      assert RecordsOf(stored, rows) == rows;
    }
  }

  lemma {:induction false} NewMeter(rows: seq<Device>)
    requires rows != []
    ensures MergedIn(None, rows).Some?
    ensures var d := MergedIn(None, rows).value;
            Unites(d, rows) && SameOtherwise(d, rows[0]) && d.mode == "" && d.lastFreqOffset == 0
  {
    hide Unites;
    var first, rest := rows[0], rows[1..];
    var cleared := Merged(None, first);
    MergedUnites(cleared, rest);
    ClearedUnites(MergedIn(Some(cleared), rest).value, first, rest);
    assert rows == [first] + rest;
  }
}
