/** The cache told from the trace of calls alone: which keys it holds, with what values, what
    every call answers and what is counted. */
module CacheReference {
  import opened Wrappers
  import opened CompactCache
  import opened CacheRuns

  // ---------------------------------------------------------------- the reference

  predicate Names(op: Op, s: Signature) {
    (op.Insert? || op.Get?) && op.signature == s
  }

  /** The position of the last insertion or lookup of `s`; -1 if there is none. */
  function LastNamed(trace: seq<Op>, s: Signature): (t: int)
    ensures -1 <= t < |trace|
    ensures t >= 0 ==> Names(trace[t], s)
  {
    if trace == [] then -1
    else if Names(trace[|trace| - 1], s) then |trace| - 1
    else LastNamed(trace[..|trace| - 1], s)
  }

  /** The position of the last insertion of `s`; -1 if there is none. */
  function LastInsert(trace: seq<Op>, s: Signature): (t: int)
    ensures -1 <= t < |trace|
    ensures t >= 0 ==> trace[t].Insert? && trace[t].signature == s
  {
    if trace == [] then -1
    else
      var op := trace[|trace| - 1];
      if op.Insert? && op.signature == s then |trace| - 1 else LastInsert(trace[..|trace| - 1], s)
  }

  /** How many lookups of `s` there are. */
  function Lookups(trace: seq<Op>, s: Signature): nat {
    if trace == [] then 0
    else
      var op := trace[|trace| - 1];
      Lookups(trace[..|trace| - 1], s) + if op.Get? && op.signature == s then 1 else 0
  }

  /** The time of the last lookup of `s`, or `otherwise`. */
  function LookupTime(trace: seq<Op>, s: Signature, otherwise: int): int {
    if trace == [] then otherwise
    else
      var op := trace[|trace| - 1];
      if op.Get? && op.signature == s then op.now else LookupTime(trace[..|trace| - 1], s, otherwise)
  }

  /** The info last inserted for `s`, with the number of lookups since and the time of the last. */
  function Value(trace: seq<Op>, s: Signature): DeviceInfo
    requires LastInsert(trace, s) >= 0
  {
    var t := LastInsert(trace, s);
    var info := trace[t].info;
    DeviceInfo(info.manufacturerId, info.deviceAddress, info.version, info.deviceType,
               LookupTime(trace[t + 1..], s, info.lastSeen), info.lastSeenUnix,
               info.accessCount + Lookups(trace[t + 1..], s))
  }

  ghost predicate Expired(trace: seq<Op>, s: Signature, now: int, maxAge: nat) {
    LastInsert(trace, s) >= 0 && now - Value(trace, s).lastSeen > maxAge
  }

  /** The keys without the one inserted or looked up the longest ago. */
  ghost function NotOldest(keys: set<Signature>, trace: seq<Op>): set<Signature> {
    set x | x in keys && exists y | y in keys :: LastNamed(trace, y) < LastNamed(trace, x)
  }

  /** The keys held: inserted, and since then not removed, cleared, expired at a sweep or pushed
      out. An insertion of a new key into a full cache pushes out the key that was inserted or
      looked up the longest ago. */
  ghost function Held(maxSize: nat, trace: seq<Op>): set<Signature> {
    if trace == [] then {}
    else
      var n := |trace| - 1;
      var before := Held(maxSize, trace[..n]);
      match trace[n]
      case Insert(s, _) =>
        if s in before || |before| < maxSize || before == {} then before + {s}
        else NotOldest(before, trace[..n]) + {s}
      case Get(_, _) => before
      case Remove(s) => before - {s}
      case Clear => {}
      case RemoveStale(now, maxAge) => set x | x in before && !Expired(trace[..n], x, now, maxAge)
  }

  /** What has been counted. */
  ghost function Counts(maxSize: nat, trace: seq<Op>): CacheStats {
    if trace == [] then CacheStats(0, 0, 0, 0, 0)
    else
      var n := |trace| - 1;
      var held, c := Held(maxSize, trace[..n]), Counts(maxSize, trace[..n]);
      match trace[n]
      case Insert(s, _) =>
        var pushed := s !in held && |held| >= maxSize && held != {};
        CacheStats(c.insertions + 1, c.lookups, c.hits, c.misses, c.evictions + if pushed then 1 else 0)
      case Get(s, _) =>
        var hit := s in held;
        CacheStats(c.insertions, c.lookups + 1, c.hits + (if hit then 1 else 0),
                   c.misses + (if hit then 0 else 1), c.evictions)
      case _ => c
  }

  // ---------------------------------------------------------------- the cache agrees with it

  lemma {:induction false} HeldIsInserted(maxSize: nat, trace: seq<Op>, s: Signature)
    requires s in Run(maxSize, trace).devices
    ensures LastInsert(trace, s) >= 0
  {
    hide Without, Restrict, Stale;
    var n := |trace| - 1;
    if !(trace[n].Insert? && trace[n].signature == s) {
      assert s in Run(maxSize, trace[..n]).devices;
      HeldIsInserted(maxSize, trace[..n], s);
    }
  }

  lemma {:induction false} OneMoreOp(trace: seq<Op>, s: Signature)
    requires trace != []
    requires LastInsert(trace[..|trace| - 1], s) >= 0
    ensures LastInsert(trace, s) >= 0
    ensures var n := |trace| - 1;
            var before := Value(trace[..n], s);
            Value(trace, s) ==
            match trace[n]
            case Insert(t, info) => if t == s then info else before
            case Get(t, now) =>
              if t == s then before.(accessCount := before.accessCount + 1, lastSeen := now) else before
            case _ => before
  {
    var n := |trace| - 1;
    var t := LastInsert(trace[..n], s);
    if trace[n].Insert? && trace[n].signature == s {
      assert trace[n + 1..] == [];
    } else {
      assert trace[t + 1..][..n - t - 1] == trace[..n][t + 1..];
    }
  }

  /** A cached entry is the info last inserted with the lookups since, whatever the size of the
      cache and whatever was evicted on the way. */
  lemma {:induction false} CacheIsTransparent(maxSize: nat, trace: seq<Op>, s: Signature)
    requires s in Run(maxSize, trace).devices
    ensures LastInsert(trace, s) >= 0
    ensures Run(maxSize, trace).devices[s] == Value(trace, s)
  {
    hide Without, Restrict, Evicts, Stale, Value, LastInsert;
    HeldIsInserted(maxSize, trace, s);
    var n := |trace| - 1;
    var c := Run(maxSize, trace[..n]);
    if trace[n].Insert? && trace[n].signature == s {
      JustInserted(trace, s);
    } else {
      assert s in c.devices;
      CacheIsTransparent(maxSize, trace[..n], s);
      OneMoreOp(trace, s);
    }
  }

  lemma {:induction false} JustInserted(trace: seq<Op>, s: Signature)
    requires trace != [] && trace[|trace| - 1].Insert? && trace[|trace| - 1].signature == s
    ensures LastInsert(trace, s) == |trace| - 1 && Value(trace, s) == trace[|trace| - 1].info
  {
    assert trace[|trace|..] == [];
  }

  /** For a cached key every lookup since its insertion was a hit. */
  lemma {:induction false} LastTouchIsLastNamed(maxSize: nat, trace: seq<Op>, s: Signature)
    requires s in Run(maxSize, trace).devices
    ensures LastTouch(maxSize, trace, s) == LastNamed(trace, s)
  {
    hide Without, Restrict, Evicts, Stale;
    var n := |trace| - 1;
    if !(trace[n].Insert? && trace[n].signature == s) {
      assert s in Run(maxSize, trace[..n]).devices;
      LastTouchIsLastNamed(maxSize, trace[..n], s);
    }
  }

  lemma {:induction false} KeptIsNotOldest(maxSize: nat, trace: seq<Op>, s: Signature, info: DeviceInfo)
    requires Evicts(Run(maxSize, trace), s)
    ensures Inserted(Run(maxSize, trace), s, info).devices.Keys
         == NotOldest(Run(maxSize, trace).devices.Keys, trace) + {s}
  {
    hide Run, LastNamed, Inserted, Evicts, LastTouch;
    var c := Run(maxSize, trace);
    EvictsLeastRecent(maxSize, trace, s, info);
    forall x | x in c.devices ensures LastTouch(maxSize, trace, x) == LastNamed(trace, x) {
      LastTouchIsLastNamed(maxSize, trace, x);
    }
    assert NotOldest(c.devices.Keys, trace) == c.devices.Keys - {c.queue[0]};
  }

  lemma {:induction false} StaleIsExpired(maxSize: nat, trace: seq<Op>, now: int, maxAge: nat)
    ensures var c := Run(maxSize, trace);
            && StaleRemoved(c, now, maxAge).0.devices.Keys
               == (set x | x in c.devices && !Expired(trace, x, now, maxAge))
            && StaleRemoved(c, now, maxAge).1
               == |c.devices| - |StaleRemoved(c, now, maxAge).0.devices|
  {
    hide Run, Restrict, Value, LastInsert;
    var c := Run(maxSize, trace);
    forall x | x in c.devices ensures LastInsert(trace, x) >= 0 && c.devices[x] == Value(trace, x) {
      CacheIsTransparent(maxSize, trace, x);
    }
    var stale := Stale(c.devices, now, maxAge);
    assert |c.devices.Keys| == |c.devices.Keys - stale| + |stale|;
    assert (c.devices - stale).Keys == c.devices.Keys - stale;
    assert |(c.devices - stale).Keys| == |c.devices - stale|;
  }

  lemma {:induction false} InsertHolds(maxSize: nat, trace: seq<Op>, s: Signature, info: DeviceInfo)
    ensures var keys := Run(maxSize, trace).devices.Keys;
            Inserted(Run(maxSize, trace), s, info).devices.Keys
            == if s in keys || |keys| < maxSize || keys == {} then keys + {s} else NotOldest(keys, trace) + {s}
  {
    hide Run, NotOldest, Inserted, Evicts, Agrees;
    var c := Run(maxSize, trace);
    RunGood(maxSize, trace);
    EvictsWhenFull(c, s);
    InsertShape(c, s, info);
    assert |c.devices.Keys| == |c.devices|;
    if Evicts(c, s) {
      KeptIsNotOldest(maxSize, trace, s, info);
    }
  }

  /** After every run the cache holds exactly the keys the trace calls for. */
  lemma {:induction false} HoldsExactly(maxSize: nat, trace: seq<Op>)
    ensures Run(maxSize, trace).devices.Keys == Held(maxSize, trace)
    ensures |Run(maxSize, trace).devices| == |Held(maxSize, trace)|
  {
    hide Run, Without, Restrict, Stale, NotOldest, Expired, Inserted, StaleRemoved;
    if trace == [] {
      RunNothing(maxSize);
    } else {
      var n := |trace| - 1;
      var before := trace[..n];
      var c := Run(maxSize, before);
      HoldsExactly(maxSize, before);
      RunOneMore(maxSize, before, trace[n]);
      assert before + [trace[n]] == trace;
      match trace[n] {
        case Insert(s, info) => InsertHolds(maxSize, before, s, info);
        case RemoveStale(now, maxAge) => StaleIsExpired(maxSize, before, now, maxAge);
        case Get(s, now) => assert Got(c, s, now).0.devices.Keys == c.devices.Keys;
        case Remove(s) => assert Removed(c, s).0.devices.Keys == c.devices.Keys - {s};
        case Clear =>
      }
    }
    assert |Run(maxSize, trace).devices.Keys| == |Run(maxSize, trace).devices|;
  }

  lemma {:induction false} RunNothing(maxSize: nat)
    ensures Run(maxSize, []) == NewCache(maxSize)
  {
  }

  /** What every call answers: a lookup the current value, this lookup included, if and only if
      the key is held; a removal whether it was; a sweep how many went. */
  lemma {:induction false} HitReturnsCurrentInfo(maxSize: nat, trace: seq<Op>, s: Signature, now: int, maxAge: nat)
    ensures var r := Got(Run(maxSize, trace), s, now).1;
            if s in Held(maxSize, trace) then
              && LastInsert(trace + [Get(s, now)], s) >= 0
              && r == Some(Value(trace + [Get(s, now)], s))
            else r == None
    ensures Removed(Run(maxSize, trace), s).1 <==> s in Held(maxSize, trace)
    ensures StaleRemoved(Run(maxSize, trace), now, maxAge).1
         == |Held(maxSize, trace)| - |Held(maxSize, trace + [RemoveStale(now, maxAge)])|
  {
    hide Run, Held, Value, LastInsert, StaleRemoved;
    var after, swept := trace + [Get(s, now)], trace + [RemoveStale(now, maxAge)];
    HoldsExactly(maxSize, trace);
    HoldsExactly(maxSize, swept);
    StaleIsExpired(maxSize, trace, now, maxAge);
    RunOneMore(maxSize, trace, Get(s, now));
    RunOneMore(maxSize, trace, RemoveStale(now, maxAge));
    if s in Run(maxSize, trace).devices {
      CacheIsTransparent(maxSize, after, s);
    }
  }

  lemma {:induction false} RunOneMore(maxSize: nat, trace: seq<Op>, op: Op)
    ensures Run(maxSize, trace + [op]) == Step(Run(maxSize, trace), op)
  {
    assert (trace + [op])[..|trace|] == trace;
  }

  /** And the statistics are the counts of the trace. */
  lemma {:induction false} StatisticsAreCounts(maxSize: nat, trace: seq<Op>)
    ensures Run(maxSize, trace).stats == Counts(maxSize, trace)
  {
    hide Without, Restrict, Stale, Held;
    if trace != [] {
      var n := |trace| - 1;
      var c := Run(maxSize, trace[..n]);
      StatisticsAreCounts(maxSize, trace[..n]);
      HoldsExactly(maxSize, trace[..n]);
      RunGood(maxSize, trace[..n]);
      if trace[n].Insert? {
        EvictsWhenFull(c, trace[n].signature);
      }
    }
  }
}
