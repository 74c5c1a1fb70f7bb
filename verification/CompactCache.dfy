/** The LRU cache of device information for compact frames (src/wmbus/compact_cache.rs).

    The clock is a parameter; the mutex, persistence and the floating-point hit rate are not
    part of the model. */
module CompactCache {
  import opened Wrappers
  import opened Casts

  /** A 2-byte signature. */
  type Signature = n: nat | n < 0x1_0000

  datatype DeviceInfo = DeviceInfo(
    manufacturerId: bv16,
    deviceAddress: U32,
    version: Byte,
    deviceType: Byte,
    lastSeen: int,
    lastSeenUnix: nat,
    accessCount: nat)

  datatype CacheStats = CacheStats(insertions: nat, lookups: nat, hits: nat, misses: nat, evictions: nat)

  datatype Cache = Cache(
    devices: map<Signature, DeviceInfo>,
    queue: seq<Signature>,
    maxSize: nat,
    stats: CacheStats)

  function NewCache(maxSize: nat): Cache {
    Cache(map[], [], maxSize, CacheStats(0, 0, 0, 0, 0))
  }

  // ---------------------------------------------------------------- queue operations

  /** The queue without the first occurrence of `s`. */
  function Without(q: seq<Signature>, s: Signature): seq<Signature> {
    if q == [] then [] else if q[0] == s then q[1..] else [q[0]] + Without(q[1..], s)
  }

  /** The entries of the queue that lie in `keys`, in queue order. */
  function Restrict(q: seq<Signature>, keys: set<Signature>): seq<Signature> {
    if q == [] then [] else (if q[0] in keys then [q[0]] else []) + Restrict(q[1..], keys)
  }

  predicate NoDuplicates(q: seq<Signature>) {
    forall i, j | 0 <= i < j < |q| :: q[i] != q[j]
  }

  lemma {:induction false} WithoutMembers(q: seq<Signature>, s: Signature)
    requires NoDuplicates(q)
    ensures NoDuplicates(Without(q, s))
    ensures forall x :: x in Without(q, s) <==> x in q && x != s
    ensures s !in q ==> Without(q, s) == q
  {
    if q != [] && q[0] != s {
      WithoutMembers(q[1..], s);
      var w := Without(q[1..], s);
      assert forall x :: x in q <==> x == q[0] || x in q[1..];
      assert q[0] !in q[1..];
    } else if q != [] {
      assert forall x :: x in q <==> x == q[0] || x in q[1..];
      assert q[0] !in q[1..];
    }
  }

  lemma {:induction false} RestrictMembers(q: seq<Signature>, keys: set<Signature>)
    requires NoDuplicates(q)
    ensures NoDuplicates(Restrict(q, keys))
    ensures forall x :: x in Restrict(q, keys) <==> x in q && x in keys
  {
    if q != [] {
      RestrictMembers(q[1..], keys);
      assert forall x :: x in q <==> x == q[0] || x in q[1..];
      assert q[0] !in q[1..];
    }
  }

  lemma {:induction false} RestrictConcat(a: seq<Signature>, b: seq<Signature>, keys: set<Signature>)
    ensures Restrict(a + b, keys) == Restrict(a, keys) + Restrict(b, keys)
  {
    if a == [] {
      assert a + b == b;
    } else {
      assert (a + b)[1..] == a[1..] + b;
      RestrictConcat(a[1..], b, keys);
    }
  }

  /** Only the keys that occur matter. */
  lemma {:induction false} RestrictSame(q: seq<Signature>, k1: set<Signature>, k2: set<Signature>)
    requires forall x | x in q :: x in k1 <==> x in k2
    ensures Restrict(q, k1) == Restrict(q, k2)
  {
    if q != [] {
      assert q[0] in q && forall x | x in q[1..] :: x in q;
      RestrictSame(q[1..], k1, k2);
    }
  }

  lemma {:induction false} RestrictToAll(q: seq<Signature>, keys: set<Signature>)
    requires forall x | x in q :: x in keys
    ensures Restrict(q, keys) == q
  {
    if q != [] {
      assert q[0] in q && forall x | x in q[1..] :: x in q;
      RestrictToAll(q[1..], keys);
    }
  }

  /** Taking a key out of the queue or out of the keys to keep is the same. */
  lemma {:induction false} RestrictWithout(q: seq<Signature>, s: Signature, keys: set<Signature>)
    requires NoDuplicates(q)
    ensures Restrict(Without(q, s), keys) == Restrict(q, keys - {s})
    ensures Without(Restrict(q, keys), s) == Restrict(q, keys - {s})
  {
    if q != [] {
      assert q[0] !in q[1..];
      if q[0] == s {
        RestrictSame(q[1..], keys, keys - {s});
        RestrictMembers(q[1..], keys);
        WithoutMembers(Restrict(q[1..], keys), s);
        if s in keys {
          assert Restrict(q, keys) == [s] + Restrict(q[1..], keys);
          assert Without(Restrict(q, keys), s) == Restrict(q[1..], keys);
        }
      } else {
        RestrictWithout(q[1..], s, keys);
        assert Without(q, s) == [q[0]] + Without(q[1..], s);
        assert Without(q, s)[1..] == Without(q[1..], s);
        if q[0] in keys {
          assert Restrict(q, keys) == [q[0]] + Restrict(q[1..], keys);
          assert Restrict(q, keys)[1..] == Restrict(q[1..], keys);
        } else {
          assert Restrict(q, keys) == Restrict(q[1..], keys);
          assert Restrict(q, keys - {s}) == Restrict(q[1..], keys - {s});
        }
      }
    }
  }

  lemma {:induction false} RestrictTwice(q: seq<Signature>, k1: set<Signature>, k2: set<Signature>)
    ensures Restrict(Restrict(q, k1), k2) == Restrict(q, k1 * k2)
  {
    if q != [] {
      RestrictTwice(q[1..], k1, k2);
      var head := if q[0] in k1 then [q[0]] else [];
      RestrictConcat(head, Restrict(q[1..], k1), k2);
    }
  }

  // ---------------------------------------------------------------- the operations

  function Inserted(c: Cache, s: Signature, info: DeviceInfo): Cache {
    var stats := c.stats.(insertions := c.stats.insertions + 1);
    var queue := Without(c.queue, s);
    if Evicts(c, s) then
      Cache((c.devices - {queue[0]})[s := info], queue[1..] + [s], c.maxSize,
            stats.(evictions := stats.evictions + 1))
    else
      Cache(c.devices[s := info], queue + [s], c.maxSize, stats)
  }

  /** Whether inserting `s` pushes out the front of the queue. */
  predicate Evicts(c: Cache, s: Signature) {
    |c.devices| >= c.maxSize && s !in c.devices && Without(c.queue, s) != []
  }

  function Touched(info: DeviceInfo, now: int): DeviceInfo {
    info.(accessCount := info.accessCount + 1, lastSeen := now)
  }

  function Got(c: Cache, s: Signature, now: int): (Cache, Option<DeviceInfo>) {
    var stats := c.stats.(lookups := c.stats.lookups + 1);
    if s in c.devices then
      var info := Touched(c.devices[s], now);
      (Cache(c.devices[s := info], Without(c.queue, s) + [s], c.maxSize, stats.(hits := stats.hits + 1)),
       Some(info))
    else
      (c.(stats := stats.(misses := stats.misses + 1)), None)
  }

  function Removed(c: Cache, s: Signature): (Cache, bool) {
    (c.(devices := c.devices - {s}, queue := Without(c.queue, s)), s in c.devices)
  }

  function Cleared(c: Cache): Cache {
    c.(devices := map[], queue := [])
  }

  function Stale(devices: map<Signature, DeviceInfo>, now: int, maxAge: nat): set<Signature> {
    set s | s in devices && now - devices[s].lastSeen > maxAge
  }

  function StaleRemoved(c: Cache, now: int, maxAge: nat): (Cache, nat) {
    var stale := Stale(c.devices, now, maxAge);
    (c.(devices := c.devices - stale, queue := Restrict(c.queue, c.devices.Keys - stale)), |stale|)
  }

  function Elements(q: seq<Signature>): (s: set<Signature>)
    ensures forall x :: x in s <==> x in q
  {
    set x | x in q
  }

  /** Map and queue list the same keys, each once. */
  predicate Agrees(c: Cache) {
    NoDuplicates(c.queue) && Elements(c.queue) == c.devices.Keys
  }

  // ---------------------------------------------------------------- the cache itself

  /** Where `iter().position` finds `s`, or the length if it does not. */
  function Position(q: seq<Signature>, s: Signature): (pos: nat)
    ensures pos <= |q|
    ensures s !in q[..pos]
    ensures pos < |q| ==> q[pos] == s
    ensures pos == |q| ==> s !in q
  {
    if q == [] then 0 else if q[0] == s then 0 else 1 + Position(q[1..], s)
  }

  lemma {:induction false} RemoveAtPosition(q: seq<Signature>, s: Signature)
    ensures var pos := Position(q, s);
            Without(q, s) == if pos < |q| then q[..pos] + q[pos + 1..] else q
  {
    if q != [] && q[0] != s {
      var tail := q[1..];
      RemoveAtPosition(tail, s);
      var pos := Position(tail, s);
      if pos < |tail| {
        assert q[..pos + 1] == [q[0]] + tail[..pos];
        assert q[pos + 2..] == tail[pos + 1..];
      }
    }
  }

  class CompactFrameCache {
    var devices: map<Signature, DeviceInfo>
    var lruQueue: seq<Signature>
    var maxSize: nat
    var stats: CacheStats

    ghost function State(): Cache
      reads this
    {
      Cache(devices, lruQueue, maxSize, stats)
    }

    constructor (maxSize: nat)
      ensures State() == NewCache(maxSize)
    {
      this.devices := map[];
      this.lruQueue := [];
      this.maxSize := maxSize;
      this.stats := CacheStats(0, 0, 0, 0, 0);
    }

    /** Removes a signature from wherever it is in the queue. */
    method Unqueue(signature: Signature)
      modifies this`lruQueue
      ensures lruQueue == Without(old(lruQueue), signature)
    {
      RemoveAtPosition(lruQueue, signature);
      var pos := Position(lruQueue, signature);
      if pos < |lruQueue| {
        lruQueue := lruQueue[..pos] + lruQueue[pos + 1..];
      }
    }

    method Insert(signature: Signature, info: DeviceInfo)
      modifies this
      ensures State() == Inserted(old(State()), signature, info)
    {
      stats := stats.(insertions := stats.insertions + 1);
      Unqueue(signature);
      if |devices| >= maxSize && signature !in devices {
        if lruQueue != [] {
          var lruSignature := lruQueue[0];
          lruQueue := lruQueue[1..];
          devices := devices - {lruSignature};
          stats := stats.(evictions := stats.evictions + 1);
        }
      }
      devices := devices[signature := info];
      lruQueue := lruQueue + [signature];
    }

    method Get(signature: Signature, now: int) returns (r: Option<DeviceInfo>)
      modifies this
      ensures (State(), r) == Got(old(State()), signature, now)
    {
      stats := stats.(lookups := stats.lookups + 1);
      if signature in devices {
        stats := stats.(hits := stats.hits + 1);
        var info := devices[signature].(accessCount := devices[signature].accessCount + 1);
        info := info.(lastSeen := now);
        devices := devices[signature := info];
        Unqueue(signature);
        lruQueue := lruQueue + [signature];
        r := Some(info);
      } else {
        stats := stats.(misses := stats.misses + 1);
        r := None;
      }
    }

    method Remove(signature: Signature) returns (removed: bool)
      modifies this
      ensures (State(), removed) == Removed(old(State()), signature)
    {
      Unqueue(signature);
      removed := signature in devices;
      devices := devices - {signature};
    }

    method Clear()
      modifies this
      ensures State() == Cleared(old(State()))
    {
      devices := map[];
      lruQueue := [];
    }

    /** Removes the stale entries one by one, in whatever order the map lists them. */
    method RemoveStale(now: int, maxAge: nat) returns (removed: nat)
      requires Agrees(State())
      modifies this
      ensures (State(), removed) == StaleRemoved(old(State()), now, maxAge)
    {
      hide Restrict, Without;
      removed := 0;
      var stale := Stale(devices, now, maxAge);
      var todo := stale;
      ghost var before := devices;
      RestrictToAll(lruQueue, before.Keys);
      assert before - {} == before && before.Keys - {} == before.Keys && stale - stale == {};
      while todo != {}
        invariant todo <= stale && removed + |todo| == |stale|
        invariant devices == before - (stale - todo)
        invariant lruQueue == Restrict(old(lruQueue), before.Keys - (stale - todo))
        invariant maxSize == old(maxSize) && stats == old(stats)
        decreases todo
      {
        var signature :| signature in todo;
        OneMoreGone(before, stale, todo, signature);
        RestrictWithout(old(lruQueue), signature, before.Keys - (stale - todo));
        devices := devices - {signature};
        Unqueue(signature);
        removed := removed + 1;
        todo := todo - {signature};
      }
      assert stale - {} == stale;
    }
  }

  lemma {:induction false} OneMoreGone(m: map<Signature, DeviceInfo>, stale: set<Signature>,
                                       todo: set<Signature>, s: Signature)
    requires s in todo && todo <= stale
    ensures m - (stale - todo) - {s} == m - (stale - (todo - {s}))
    ensures m.Keys - (stale - todo) - {s} == m.Keys - (stale - (todo - {s}))
  {
  }
}
