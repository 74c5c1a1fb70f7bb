/** What the LRU cache guarantees over whole runs, and how runs at different sizes relate. */
module CacheRuns {
  import opened CompactCache

  datatype Op =
    | Insert(signature: Signature, info: DeviceInfo)
    | Get(signature: Signature, now: int)
    | Remove(signature: Signature)
    | Clear
    | RemoveStale(now: int, maxAge: nat)

  function Step(c: Cache, op: Op): Cache {
    match op
    case Insert(s, info) => Inserted(c, s, info)
    case Get(s, now) => Got(c, s, now).0
    case Remove(s) => Removed(c, s).0
    case Clear => Cleared(c)
    case RemoveStale(now, maxAge) => StaleRemoved(c, now, maxAge).0
  }

  /** The cache of size `maxSize` after a trace of operations. */
  function Run(maxSize: nat, trace: seq<Op>): Cache {
    if trace == [] then NewCache(maxSize)
    else Step(Run(maxSize, trace[..|trace| - 1]), trace[|trace| - 1])
  }

  // ---------------------------------------------------------------- every reachable cache

  /** A configured size of zero still leaves room for one entry: nothing is evicted from an
      empty queue. */
  function Capacity(maxSize: nat): nat {
    if maxSize == 0 then 1 else maxSize
  }

  predicate Good(c: Cache) {
    && Agrees(c)
    && |c.devices| <= Capacity(c.maxSize)
    && c.stats.hits + c.stats.misses == c.stats.lookups
  }

  lemma {:induction false} ElementsCount(q: seq<Signature>)
    requires NoDuplicates(q)
    ensures |Elements(q)| == |q|
  {
    if q != [] {
      ElementsCount(q[1..]);
      assert q[0] !in q[1..];
      assert Elements(q) == Elements(q[1..]) + {q[0]};
    }
  }

  lemma {:induction false} SameLength(c: Cache)
    requires Agrees(c)
    ensures |c.queue| == |c.devices|
  {
    ElementsCount(c.queue);
    assert Elements(c.queue) == c.devices.Keys;
    assert |c.devices.Keys| == |c.devices|;
  }

  lemma {:induction false} NoDuplicatesAppend(q: seq<Signature>, s: Signature)
    requires NoDuplicates(q) && s !in q
    ensures NoDuplicates(q + [s])
  {
  }

  lemma {:induction false} InsertAgrees(c: Cache, s: Signature, info: DeviceInfo)
    requires Agrees(c)
    ensures Agrees(Inserted(c, s, info))
  {
    hide Without;
    WithoutMembers(c.queue, s);
    var q := Without(c.queue, s);
    if Evicts(c, s) {
      assert q[0] !in q[1..] && forall x :: x in q <==> x == q[0] || x in q[1..];
      NoDuplicatesAppend(q[1..], s);
    } else {
      NoDuplicatesAppend(q, s);
    }
  }

  lemma {:induction false} InsertGood(c: Cache, s: Signature, info: DeviceInfo)
    requires Good(c)
    ensures Good(Inserted(c, s, info))
  {
    hide Without, Agrees;
    InsertAgrees(c, s, info);
    SameLength(c);
    SameLength(Inserted(c, s, info));
    InsertLength(c, s, info);
  }

  lemma {:induction false} InsertLength(c: Cache, s: Signature, info: DeviceInfo)
    requires Agrees(c) && |c.queue| == |c.devices|
    ensures |Inserted(c, s, info).queue|
         == if s in c.devices || Evicts(c, s) then |c.devices| else |c.devices| + 1
    ensures s !in c.devices && !Evicts(c, s) ==> |c.devices| == 0 || |c.devices| < c.maxSize
  {
    hide Without;
    var q := Without(c.queue, s);
    WithoutMembers(c.queue, s);
    ElementsCount(c.queue);
    ElementsCount(q);
    assert Elements(q) == Elements(c.queue) - {s};
  }

  lemma {:induction false} GetGood(c: Cache, s: Signature, now: int)
    requires Good(c)
    ensures Good(Got(c, s, now).0)
  {
    hide Without;
    if s in c.devices {
      WithoutMembers(c.queue, s);
      NoDuplicatesAppend(Without(c.queue, s), s);
      assert Got(c, s, now).0.devices.Keys == c.devices.Keys;
      SameLength(c);
      SameLength(Got(c, s, now).0);
      assert |Got(c, s, now).0.devices.Keys| == |c.devices.Keys|;
    }
  }

  lemma {:induction false} RemoveGood(c: Cache, s: Signature)
    requires Good(c)
    ensures Good(Removed(c, s).0)
  {
    hide Without;
    WithoutMembers(c.queue, s);
    SameLength(c);
    SameLength(Removed(c, s).0);
    WithoutCount(c.queue, s);
  }

  lemma {:induction false} RemoveStaleGood(c: Cache, now: int, maxAge: nat)
    requires Good(c)
    ensures Good(StaleRemoved(c, now, maxAge).0)
  {
    hide Restrict;
    RestrictMembers(c.queue, c.devices.Keys - Stale(c.devices, now, maxAge));
    SameLength(c);
    SameLength(StaleRemoved(c, now, maxAge).0);
    RestrictCount(c.queue, c.devices.Keys - Stale(c.devices, now, maxAge));
  }

  lemma {:induction false} StepGood(c: Cache, op: Op)
    requires Good(c)
    ensures Good(Step(c, op))
    ensures Step(c, op).maxSize == c.maxSize
  {
    hide Good, Without, Restrict, Evicts, Stale;
    match op {
      case Insert(s, info) => InsertGood(c, s, info);
      case Get(s, now) => GetGood(c, s, now);
      case Remove(s) => RemoveGood(c, s);
      case Clear => ClearGood(c);
      case RemoveStale(now, maxAge) => RemoveStaleGood(c, now, maxAge);
    }
  }

  lemma {:induction false} ClearGood(c: Cache)
    requires Good(c)
    ensures Good(Cleared(c))
  {
  }

  lemma {:induction false} WithoutCount(q: seq<Signature>, s: Signature)
    ensures |Without(q, s)| <= |q|
  {
    if q != [] {
      WithoutCount(q[1..], s);
    }
  }

  lemma {:induction false} RestrictCount(q: seq<Signature>, keys: set<Signature>)
    ensures |Restrict(q, keys)| <= |q|
  {
    if q != [] {
      RestrictCount(q[1..], keys);
    }
  }

  /** At every point of every run: the queue is a duplicate-free listing of the map's keys, the
      size stays within the capacity, and every lookup was a hit or a miss. */
  lemma {:induction false} RunGood(maxSize: nat, trace: seq<Op>)
    ensures Good(Run(maxSize, trace)) && Run(maxSize, trace).maxSize == maxSize
  {
    if trace != [] {
      var n := |trace| - 1;
      RunGood(maxSize, trace[..n]);
      StepGood(Run(maxSize, trace[..n]), trace[n]);
    }
  }

  // ---------------------------------------------------------------- caches of two sizes

  /** The small cache sits inside the large one. */
  ghost predicate Included(a: Cache, b: Cache) {
    && Good(a) && Good(b)
    && Capacity(a.maxSize) <= Capacity(b.maxSize)
    && Submap(a.devices, b.devices)
    && QueuesMatch(a, b)
    && GapBounded(a, b)
    && Dominated(a.stats, b.stats)
  }

  /** Same keys or fewer, with equal infos. */
  ghost predicate Submap(a: map<Signature, DeviceInfo>, b: map<Signature, DeviceInfo>) {
    a.Keys <= b.Keys && forall s | s in a :: a[s] == b[s]
  }

  predicate Dominated(a: CacheStats, b: CacheStats) {
    && a.insertions == b.insertions
    && a.lookups == b.lookups
    && a.hits <= b.hits
    && a.evictions >= b.evictions
  }

  /** A cache of configured size zero does hold an entry. */
  lemma {:induction false} ZeroSizeHoldsOne(s: Signature, info: DeviceInfo)
    ensures Run(0, [Insert(s, info)]).devices == map[s := info]
    ensures |Run(0, [Insert(s, info)]).devices| == 1
  {
    var trace := [Insert(s, info)];
    assert trace[..|trace| - 1] == [];
    assert Run(0, []) == NewCache(0);
    assert NewCache(0).devices[s := info] == map[s := info];
  }

  /** The size stays within the configured maximum in every run if and only if that is at least
      one. */
  lemma {:induction false} WithinMaximumIff(maxSize: nat, info: DeviceInfo)
    ensures (forall trace: seq<Op> :: |Run(maxSize, trace).devices| <= maxSize) <==> maxSize >= 1
  {
    hide Run;
    if maxSize >= 1 {
      forall trace: seq<Op> ensures |Run(maxSize, trace).devices| <= maxSize {
        RunGood(maxSize, trace);
      }
    } else {
      ZeroSizeHoldsOne(0, info);
    }
  }

  lemma {:induction false} EvictsWhenFull(c: Cache, s: Signature)
    requires Good(c)
    ensures Evicts(c, s) <==> s !in c.devices && |c.devices| == Capacity(c.maxSize)
  {
    hide Without;
    WithoutMembers(c.queue, s);
    SameLength(c);
  }

  /** Restricting a queue whose front is dropped on both sides, or only on the large one. */
  lemma {:induction false} RestrictTail(q: seq<Signature>, keys: set<Signature>)
    requires q != [] && NoDuplicates(q)
    ensures q[0] in keys ==> Restrict(q, keys) != [] && Restrict(q, keys)[0] == q[0]
                             && Restrict(q[1..], keys - {q[0]}) == Restrict(q, keys)[1..]
    ensures q[0] !in keys ==> Restrict(q[1..], keys) == Restrict(q, keys)
  {
    if q[0] in keys {
      RestrictSame(q[1..], keys, keys - {q[0]});
    }
  }

  lemma {:induction false} DropFront(q: seq<Signature>, keys: set<Signature>)
    requires NoDuplicates(q) && Restrict(q, keys) != []
    ensures Restrict(q, keys - {Restrict(q, keys)[0]}) == Restrict(q, keys)[1..]
  {
    hide Restrict;
    RestrictMembers(q, keys);
    RestrictWithout(q, Restrict(q, keys)[0], keys);
  }

  /** Putting a key at the back on both sides. */
  lemma {:induction false} RestrictBack(q: seq<Signature>, s: Signature, keys: set<Signature>)
    requires s !in q
    ensures Restrict(q + [s], keys + {s}) == Restrict(q, keys - {s}) + [s]
  {
    RestrictConcat(q, [s], keys + {s});
    RestrictSame(q, keys + {s}, keys - {s});
    assert Restrict([s], keys + {s}) == [s];
  }

  /** The queues after an insertion that evicts from the small cache, and maybe from both. */
  lemma {:induction false} QueuesAfterEviction(qb: seq<Signature>, keys: set<Signature>, s: Signature, both: bool)
    requires NoDuplicates(qb) && s !in qb && s !in keys
    requires var qa := Restrict(qb, keys); qa != []
    ensures var qa := Restrict(qb, keys);
            var rest := if both then qb[1..] else qb;
            Restrict(rest + [s], keys - {qa[0]} + {s}) == qa[1..] + [s]
  {
    hide Restrict;
    var qa := Restrict(qb, keys);
    var keys' := keys - {qa[0]};
    DropFront(qb, keys);
    assert qb != [] by {
      RestrictMembers(qb, keys);
      assert qa[0] in qb;
    }
    if both {
      RestrictTail(qb, keys');
      RestrictTail(qb, keys);
      RestrictBack(qb[1..], s, keys');
      assert keys' - {s} == keys';
    } else {
      RestrictBack(qb, s, keys');
      assert keys' - {s} == keys';
    }
  }

  ghost predicate QueuesMatch(a: Cache, b: Cache) {
    a.queue == Restrict(b.queue, a.devices.Keys)
  }

  predicate GapBounded(a: Cache, b: Cache) {
    |b.devices| - |a.devices| <= Capacity(b.maxSize) - Capacity(a.maxSize)
  }

  // Insertion, one aspect at a time.

  lemma {:induction false} InsertEvictions(a: Cache, b: Cache, s: Signature)
    requires Included(a, b)
    ensures Evicts(b, s) ==> Evicts(a, s)
    ensures Evicts(a, s) ==> Without(a.queue, s) == a.queue && a.queue != []
    ensures Evicts(b, s) ==> Without(b.queue, s) == b.queue && b.queue != []
    ensures Evicts(b, s) && b.queue[0] in a.devices ==> a.queue[0] == b.queue[0]
    ensures Evicts(a, s) && !Evicts(b, s) ==> a.devices.Keys - {a.queue[0]} <= b.devices.Keys
  {
    hide Restrict, Without, Submap, Dominated;
    EvictsWhenFull(a, s);
    EvictsWhenFull(b, s);
    assert a.devices.Keys <= b.devices.Keys by {
      IncludedKeys(a, b);
    }
    WithoutMembers(a.queue, s);
    WithoutMembers(b.queue, s);
    SameLength(a);
    SameLength(b);
    if Evicts(b, s) {
      VictimsMatch(b.queue, a.devices.Keys);
    }
  }

  lemma {:induction false} IncludedKeys(a: Cache, b: Cache)
    requires Included(a, b)
    ensures a.devices.Keys <= b.devices.Keys
  {
  }

  lemma {:induction false} InsertSubmap(a: Cache, b: Cache, s: Signature, info: DeviceInfo)
    requires Included(a, b)
    ensures Submap(Inserted(a, s, info).devices, Inserted(b, s, info).devices)
  {
    hide Restrict, Without, Evicts, Good, Dominated, Capacity;
    InsertEvictions(a, b, s);
  }

  lemma {:induction false} EvictingQueues(qb: seq<Signature>, keys: set<Signature>, s: Signature, both: bool)
    requires NoDuplicates(qb) && s !in keys && Restrict(qb, keys) != []
    requires both ==> s !in qb
    ensures Without(qb, s) != []
    ensures var qa := Restrict(qb, keys);
            var rest := if both then Without(qb, s)[1..] else Without(qb, s);
            Restrict(rest + [s], keys - {qa[0]} + {s}) == qa[1..] + [s]
  {
    hide Restrict, Without;
    WithoutMembers(qb, s);
    RestrictWithout(qb, s, keys);
    assert keys - {s} == keys;
    RestrictMembers(Without(qb, s), keys);
    assert Restrict(qb, keys)[0] in Without(qb, s);
    QueuesAfterEviction(Without(qb, s), keys, s, both);
  }

  lemma {:induction false} KeepingQueues(qb: seq<Signature>, keys: set<Signature>, s: Signature)
    requires NoDuplicates(qb)
    ensures Restrict(Without(qb, s) + [s], keys + {s}) == Without(Restrict(qb, keys), s) + [s]
  {
    hide Restrict, Without;
    WithoutMembers(qb, s);
    RestrictWithout(qb, s, keys);
    RestrictBack(Without(qb, s), s, keys);
    RestrictWithout(qb, s, keys - {s});
    assert keys - {s} - {s} == keys - {s};
  }

  lemma {:induction false} InsertShape(c: Cache, s: Signature, info: DeviceInfo)
    ensures var c' := Inserted(c, s, info);
            var q := Without(c.queue, s);
            if Evicts(c, s)
            then q != [] && c'.queue == q[1..] + [s] && c'.devices.Keys == c.devices.Keys - {q[0]} + {s}
            else c'.queue == q + [s] && c'.devices.Keys == c.devices.Keys + {s}
  {
    hide Without;
  }

  lemma {:induction false} InsertQueues(a: Cache, b: Cache, s: Signature, info: DeviceInfo)
    requires Included(a, b)
    ensures QueuesMatch(Inserted(a, s, info), Inserted(b, s, info))
  {
    hide Restrict, Without, Evicts, Submap, Dominated, Capacity, Inserted;
    InsertEvictions(a, b, s);
    EvictsWhenFull(a, s);
    EvictsWhenFull(b, s);
    InsertShape(a, s, info);
    InsertShape(b, s, info);
    if Evicts(a, s) {
      EvictingQueues(b.queue, a.devices.Keys, s, Evicts(b, s));
    } else {
      KeepingQueues(b.queue, a.devices.Keys, s);
    }
  }

  /** When both evict, the large cache's victim is the small one's or was not in it. */
  lemma {:induction false} VictimsMatch(qb: seq<Signature>, keys: set<Signature>)
    requires qb != []
    ensures qb[0] in keys ==> Restrict(qb, keys) != [] && Restrict(qb, keys)[0] == qb[0]
  {
  }

  lemma {:induction false} InsertIncluded(a: Cache, b: Cache, s: Signature, info: DeviceInfo)
    requires Included(a, b)
    ensures Included(Inserted(a, s, info), Inserted(b, s, info))
  {
    hide Restrict, Without, Evicts, Submap, Agrees;
    InsertGood(a, s, info);
    InsertGood(b, s, info);
    InsertEvictions(a, b, s);
    IncludedKeys(a, b);
    EvictsWhenFull(a, s);
    EvictsWhenFull(b, s);
    InsertSubmap(a, b, s, info);
    InsertQueues(a, b, s, info);
  }

  // Lookup.

  lemma {:induction false} GetQueues(a: Cache, b: Cache, s: Signature, now: int)
    requires Included(a, b)
    ensures QueuesMatch(Got(a, s, now).0, Got(b, s, now).0)
  {
    hide Restrict, Without, Submap, Dominated, Capacity;
    WithoutMembers(b.queue, s);
    var keys := a.devices.Keys;
    if s in b.devices {
      RestrictWithout(b.queue, s, keys);
      if s in a.devices {
        RestrictBack(Without(b.queue, s), s, keys);
        RestrictWithout(b.queue, s, keys - {s});
        assert keys + {s} == keys && keys - {s} - {s} == keys - {s};
        assert Got(a, s, now).0.devices.Keys == keys;
      } else {
        RestrictConcat(Without(b.queue, s), [s], keys);
        assert keys - {s} == keys;
        RestrictNone(s, keys);
      }
    } else {
      IncludedKeys(a, b);
    }
  }

  lemma {:induction false} RestrictNone(s: Signature, keys: set<Signature>)
    requires s !in keys
    ensures Restrict([s], keys) == []
  {
  }

  lemma {:induction false} GetSubmap(a: Cache, b: Cache, s: Signature, now: int)
    requires Submap(a.devices, b.devices)
    ensures Submap(Got(a, s, now).0.devices, Got(b, s, now).0.devices)
  {
    hide Without;
  }

  lemma {:induction false} GetIncluded(a: Cache, b: Cache, s: Signature, now: int)
    requires Included(a, b)
    ensures Included(Got(a, s, now).0, Got(b, s, now).0)
  {
    hide Restrict, Without, Submap, Agrees;
    StepGood(a, Get(s, now));
    StepGood(b, Get(s, now));
    IncludedKeys(a, b);
    GetSubmap(a, b, s, now);
    GetQueues(a, b, s, now);
  }

  // Removal.

  lemma {:induction false} SubsetCount(a: set<Signature>, b: set<Signature>)
    requires a <= b
    ensures |a| <= |b|
  {
    assert b == a + (b - a);
  }

  /** Taking a set of keys out of both maps never widens the gap. */
  lemma {:induction false} GapAfterRemoval(a: map<Signature, DeviceInfo>, b: map<Signature, DeviceInfo>,
                                           ga: set<Signature>, gb: set<Signature>)
    requires Submap(a, b) && ga == gb * a.Keys
    ensures Submap(a - ga, b - gb)
    ensures |b - gb| - |a - ga| <= |b| - |a|
  {
    var more, fewer := b.Keys - a.Keys, (b.Keys - gb) - (a.Keys - ga);
    SubsetCount(fewer, more);
    assert |more| == |b.Keys| - |a.Keys|;
    assert |fewer| == |b.Keys - gb| - |a.Keys - ga|;
  }

  lemma {:induction false} RemoveQueues(a: Cache, b: Cache, s: Signature)
    requires Included(a, b)
    ensures QueuesMatch(Removed(a, s).0, Removed(b, s).0)
  {
    hide Restrict, Without, Submap;
    var ka := a.devices.Keys;
    RestrictWithout(b.queue, s, ka);
    RestrictWithout(b.queue, s, ka - {s});
    assert ka - {s} - {s} == ka - {s};
  }

  lemma {:induction false} RemoveGap(a: map<Signature, DeviceInfo>, b: map<Signature, DeviceInfo>, s: Signature)
    requires Submap(a, b)
    ensures Submap(a - {s}, b - {s})
    ensures |b - {s}| - |a - {s}| <= |b| - |a|
  {
    GapAfterRemoval(a, b, {s} * a.Keys, {s});
    assert a - {s} == a - {s} * a.Keys;
  }

  lemma {:induction false} RemoveIncluded(a: Cache, b: Cache, s: Signature)
    requires Included(a, b)
    ensures Included(Removed(a, s).0, Removed(b, s).0)
  {
    hide Restrict, Without, Submap, Good, QueuesMatch;
    StepGood(a, Remove(s));
    StepGood(b, Remove(s));
    RemoveQueues(a, b, s);
    RemoveGap(a.devices, b.devices, s);
  }

  lemma {:induction false} StaleAgree(a: map<Signature, DeviceInfo>, b: map<Signature, DeviceInfo>,
                                      now: int, maxAge: nat)
    requires Submap(a, b)
    ensures Stale(a, now, maxAge) == Stale(b, now, maxAge) * a.Keys
  {
  }

  lemma {:induction false} RemoveStaleIncluded(a: Cache, b: Cache, now: int, maxAge: nat)
    requires Included(a, b)
    ensures Included(StaleRemoved(a, now, maxAge).0, StaleRemoved(b, now, maxAge).0)
  {
    hide Restrict, Submap, Agrees, Stale;
    StepGood(a, RemoveStale(now, maxAge));
    StepGood(b, RemoveStale(now, maxAge));
    IncludedKeys(a, b);
    var sa, sb := Stale(a.devices, now, maxAge), Stale(b.devices, now, maxAge);
    var ka, kb := a.devices.Keys, b.devices.Keys;
    StaleAgree(a.devices, b.devices, now, maxAge);
    GapAfterRemoval(a.devices, b.devices, sa, sb);
    RestrictTwice(b.queue, ka, ka - sa);
    RestrictTwice(b.queue, kb - sb, ka - sa);
    assert ka * (ka - sa) == ka - sa;
    assert (kb - sb) * (ka - sa) == ka - sa;
  }

  lemma {:induction false} StepIncluded(a: Cache, b: Cache, op: Op)
    requires Included(a, b)
    ensures Included(Step(a, op), Step(b, op))
  {
    hide Included, Inserted, Got, Removed, StaleRemoved;
    match op {
      case Insert(s, info) => InsertIncluded(a, b, s, info);
      case Get(s, now) => GetIncluded(a, b, s, now);
      case Remove(s) => RemoveIncluded(a, b, s);
      case Clear => ClearIncluded(a, b);
      case RemoveStale(now, maxAge) => RemoveStaleIncluded(a, b, now, maxAge);
    }
  }

  lemma {:induction false} ClearIncluded(a: Cache, b: Cache)
    requires Included(a, b)
    ensures Included(Cleared(a), Cleared(b))
  {
    var a', b' := Cleared(a), Cleared(b);
    assert Good(a') && Good(b');
    assert QueuesMatch(a', b');
  }

  /** LRU inclusion: run the same trace on caches of sizes k <= l. At every point the small
      cache's map is a submap of the large one's with equal infos, its queue is the large
      queue restricted to its keys, the size gap is at most the difference in capacity, and
      the larger cache never hits less nor evicts more. */
  lemma {:induction false} Inclusion(k: nat, l: nat, trace: seq<Op>)
    requires k <= l
    ensures Included(Run(k, trace), Run(l, trace))
  {
    hide Step, Included;
    if trace != [] {
      var n := |trace| - 1;
      Inclusion(k, l, trace[..n]);
      StepIncluded(Run(k, trace[..n]), Run(l, trace[..n]), trace[n]);
    } else {
      EmptyIncluded(NewCache(k), NewCache(l));
    }
  }

  lemma {:induction false} EmptyIncluded(a: Cache, b: Cache)
    requires a.queue == [] == b.queue && a.devices == map[] == b.devices && a.stats == b.stats
    requires Good(a) && Good(b) && a.maxSize <= b.maxSize
    ensures Included(a, b)
  {
    hide Good;
    RestrictToAll([], {});
  }

  /** `a` appears in `b` in order. */
  predicate IsSubsequence(a: seq<Signature>, b: seq<Signature>) {
    a == [] || (b != [] && ((a[0] == b[0] && IsSubsequence(a[1..], b[1..])) || IsSubsequence(a, b[1..])))
  }

  lemma {:induction false} RestrictIsSubsequence(q: seq<Signature>, keys: set<Signature>)
    ensures IsSubsequence(Restrict(q, keys), q)
  {
    if q != [] {
      RestrictIsSubsequence(q[1..], keys);
      if q[0] in keys {
        assert Restrict(q, keys)[1..] == Restrict(q[1..], keys);
      } else {
        assert Restrict(q, keys) == Restrict(q[1..], keys);
      }
    }
  }

  /** The consequences of inclusion a user of the cache sees. */
  lemma {:induction false} LargerCacheIsBetter(k: nat, l: nat, trace: seq<Op>)
    requires k <= l
    ensures IsSubsequence(Run(k, trace).queue, Run(l, trace).queue)
    ensures forall s | s in Run(k, trace).devices ::
              s in Run(l, trace).devices && Run(k, trace).devices[s] == Run(l, trace).devices[s]
    ensures |Run(l, trace).devices| - |Run(k, trace).devices| <= Capacity(l) - Capacity(k)
    ensures Run(k, trace).stats.hits <= Run(l, trace).stats.hits
    ensures Run(k, trace).stats.misses >= Run(l, trace).stats.misses
  {
    hide Run, IsSubsequence, Restrict;
    Inclusion(k, l, trace);
    RunGood(k, trace);
    RunGood(l, trace);
    RestrictIsSubsequence(Run(l, trace).queue, Run(k, trace).devices.Keys);
  }

  // ---------------------------------------------------------------- recency

  /** Whether operation `op`, applied to cache `c`, inserts or hits `s`. */
  predicate Touches(c: Cache, op: Op, s: Signature) {
    (op.Insert? && op.signature == s) || (op.Get? && op.signature == s && s in c.devices)
  }

  /** The position in the trace of the last insertion or hit of `s`; -1 if there is none. */
  function LastTouch(maxSize: nat, trace: seq<Op>, s: Signature): (t: int)
    ensures -1 <= t < |trace|
  {
    if trace == [] then -1
    else
      var n := |trace| - 1;
      if Touches(Run(maxSize, trace[..n]), trace[n], s) then n else LastTouch(maxSize, trace[..n], s)
  }

  /** The queue lists signatures from least to most recently touched. */
  predicate Ordered(q: seq<Signature>, touch: Signature -> int) {
    forall i, j | 0 <= i < j < |q| :: touch(q[i]) < touch(q[j])
  }

  lemma {:induction false} OrderedWithout(q: seq<Signature>, s: Signature, touch: Signature -> int)
    requires Ordered(q, touch)
    ensures Ordered(Without(q, s), touch)
    ensures forall x | x in Without(q, s) :: x in q
  {
    if q != [] && q[0] != s {
      OrderedWithout(q[1..], s, touch);
      var w := Without(q[1..], s);
      forall j | 0 < j < |[q[0]] + w|
        ensures touch(q[0]) < touch(([q[0]] + w)[j])
      {
        assert w[j - 1] in q[1..];
      }
    }
  }

  lemma {:induction false} OrderedRestrict(q: seq<Signature>, keys: set<Signature>, touch: Signature -> int)
    requires Ordered(q, touch)
    ensures Ordered(Restrict(q, keys), touch)
    ensures forall x | x in Restrict(q, keys) :: x in q
  {
    if q != [] {
      OrderedRestrict(q[1..], keys, touch);
      var w := Restrict(q[1..], keys);
      forall j | 0 < j < |[q[0]] + w|
        ensures touch(q[0]) < touch(([q[0]] + w)[j])
      {
        assert w[j - 1] in q[1..];
      }
    }
  }

  /** A newer touch goes to the back; the others keep theirs. */
  lemma {:induction false} OrderedBack(q: seq<Signature>, s: Signature,
                                       before: Signature -> int, after: Signature -> int)
    requires Ordered(q, before)
    requires forall x | x in q :: after(x) == before(x) < after(s)
    ensures Ordered(q + [s], after)
  {
  }

  function Touch(maxSize: nat, trace: seq<Op>): Signature -> int {
    (s: Signature) => LastTouch(maxSize, trace, s)
  }

  /** One operation, at time `n`, keeps the order. */
  lemma {:induction false} StepOrdered(c: Cache, op: Op, n: int, before: Signature -> int, after: Signature -> int)
    requires Good(c) && Ordered(c.queue, before)
    requires forall x: Signature :: before(x) < n && after(x) == if Touches(c, op, x) then n else before(x)
    ensures Ordered(Step(c, op).queue, after)
  {
    hide Without, Restrict, Evicts, Stale, Inserted, Ordered;
    match op {
      case Insert(s, info) =>
        OrderedWithout(c.queue, s, before);
        WithoutMembers(c.queue, s);
        InsertShape(c, s, info);
        var q := Without(c.queue, s);
        if Evicts(c, s) {
          OrderedBack(q[1..], s, before, after);
        } else {
          OrderedBack(q, s, before, after);
        }
      case Get(s, now) =>
        OrderedWithout(c.queue, s, before);
        WithoutMembers(c.queue, s);
        if s in c.devices {
          OrderedBack(Without(c.queue, s), s, before, after);
        } else {
          OrderedSame(c.queue, before, after);
        }
      case Remove(s) =>
        OrderedWithout(c.queue, s, before);
        OrderedSame(Without(c.queue, s), before, after);
      case Clear =>
        OrderedSame([], before, after);
      case RemoveStale(now, maxAge) =>
        OrderedRestrict(c.queue, c.devices.Keys - Stale(c.devices, now, maxAge), before);
        OrderedSame(StaleRemoved(c, now, maxAge).0.queue, before, after);
    }
  }

  lemma {:induction false} OrderedSame(q: seq<Signature>, before: Signature -> int, after: Signature -> int)
    requires q != [] ==> Ordered(q, before)
    requires forall x | x in q :: after(x) == before(x)
    ensures Ordered(q, after)
  {
  }

  /** At every point of every run the queue is in order of last insertion or hit. */
  lemma {:induction false} QueueIsRecencyOrder(maxSize: nat, trace: seq<Op>)
    ensures Ordered(Run(maxSize, trace).queue, Touch(maxSize, trace))
  {
    hide Step, Ordered, Touches;
    if trace == [] {
      OrderedSame([], Touch(maxSize, trace), Touch(maxSize, trace));
    } else {
      var n := |trace| - 1;
      QueueIsRecencyOrder(maxSize, trace[..n]);
      RunGood(maxSize, trace[..n]);
      StepOrdered(Run(maxSize, trace[..n]), trace[n], n, Touch(maxSize, trace[..n]), Touch(maxSize, trace));
    }
  }

  /** What an insertion evicts is the least recently touched key. */
  lemma {:induction false} EvictsLeastRecent(maxSize: nat, trace: seq<Op>, s: Signature, info: DeviceInfo)
    requires Evicts(Run(maxSize, trace), s)
    ensures var c := Run(maxSize, trace);
            && c.queue != [] && c.queue[0] in c.devices
            && Inserted(c, s, info).devices.Keys == c.devices.Keys - {c.queue[0]} + {s}
            && forall t | t in c.devices && t != c.queue[0] ::
                 LastTouch(maxSize, trace, c.queue[0]) < LastTouch(maxSize, trace, t)
  {
    hide Run, LastTouch, Without, Inserted;
    var c := Run(maxSize, trace);
    RunGood(maxSize, trace);
    WithoutMembers(c.queue, s);
    InsertShape(c, s, info);
    QueueIsRecencyOrder(maxSize, trace);
    var touch := Touch(maxSize, trace);
    forall t | t in c.devices && t != c.queue[0]
      ensures touch(c.queue[0]) < touch(t)
    {
      assert t in c.queue;
      var j :| 0 <= j < |c.queue| && c.queue[j] == t;
    }
  }
}
