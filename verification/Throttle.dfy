/** The log throttle and its manager (src/util/logging.rs): how many messages get through in any
    stretch of time. Clock readings are nanoseconds and never go back. */
module Throttling {

  const NANOS_PER_MILLI := 1_000_000
  const COUNT_RANGE := 0x1_0000_0000

  /** `count` is an unsigned 32-bit counter that wraps around. */
  datatype Throttle = Throttle(windowMs: nat, cap: nat, count: nat, t0: nat)

  predicate Valid(s: Throttle) { s.count < COUNT_RANGE && s.cap < COUNT_RANGE }

  function New(windowMs: nat, cap: nat, now: nat): Throttle { Throttle(windowMs, cap, 0, now) }

  function Millis(now: nat, t0: nat): nat {
    if t0 <= now then (now - t0) / NANOS_PER_MILLI else 0
  }

  predicate Expired(s: Throttle, now: nat) { Millis(now, s.t0) > s.windowMs }

  /** The throttle after a call; the call is allowed if the new count is within the cap. */
  function Called(s: Throttle, now: nat): (r: Throttle)
    ensures Valid(s) ==> Valid(r)
    ensures r.cap == s.cap && r.windowMs == s.windowMs
  {
    var current := if Expired(s, now) then s.(t0 := now, count := 0) else s;
    current.(count := (current.count + 1) % COUNT_RANGE)
  }

  predicate Allows(s: Throttle, now: nat) { Called(s, now).count <= s.cap }

  // ---------------------------------------------------------------- the throttle as it runs

  class LogThrottle {
    const windowMs: nat
    const cap: nat
    var count: nat
    var t0: nat

    ghost predicate WithinRange()
      reads this
    {
      Valid(State())
    }

    ghost function State(): Throttle
      reads this
    {
      Throttle(windowMs, cap, count, t0)
    }

    constructor (windowMs: nat, cap: nat, now: nat)
      requires cap < COUNT_RANGE
      ensures WithinRange() && State() == New(windowMs, cap, now)
    {
      this.windowMs, this.cap, count, t0 := windowMs, cap, 0, now;
    }

    method Allow(now: nat) returns (allowed: bool)
      requires WithinRange()
      modifies this
      ensures WithinRange() && State() == Called(old(State()), now)
      ensures allowed == Allows(old(State()), now)
    {
      var elapsed := Millis(now, t0);
      if elapsed > windowMs {
        t0 := now;
        count := 0;
      }
      count := (count + 1) % COUNT_RANGE;
      return count <= cap;
    }
  }

  // ---------------------------------------------------------------- runs

  function Run(s: Throttle, times: seq<nat>): Throttle
    decreases |times|
  {
    if times == [] then s else Run(Called(s, times[0]), times[1..])
  }

  function AllowedCalls(s: Throttle, times: seq<nat>): nat
    decreases |times|
  {
    if times == [] then 0
    else (if Allows(s, times[0]) then 1 else 0) + AllowedCalls(Called(s, times[0]), times[1..])
  }

  /** The counter wraps exactly when a call leaves it at zero. */
  predicate NeverWraps(s: Throttle, times: seq<nat>)
    decreases |times|
  {
    times == [] || (Called(s, times[0]).count != 0 && NeverWraps(Called(s, times[0]), times[1..]))
  }

  predicate Nondecreasing(times: seq<nat>) {
    forall i, j | 0 <= i < j < |times| :: times[i] <= times[j]
  }

  function Min(a: nat, b: nat): nat { if a < b then a else b }

  lemma {:induction false} NoReset(s: Throttle, now: nat)
    requires now < s.t0 + (s.windowMs + 1) * NANOS_PER_MILLI
    ensures !Expired(s, now)
  {
  }

  lemma {:induction false} ResetWhen(s: Throttle, now: nat)
    requires now >= s.t0 + (s.windowMs + 1) * NANOS_PER_MILLI
    ensures Expired(s, now)
  {
  }

  /** As long as the window does not expire, only what is left of the cap gets through. */
  lemma {:induction false} WithinOneWindow(s: Throttle, times: seq<nat>)
    requires Valid(s) && NeverWraps(s, times)
    requires forall i | 0 <= i < |times| :: times[i] < s.t0 + (s.windowMs + 1) * NANOS_PER_MILLI
    ensures AllowedCalls(s, times) <= s.cap - Min(s.count, s.cap)
    decreases |times|
  {
    hide Expired;
    if times != [] {
      NoReset(s, times[0]);
      WithinOneWindow(Called(s, times[0]), times[1..]);
    }
  }

  lemma {:induction false} WithinTwoWindows(s: Throttle, times: seq<nat>, end: nat)
    requires Valid(s) && NeverWraps(s, times) && Nondecreasing(times)
    requires forall i | 0 <= i < |times| :: end < times[i] + (s.windowMs + 1) * NANOS_PER_MILLI && times[i] <= end
    ensures AllowedCalls(s, times) <= s.cap - Min(s.count, s.cap) + s.cap
    decreases |times|
  {
    hide Expired;
    if times != [] {
      var next := Called(s, times[0]);
      if Expired(s, times[0]) {
        WithinOneWindow(next, times[1..]);
      } else {
        WithinTwoWindows(next, times[1..], end);
      }
    }
  }

  /** How far a count reaches beyond the largest 32-bit number. */
  function Beyond(count: nat): nat {
    if count < COUNT_RANGE then 0 else count - (COUNT_RANGE - 1)
  }

  lemma {:induction false} AllowedAtMostCalls(s: Throttle, times: seq<nat>)
    ensures AllowedCalls(s, times) <= |times|
    decreases |times|
  {
    hide Called, Allows;
    if times != [] {
      AllowedAtMostCalls(Called(s, times[0]), times[1..]);
    }
  }

  /** In one window, wrapping or not: what is left of the cap, and one message for each call
      that reaches beyond the counter's range. */
  lemma {:induction false} OneWindowWrapping(s: Throttle, times: seq<nat>)
    requires Valid(s)
    requires forall i | 0 <= i < |times| :: times[i] < s.t0 + (s.windowMs + 1) * NANOS_PER_MILLI
    ensures AllowedCalls(s, times) <= s.cap - Min(s.count, s.cap) + Beyond(s.count + |times|)
    decreases |times|
  {
    hide Expired;
    if times != [] {
      NoReset(s, times[0]);
      if s.count == COUNT_RANGE - 1 {
        AllowedAtMostCalls(s, times);
      } else {
        OneWindowWrapping(Called(s, times[0]), times[1..]);
      }
    }
  }

  /** In two windows: the second cap, or the calls beyond the range, but never both. */
  lemma {:induction false} TwoWindowsWrapping(s: Throttle, times: seq<nat>, end: nat)
    requires Valid(s) && Nondecreasing(times)
    requires forall i | 0 <= i < |times| :: end < times[i] + (s.windowMs + 1) * NANOS_PER_MILLI && times[i] <= end
    ensures AllowedCalls(s, times)
         <= s.cap - Min(s.count, s.cap) + Max(s.cap, Beyond(s.count + |times|))
    decreases |times|
  {
    hide Expired, Called, Allows;
    if times != [] {
      CallCounts(s, times[0]);
      var next := Called(s, times[0]);
      if Expired(s, times[0]) {
        OneWindowWrapping(next, times[1..]);
        CapOrBeyond(s.count, s.cap, |times|);
      } else if s.count == COUNT_RANGE - 1 {
        AllowedAtMostCalls(s, times);
      } else {
        TwoWindowsWrapping(next, times[1..], end);
      }
    }
  }

  /** A call that does not wrap the counter uses up one message, if there are any left. */
  lemma {:induction false} CallCounts(s: Throttle, now: nat)
    requires Valid(s)
    ensures Expired(s, now) ==> Called(s, now) == s.(t0 := now, count := 1)
    ensures !Expired(s, now) && s.count < COUNT_RANGE - 1 ==> Called(s, now) == s.(count := s.count + 1)
    ensures Expired(s, now) ==> (Allows(s, now) <==> s.cap >= 1)
    ensures !Expired(s, now) && s.count < COUNT_RANGE - 1 ==> (Allows(s, now) <==> s.count < s.cap)
  {
    hide Expired;
  }

  lemma {:induction false} CapOrBeyond(count: nat, cap: nat, n: nat)
    ensures cap + Beyond(n) <= cap - Min(count, cap) + Max(cap, Beyond(count + n))
  {
  }

  function Max(a: nat, b: nat): nat { if a < b then b else a }

  /** In any state, calls that fall into an interval of at most the window's length let through
      at most twice the cap, if the counter does not wrap around in them, or if it does but
      with fewer than `cap` calls after it. */
  lemma {:induction false} AtMostTwiceTheCap(s: Throttle, before: seq<nat>, times: seq<nat>)
    requires Valid(s) && Nondecreasing(times)
    requires NeverWraps(Run(s, before), times) || Run(s, before).count + |times| < COUNT_RANGE + s.cap
    requires times != [] ==> times[|times| - 1] - times[0] <= s.windowMs * NANOS_PER_MILLI
    ensures AllowedCalls(Run(s, before), times) <= 2 * s.cap
  {
    RunKeeps(s, before);
    if times != [] {
      if NeverWraps(Run(s, before), times) {
        WithinTwoWindows(Run(s, before), times, times[|times| - 1]);
      } else {
        TwoWindowsWrapping(Run(s, before), times, times[|times| - 1]);
      }
    }
  }

  lemma {:induction false} RunKeeps(s: Throttle, times: seq<nat>)
    requires Valid(s)
    ensures Valid(Run(s, times)) && Run(s, times).cap == s.cap && Run(s, times).windowMs == s.windowMs
    decreases |times|
  {
    hide Called;
    if times != [] {
      RunKeeps(Called(s, times[0]), times[1..]);
    }
  }

  // ---------------------------------------------------------------- the bound is sharp

  function Repeated(t: nat, n: nat): (r: seq<nat>)
    ensures |r| == n && forall i | 0 <= i < n :: r[i] == t
  {
    if n == 0 then [] else [t] + Repeated(t, n - 1)
  }

  lemma {:induction false} RunConcat(s: Throttle, a: seq<nat>, b: seq<nat>)
    ensures Run(s, a + b) == Run(Run(s, a), b)
    ensures AllowedCalls(s, a + b) == AllowedCalls(s, a) + AllowedCalls(Run(s, a), b)
    decreases |a|
  {
    hide Called, Allows;
    if a == [] {
      assert a + b == b;
    } else {
      assert (a + b)[1..] == a[1..] + b;
      RunConcat(Called(s, a[0]), a[1..], b);
    }
  }

  // ---------------------------------------------------------------- each single answer

  /** The time of the call that opened the window of the last call, or of the throttle's start:
      a call opens a window once more than `windowMs` whole milliseconds have passed. */
  function WindowStart(windowMs: nat, t0: nat, times: seq<nat>): nat {
    if times == [] then t0
    else
      var start, last := WindowStart(windowMs, t0, times[..|times| - 1]), times[|times| - 1];
      if last >= start + (windowMs + 1) * 1_000_000 then last else start
  }

  /** The number of calls in the window of the last one. */
  function InWindow(windowMs: nat, t0: nat, times: seq<nat>): nat {
    if times == [] then 0
    else
      var before, last := times[..|times| - 1], times[|times| - 1];
      if last >= WindowStart(windowMs, t0, before) + (windowMs + 1) * 1_000_000 then 1
      else InWindow(windowMs, t0, before) + 1
  }

  lemma {:induction false} ExpiredIs(s: Throttle, now: nat)
    ensures Expired(s, now) <==> now >= s.t0 + (s.windowMs + 1) * 1_000_000
  {
    if now >= s.t0 + (s.windowMs + 1) * NANOS_PER_MILLI {
      ResetWhen(s, now);
    } else {
      NoReset(s, now);
    }
  }

  lemma {:induction false} RunIs(windowMs: nat, cap: nat, t0: nat, times: seq<nat>)
    ensures Run(New(windowMs, cap, t0), times)
         == Throttle(windowMs, cap, InWindow(windowMs, t0, times) % COUNT_RANGE, WindowStart(windowMs, t0, times))
    decreases |times|
  {
    hide Expired;
    if times != [] {
      var before, last := times[..|times| - 1], times[|times| - 1];
      var s := New(windowMs, cap, t0);
      RunIs(windowMs, cap, t0, before);
      assert times == before + [last];
      RunConcat(s, before, [last]);
      assert [last][1..] == [];
      assert Run(Called(Run(s, before), last), []) == Called(Run(s, before), last);
      ExpiredIs(Run(s, before), last);
      NextWrapped(InWindow(windowMs, t0, before));
    }
  }

  lemma {:induction false} NextWrapped(n: nat)
    ensures (n % COUNT_RANGE + 1) % COUNT_RANGE == (n + 1) % COUNT_RANGE
  {
  }

  /** After any history a call is allowed if and only if the number of calls in its window, itself
      included and modulo 2^32, is within the cap. */
  lemma {:induction false} AllowedIff(windowMs: nat, cap: nat, t0: nat, times: seq<nat>, now: nat)
    ensures Allows(Run(New(windowMs, cap, t0), times), now)
       <==> InWindow(windowMs, t0, times + [now]) % 0x1_0000_0000 <= cap
  {
    hide Expired, InWindow, WindowStart;
    var s := New(windowMs, cap, t0);
    RunIs(windowMs, cap, t0, times + [now]);
    RunConcat(s, times, [now]);
    assert [now][1..] == [];
    assert Run(Called(Run(s, times), now), []) == Called(Run(s, times), now);
    RunCap(s, times);
  }

  lemma {:induction false} RunCap(s: Throttle, times: seq<nat>)
    ensures Run(s, times).cap == s.cap
    decreases |times|
  {
    hide Called;
    if times != [] {
      RunCap(Called(s, times[0]), times[1..]);
    }
  }

  /** Repeated calls within one window. */
  lemma {:induction false} RepeatedCalls(s: Throttle, t: nat, n: nat)
    requires Valid(s) && !Expired(s, t) && s.count + n < COUNT_RANGE
    ensures Run(s, Repeated(t, n)) == s.(count := s.count + n)
    ensures s.count + n <= s.cap ==> AllowedCalls(s, Repeated(t, n)) == n
    decreases n
  {
    hide Millis;
    if n > 0 {
      var next := Called(s, t);
      assert next == s.(count := s.count + 1);
      assert Repeated(t, n)[1..] == Repeated(t, n - 1);
      RepeatedCalls(next, t, n - 1);
    }
  }

  /** Twice the cap does get through, within a single millisecond around the end of a window. */
  lemma {:induction false} TwiceTheCapIsReached(windowMs: nat, cap: nat, t0: nat)
    returns (times: seq<nat>)
    requires cap < COUNT_RANGE
    ensures |times| == 2 * cap && Nondecreasing(times)
    ensures times != [] ==> times[|times| - 1] - times[0] == NANOS_PER_MILLI
    ensures AllowedCalls(New(windowMs, cap, t0), times) == 2 * cap
  {
    hide Called, Allows, Expired, Run, AllowedCalls;
    var s := New(windowMs, cap, t0);
    var t1 := t0 + windowMs * NANOS_PER_MILLI;
    var t2 := t1 + NANOS_PER_MILLI;
    times := Repeated(t1, cap) + Repeated(t2, cap);
    NoReset(s, t1);
    RepeatedCalls(s, t1, cap);
    RunConcat(s, Repeated(t1, cap), Repeated(t2, cap));
    ResetWhen(s.(count := cap), t2);
    FullAgain(s.(count := cap), t2);
  }

  /** After a reset the whole cap is available. */
  lemma {:induction false} FullAgain(s: Throttle, t: nat)
    requires Valid(s) && Expired(s, t)
    ensures AllowedCalls(s, Repeated(t, s.cap)) == s.cap
  {
    hide Expired;
    if s.cap > 0 {
      var next := s.(t0 := t, count := 1);
      NoReset(next, t);
      RepeatedCalls(next, t, s.cap - 1);
      assert Repeated(t, s.cap)[1..] == Repeated(t, s.cap - 1);
    }
  }

  /** The counter does wrap: after 2^32 - 1 calls in one window the next call is allowed again,
      whatever the cap, even a cap of zero. */
  lemma {:induction false} WrappedCallIsAllowed(windowMs: nat, cap: nat, t0: nat)
    requires cap < COUNT_RANGE
    ensures Allows(Run(New(windowMs, cap, t0), Repeated(t0, COUNT_RANGE - 1)), t0)
  {
    hide Repeated, Run;
    var s := New(windowMs, cap, t0);
    NoReset(s, t0);
    RepeatedCalls(s, t0, COUNT_RANGE - 1);
  }

  /** Fewer than 2^32 calls cannot wrap the counter. */
  lemma {:induction false} FewCallsNeverWrap(s: Throttle, times: seq<nat>)
    requires Valid(s) && s.count + |times| < COUNT_RANGE
    ensures NeverWraps(s, times)
    decreases |times|
  {
    hide Expired;
    if times != [] {
      FewCallsNeverWrap(Called(s, times[0]), times[1..]);
    }
  }

  // ---------------------------------------------------------------- the exact budget

  lemma {:induction false} CountAtMostCalls(s: Throttle, times: seq<nat>)
    requires Valid(s)
    ensures Run(s, times).count <= s.count + |times|
    decreases |times|
  {
    hide Expired;
    if times != [] {
      CountAtMostCalls(Called(s, times[0]), times[1..]);
    }
  }

  /** The calls after a throttle was made at `t0`: some before, and then those of an interval of
      at most the window's length. */
  predicate IsHistory(windowMs: nat, t0: nat, before: seq<nat>, times: seq<nat>) {
    && Nondecreasing([t0] + before + times)
    && (times != [] ==> times[|times| - 1] - times[0] <= windowMs * NANOS_PER_MILLI)
  }

  /** No history of at most `n` calls exceeds twice the cap in such an interval. */
  ghost predicate BoundedFor(windowMs: nat, cap: nat, t0: nat, n: nat) {
    forall before: seq<nat>, times: seq<nat> |
      IsHistory(windowMs, t0, before, times) && |before| + |times| <= n ::
      AllowedCalls(Run(New(windowMs, cap, t0), before), times) <= 2 * cap
  }

  /** 2^32 + cap calls at one instant let through one message more than twice the cap: the cap,
      the call that leaves the counter at zero, and the cap again. */
  lemma {:induction false} OneTooMany(windowMs: nat, cap: nat, t0: nat, t: nat)
    requires cap < COUNT_RANGE
    ensures AllowedCalls(New(windowMs, cap, t0), Repeated(t, COUNT_RANGE + cap)) == 2 * cap + 1
  {
    hide Millis, Run, AllowedCalls, Repeated;
    var s := New(windowMs, cap, t0);
    if Expired(s, t) {
      NoReset(New(windowMs, cap, t), t);
      OneTooManyInWindow(New(windowMs, cap, t), t);
      SameFirstCall(s, New(windowMs, cap, t), Repeated(t, COUNT_RANGE + cap));
    } else {
      OneTooManyInWindow(s, t);
    }
  }

  lemma {:induction false} SameFirstCall(s: Throttle, s': Throttle, times: seq<nat>)
    requires times != [] && Called(s, times[0]) == Called(s', times[0]) && s.cap == s'.cap
    ensures AllowedCalls(s, times) == AllowedCalls(s', times)
  {
    hide Called;
  }

  lemma {:induction false} OneTooManyInWindow(s: Throttle, t: nat)
    requires Valid(s) && s.count == 0 && !Expired(s, t)
    ensures AllowedCalls(s, Repeated(t, COUNT_RANGE + s.cap)) == 2 * s.cap + 1
  {
    hide Called, Allows, Millis, Run, AllowedCalls, Repeated;
    var cap := s.cap;
    var a, b := Repeated(t, cap), Repeated(t, COUNT_RANGE - 1 - cap);
    RepeatedCalls(s, t, cap);
    var s1 := s.(count := cap);
    RepeatedCalls(s1, t, COUNT_RANGE - 1 - cap);
    RefusedCalls(s1, t, COUNT_RANGE - 1 - cap);
    var s2 := s.(count := COUNT_RANGE - 1);
    WrapThenCap(s2, t);
    RunConcat(s, a, b);
    RunConcat(s, a + b, Repeated(t, cap + 1));
    RepeatedSplit(t, cap, COUNT_RANGE - 1 - cap);
    RepeatedSplit(t, COUNT_RANGE - 1, cap + 1);
  }

  lemma {:induction false} RepeatedSplit(t: nat, m: nat, n: nat)
    ensures Repeated(t, m) + Repeated(t, n) == Repeated(t, m + n)
  {
    hide Repeated;
  }

  lemma {:induction false} RefusedCalls(s: Throttle, t: nat, n: nat)
    requires Valid(s) && !Expired(s, t) && s.cap <= s.count && s.count + n < COUNT_RANGE
    ensures AllowedCalls(s, Repeated(t, n)) == 0
    decreases n
  {
    hide Millis;
    if n > 0 {
      assert Repeated(t, n)[1..] == Repeated(t, n - 1);
      RefusedCalls(Called(s, t), t, n - 1);
    }
  }

  lemma {:induction false} WrapThenCap(s: Throttle, t: nat)
    requires Valid(s) && !Expired(s, t) && s.count == COUNT_RANGE - 1
    ensures AllowedCalls(s, Repeated(t, s.cap + 1)) == s.cap + 1
  {
    hide Millis;
    RepeatedCalls(s.(count := 0), t, s.cap);
    assert Repeated(t, s.cap + 1)[1..] == Repeated(t, s.cap);
  }

  /** From a new throttle the bound of twice the cap holds for every history of at most `n`
      calls if and only if `n` is less than 2^32 + cap. */
  lemma {:induction false} BoundedForIff(windowMs: nat, cap: nat, t0: nat, n: nat)
    requires cap < COUNT_RANGE
    ensures BoundedFor(windowMs, cap, t0, n) <==> n < COUNT_RANGE + cap
  {
    hide Run, AllowedCalls, NeverWraps;
    var s := New(windowMs, cap, t0);
    if n < COUNT_RANGE + cap {
      forall before: seq<nat>, times: seq<nat> | IsHistory(windowMs, t0, before, times) && |before| + |times| <= n
        ensures AllowedCalls(Run(s, before), times) <= 2 * cap
      {
        CountAtMostCalls(s, before);
        LaterNondecreasing([t0] + before, times);
        AtMostTwiceTheCap(s, before, times);
      }
    } else {
      var times := Repeated(t0, COUNT_RANGE + cap);
      OneTooMany(windowMs, cap, t0, t0);
      RunOfNone(s);
      assert IsHistory(windowMs, t0, [], times);
      assert AllowedCalls(Run(s, []), times) == 2 * cap + 1;
    }
  }

  lemma {:induction false} LaterNondecreasing(a: seq<nat>, b: seq<nat>)
    requires Nondecreasing(a + b)
    ensures Nondecreasing(b)
  {
    forall i, j | 0 <= i < j < |b| ensures b[i] <= b[j] {
      assert (a + b)[|a| + i] == b[i] && (a + b)[|a| + j] == b[j];
    }
  }

  // ---------------------------------------------------------------- the manager

  /** A call on the manager. A throttle created by it starts at `created`. */
  datatype Call = Call(category: string, windowMs: nat, cap: nat, created: nat, now: nat)

  function Entry(m: map<string, Throttle>, c: Call): Throttle {
    if c.category in m then m[c.category] else New(c.windowMs, c.cap, c.created)
  }

  function ManagerAllow(m: map<string, Throttle>, c: Call): map<string, Throttle> {
    m[c.category := Called(Entry(m, c), c.now)]
  }

  class ThrottleManager {
    var throttles: map<string, Throttle>

    constructor ()
      ensures throttles == map[]
    {
      throttles := map[];
    }

    method AllowCategory(c: Call) returns (allowed: bool)
      modifies this
      ensures throttles == ManagerAllow(old(throttles), c)
      ensures allowed == Allows(Entry(old(throttles), c), c.now)
    {
      if c.category !in throttles {
        throttles := throttles[c.category := New(c.windowMs, c.cap, c.created)];
      }
      var throttle := throttles[c.category];
      allowed := Allows(throttle, c.now);
      throttles := throttles[c.category := Called(throttle, c.now)];
    }
  }

  function ManagerRun(m: map<string, Throttle>, calls: seq<Call>): map<string, Throttle>
    decreases |calls|
  {
    if calls == [] then m else ManagerRun(ManagerAllow(m, calls[0]), calls[1..])
  }

  /** Calls of one category that the manager allows. */
  function ManagerAllowed(m: map<string, Throttle>, calls: seq<Call>, category: string): nat
    decreases |calls|
  {
    if calls == [] then 0
    else
      (if calls[0].category == category && Allows(Entry(m, calls[0]), calls[0].now) then 1 else 0)
      + ManagerAllowed(ManagerAllow(m, calls[0]), calls[1..], category)
  }

  /** The times of the calls of one category. */
  function Times(calls: seq<Call>, category: string): (r: seq<nat>) {
    if calls == [] then []
    else (if calls[0].category == category then [calls[0].now] else []) + Times(calls[1..], category)
  }

  /** The first call of a category. */
  function FirstOf(calls: seq<Call>, category: string): (c: Call)
    requires Times(calls, category) != []
    ensures c in calls && c.category == category
  {
    if calls[0].category == category then calls[0] else FirstOf(calls[1..], category)
  }

  lemma {:induction false} TimesConcat(a: seq<Call>, b: seq<Call>, category: string)
    ensures Times(a + b, category) == Times(a, category) + Times(b, category)
    ensures Times(a, category) != [] ==> FirstOf(a + b, category) == FirstOf(a, category)
    ensures Times(a, category) == [] && Times(b, category) != [] ==> FirstOf(a + b, category) == FirstOf(b, category)
  {
    if a == [] {
      assert a + b == b;
    } else {
      assert (a + b)[1..] == a[1..] + b;
      TimesConcat(a[1..], b, category);
      var first, later := if a[0].category == category then [a[0].now] else [], Times(a[1..], category);
      assert first + (later + Times(b, category)) == first + later + Times(b, category);
    }
  }

  /** What the manager does for a category is what one throttle with the parameters of the
      category's first call does with the times of its calls, whatever the other categories
      do and whatever parameters later calls pass. */
  lemma {:induction false} CategoryIsOneThrottle(m: map<string, Throttle>, calls: seq<Call>, category: string)
    ensures var times := Times(calls, category);
            if times == [] then
              && (category in ManagerRun(m, calls) <==> category in m)
              && (category in m ==> ManagerRun(m, calls)[category] == m[category])
              && ManagerAllowed(m, calls, category) == 0
            else
              var s := Entry(m, FirstOf(calls, category));
              && category in ManagerRun(m, calls)
              && ManagerRun(m, calls)[category] == Run(s, times)
              && ManagerAllowed(m, calls, category) == AllowedCalls(s, times)
    decreases |calls|
  {
    hide Called, Allows;
    if calls != [] {
      var next := ManagerAllow(m, calls[0]);
      CategoryIsOneThrottle(next, calls[1..], category);
      if calls[0].category == category {
        var times := Times(calls, category);
        assert times == [calls[0].now] + Times(calls[1..], category);
        assert times[1..] == Times(calls[1..], category);
      } else {
        assert Times(calls, category) == Times(calls[1..], category);
      }
    }
  }

  /** Per category, from an empty manager and whatever calls came before: calls of a category
      that fall into an interval of at most the window of the category's first call let through
      at most twice the cap of that first call, under the same condition on its counter. */
  lemma {:induction false} CategoryAtMostTwiceTheCap(before: seq<Call>, calls: seq<Call>, category: string)
    requires Times(before + calls, category) != []
    requires FirstOf(before + calls, category).cap < COUNT_RANGE
    requires Nondecreasing(Times(calls, category))
    requires var times := Times(calls, category);
             var window := FirstOf(before + calls, category).windowMs;
             times != [] ==> times[|times| - 1] - times[0] <= window * NANOS_PER_MILLI
    requires var first := FirstOf(before + calls, category);
             var start := Run(Entry(map[], first), Times(before, category));
             var times := Times(calls, category);
             NeverWraps(start, times) || start.count + |times| < COUNT_RANGE + first.cap
    ensures ManagerAllowed(ManagerRun(map[], before), calls, category) <= 2 * FirstOf(before + calls, category).cap
  {
    hide ManagerRun, ManagerAllowed, Run, AllowedCalls, NeverWraps, Nondecreasing, Called;
    CategoryFromStart(before, calls, category);
    AtMostTwiceTheCap(Entry(map[], FirstOf(before + calls, category)), Times(before, category), Times(calls, category));
  }

  lemma {:induction false} CategoryFromStart(before: seq<Call>, calls: seq<Call>, category: string)
    requires Times(before + calls, category) != []
    ensures ManagerAllowed(ManagerRun(map[], before), calls, category)
         == AllowedCalls(Run(Entry(map[], FirstOf(before + calls, category)), Times(before, category)),
                         Times(calls, category))
  {
    hide ManagerRun, ManagerAllowed, Run, Called;
    TimesConcat(before, calls, category);
    CategoryIsOneThrottle(map[], before, category);
    CategoryIsOneThrottle(ManagerRun(map[], before), calls, category);
    RunOfNone(Entry(map[], FirstOf(before + calls, category)));
  }

  /** The calls of a category on an empty manager, with the parameters of its first call: some
      before, and then those of an interval of at most its window. */
  predicate IsCategoryHistory(category: string, first: Call, before: seq<Call>, calls: seq<Call>) {
    && Times(before + calls, category) != [] && FirstOf(before + calls, category) == first
    && IsHistory(first.windowMs, first.created, Times(before, category), Times(calls, category))
  }

  ghost predicate CategoryBoundedFor(category: string, first: Call, n: nat) {
    forall before: seq<Call>, calls: seq<Call> |
      IsCategoryHistory(category, first, before, calls) && |Times(before + calls, category)| <= n ::
      ManagerAllowed(ManagerRun(map[], before), calls, category) <= 2 * first.cap
  }

  function Same(c: Call, n: nat): (r: seq<Call>)
    ensures |r| == n
  {
    if n == 0 then [] else [c] + Same(c, n - 1)
  }

  lemma {:induction false} TimesOfSame(c: Call, n: nat)
    ensures Times(Same(c, n), c.category) == Repeated(c.now, n)
    ensures n > 0 ==> FirstOf(Same(c, n), c.category) == c
  {
    if n > 0 {
      TimesOfSame(c, n - 1);
      assert Same(c, n)[1..] == Same(c, n - 1);
    }
  }

  /** Per category the bound holds for every history with at most `n` calls of that category,
      whatever calls of other categories come between, if and only if `n` is less than
      2^32 + cap, with the cap of the category's first call. */
  lemma {:induction false} CategoryBoundedForIff(category: string, first: Call, n: nat)
    requires first.category == category && first.created <= first.now && first.cap < COUNT_RANGE
    ensures CategoryBoundedFor(category, first, n) <==> n < COUNT_RANGE + first.cap
  {
    hide ManagerRun, ManagerAllowed, Run, AllowedCalls, NeverWraps, IsHistory, Repeated, Same, Times, FirstOf;
    var s := Entry(map[], first);
    BoundedForIff(first.windowMs, first.cap, first.created, n);
    if n < COUNT_RANGE + first.cap {
      forall before: seq<Call>, calls: seq<Call> |
        IsCategoryHistory(category, first, before, calls) && |Times(before + calls, category)| <= n
        ensures ManagerAllowed(ManagerRun(map[], before), calls, category) <= 2 * first.cap
      {
        CategoryFromStart(before, calls, category);
        TimesConcat(before, calls, category);
      }
    } else {
      TooManyOfOne(first);
      var calls := Same(first, COUNT_RANGE + first.cap);
      assert IsCategoryHistory(category, first, [], calls);
    }
  }

  lemma {:induction false} RepeatedHistory(windowMs: nat, t0: nat, t: nat, n: nat)
    requires t0 <= t
    ensures IsHistory(windowMs, t0, [], Repeated(t, n))
  {
    hide Repeated;
  }

  /** The same call 2^32 + cap times. */
  lemma {:induction false} TooManyOfOne(c: Call)
    requires c.created <= c.now && c.cap < COUNT_RANGE
    ensures var calls := Same(c, COUNT_RANGE + c.cap);
            && IsCategoryHistory(c.category, c, [], calls)
            && |Times([] + calls, c.category)| == COUNT_RANGE + c.cap
            && ManagerAllowed(ManagerRun(map[], []), calls, c.category) == 2 * c.cap + 1
  {
    hide ManagerRun, ManagerAllowed, Run, AllowedCalls, Repeated, Same, Times, FirstOf, IsHistory;
    RepeatedHistory(c.windowMs, c.created, c.now, COUNT_RANGE + c.cap);
    var n := COUNT_RANGE + c.cap;
    var calls := Same(c, n);
    TimesOfSame(c, n);
    assert [] + calls == calls;
    TimesConcat([], calls, c.category);
    NoTimes(c.category);
    CategoryFromStart([], calls, c.category);
    RunOfNone(Entry(map[], c));
    OneTooMany(c.windowMs, c.cap, c.created, c.now);
  }

  lemma {:induction false} NoTimes(category: string)
    ensures Times([], category) == []
  {
  }

  lemma {:induction false} RunOfNone(s: Throttle)
    ensures Run(s, []) == s
  {
  }
}
