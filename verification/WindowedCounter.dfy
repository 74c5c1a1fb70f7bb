/** The time-windowed event counter (src/instrumentation/stats.rs): what its total says about
    the true number of recent events. Times are in any unit, taken from a clock that never goes
    back; rates are not part of the model. */
module WindowedCounting {

  datatype Window = Window(start: nat, count: nat)

  datatype Limits = Limits(duration: nat, maxWindows: nat)

  /** Time between two instants, zero if they are out of order. */
  function Since(now: nat, t: nat): nat { if t <= now then now - t else 0 }

  function Cutoff(l: Limits): nat { l.duration * l.maxWindows }

  function Retained(ws: seq<Window>, now: nat, cutoff: nat): (r: seq<Window>)
    ensures |r| <= |ws|
  {
    if ws == [] then []
    else (if Since(now, ws[0].start) < cutoff then [ws[0]] else []) + Retained(ws[1..], now, cutoff)
  }

  function Drained(ws: seq<Window>, max: nat): seq<Window> {
    if |ws| > max then ws[|ws| - max..] else ws
  }

  function Cleaned(l: Limits, ws: seq<Window>, now: nat): seq<Window> {
    Drained(Retained(ws, now, Cutoff(l)), l.maxWindows)
  }

  function Incremented(l: Limits, ws: seq<Window>, now: nat): (r: seq<Window>) {
    var cleaned := Cleaned(l, ws, now);
    var n := |cleaned|;
    if n > 0 && Since(now, cleaned[n - 1].start) < l.duration
    then cleaned[..n - 1] + [Window(cleaned[n - 1].start, cleaned[n - 1].count + 1)]
    else cleaned + [Window(now, 1)]
  }

  function Total(ws: seq<Window>): nat {
    if ws == [] then 0 else ws[0].count + Total(ws[1..])
  }

  // ---------------------------------------------------------------- the counter as it runs

  class WindowedCounter {
    var windows: seq<Window>
    const limits: Limits

    constructor (duration: nat, maxWindows: nat)
      ensures windows == [] && limits == Limits(duration, maxWindows)
    {
      windows := [];
      limits := Limits(duration, maxWindows);
    }

    method CleanupOldWindows(now: nat)
      modifies this
      ensures windows == Cleaned(limits, old(windows), now)
      ensures var kept := Retained(old(windows), now, limits.duration * limits.maxWindows);
              windows == if |kept| > limits.maxWindows then kept[|kept| - limits.maxWindows..] else kept
    {
      var kept: seq<Window> := [];
      assert windows[0..] == windows;
      for i := 0 to |windows|
        invariant windows == old(windows)
        invariant kept + Retained(windows[i..], now, Cutoff(limits)) == Retained(windows, now, Cutoff(limits))
      {
        assert windows[i..][1..] == windows[i + 1..];
        if Since(now, windows[i].start) < Cutoff(limits) {
          kept := kept + [windows[i]];
        }
      }
      assert kept + [] == kept;
      windows := kept;
      if |windows| > limits.maxWindows {
        windows := windows[|windows| - limits.maxWindows..];
      }
    }

    method Increment(now: nat)
      modifies this
      ensures windows == Incremented(limits, old(windows), now)
    {
      hide Cleaned;
      CleanupOldWindows(now);
      var n := |windows|;
      if n > 0 && Since(now, windows[n - 1].start) < limits.duration {
        var last := windows[n - 1];
        windows := windows[n - 1 := last.(count := last.count + 1)];
        assert windows == windows[..n - 1] + [windows[n - 1]];
        return;
      }
      windows := windows + [Window(now, 1)];
    }

    method GetTotal() returns (total: nat)
      ensures total == Total(windows)
    {
      total := 0;
      assert windows[0..] == windows;
      for i := 0 to |windows|
        invariant total + Total(windows[i..]) == Total(windows)
      {
        assert windows[i..][1..] == windows[i + 1..];
        total := total + windows[i].count;
      }
    }
  }

  // ---------------------------------------------------------------- runs

  datatype Tick = Increment(now: nat) | Cleanup(now: nat)

  predicate Nondecreasing(ticks: seq<Tick>) {
    forall i, j | 0 <= i < j < |ticks| :: ticks[i].now <= ticks[j].now
  }

  function Apply(l: Limits, ws: seq<Window>, t: Tick): seq<Window> {
    match t
    case Increment(now) => Incremented(l, ws, now)
    case Cleanup(now) => Cleaned(l, ws, now)
  }

  function Run(l: Limits, ticks: seq<Tick>): seq<Window> {
    if ticks == [] then [] else Apply(l, Run(l, ticks[..|ticks| - 1]), ticks[|ticks| - 1])
  }

  /** The times of all increments of a run. */
  function Events(ticks: seq<Tick>): (times: seq<nat>)
  {
    if ticks == [] then []
    else
      var last := ticks[|ticks| - 1];
      Events(ticks[..|ticks| - 1]) + if last.Increment? then [last.now] else []
  }

  /** Number of events less than `age` old. */
  function Younger(times: seq<nat>, now: nat, age: int): (n: nat) {
    if times == [] then 0 else (if now - times[0] < age then 1 else 0) + Younger(times[1..], now, age)
  }

  // ---------------------------------------------------------------- what the windows stand for

  /** The windows group the given events: each holds the events of less than one duration from
      its start, and starts are at least one duration apart. */
  predicate Groups(ws: seq<Window>, times: seq<nat>, duration: nat)
    decreases |ws|
  {
    if ws == [] then times == []
    else
      var w := ws[0];
      && 1 <= w.count <= |times|
      && (forall i | 0 <= i < w.count :: w.start <= times[i] < w.start + duration)
      && (|ws| > 1 ==> w.start + duration <= ws[1].start)
      && Groups(ws[1..], times[w.count..], duration)
  }

  predicate Apart(ws: seq<Window>, duration: nat) {
    forall i | 0 < i < |ws| :: ws[i - 1].start + duration <= ws[i].start
  }

  /** The windows group all but the first events, and those are older than all but one window. */
  ghost predicate Accounts(l: Limits, ws: seq<Window>, times: seq<nat>, now: nat) {
    && Apart(ws, l.duration)
    && (forall i | 0 <= i < |times| :: times[i] <= now)
    && (forall i | 0 <= i < |ws| :: ws[i].start <= now)
    && exists n: nat :: LostAndGrouped(l, ws, times, now, n)
  }

  predicate LostAndGrouped(l: Limits, ws: seq<Window>, times: seq<nat>, now: nat, n: nat) {
    && n <= |times|
    && Groups(ws, times[n..], l.duration)
    && forall i | 0 <= i < n :: times[i] + Cutoff(l) < now + l.duration
  }

  lemma {:induction false} GroupsTotal(ws: seq<Window>, times: seq<nat>, duration: nat)
    requires Groups(ws, times, duration)
    ensures Total(ws) == |times|
    decreases |ws|
  {
    if ws != [] {
      GroupsTotal(ws[1..], times[ws[0].count..], duration);
    }
  }

  lemma {:induction false} StartsAscend(ws: seq<Window>, duration: nat, i: nat)
    requires Apart(ws, duration) && i < |ws|
    ensures ws[0].start + i * duration <= ws[i].start
    decreases i
  {
    if i > 0 {
      StartsAscend(ws, duration, i - 1);
      assert i * duration == (i - 1) * duration + duration;
    }
  }

  /** Windows are retained from the first young enough one on. */
  lemma {:induction false} RetainedIsSuffix(ws: seq<Window>, now: nat, cutoff: nat, duration: nat) returns (k: nat)
    requires Apart(ws, duration)
    requires forall i | 0 <= i < |ws| :: ws[i].start <= now
    ensures k <= |ws| && Retained(ws, now, cutoff) == ws[k..]
    ensures forall i | 0 <= i < k :: now - ws[i].start >= cutoff
    ensures forall i | k <= i < |ws| :: now - ws[i].start < cutoff
  {
    hide Apart;
    if ws == [] {
      k := 0;
    } else if now - ws[0].start < cutoff {
      forall i | 0 <= i < |ws| ensures now - ws[i].start < cutoff {
        StartsAscend(ws, duration, i);
      }
      k := 0;
      RetainedAll(ws, now, cutoff);
    } else {
      var later := ws[1..];
      ApartSuffix(ws, duration, 1);
      forall i | 0 <= i < |later| ensures later[i].start <= now {
        assert later[i] == ws[i + 1];
      }
      var j := RetainedIsSuffix(later, now, cutoff, duration);
      k := j + 1;
      assert later[j..] == ws[k..];
      forall i | 0 <= i < k ensures now - ws[i].start >= cutoff {
        if i > 0 { assert ws[i] == later[i - 1]; }
      }
      forall i | k <= i < |ws| ensures now - ws[i].start < cutoff {
        assert ws[i] == later[i - 1];
      }
    }
  }

  lemma {:induction false} RetainedAll(ws: seq<Window>, now: nat, cutoff: nat)
    requires forall i | 0 <= i < |ws| :: ws[i].start <= now && now - ws[i].start < cutoff
    ensures Retained(ws, now, cutoff) == ws
  {
    if ws != [] {
      RetainedAll(ws[1..], now, cutoff);
    }
  }

  /** At most `maxWindows` windows are young enough to be retained, so draining the list to that
      length never removes one. */
  lemma {:induction false} RetainedFit(l: Limits, ws: seq<Window>, now: nat)
    requires Apart(ws, l.duration)
    requires forall i | 0 <= i < |ws| :: ws[i].start <= now && now - ws[i].start < Cutoff(l)
    ensures |ws| <= l.maxWindows
  {
    if ws != [] {
      var k := |ws| - 1;
      StartsAscend(ws, l.duration, k);
      assert k * l.duration < l.duration * l.maxWindows;
      LessTimes(k, l.maxWindows, l.duration);
    }
  }

  lemma {:induction false} LessTimes(a: nat, b: nat, d: nat)
    requires a * d < d * b
    ensures a < b
  {
  }

  lemma {:induction false} ApartSuffix(ws: seq<Window>, duration: nat, k: nat)
    requires Apart(ws, duration) && k <= |ws|
    ensures Apart(ws[k..], duration)
  {
    forall i | 0 < i < |ws[k..]| ensures ws[k..][i - 1].start + duration <= ws[k..][i].start {
      assert ws[k..][i] == ws[k + i] && ws[k..][i - 1] == ws[k + i - 1];
    }
  }

  lemma {:induction false} CleanedIsSuffix(l: Limits, ws: seq<Window>, now: nat) returns (k: nat)
    requires Apart(ws, l.duration)
    requires forall i | 0 <= i < |ws| :: ws[i].start <= now
    ensures k <= |ws| && Cleaned(l, ws, now) == ws[k..] == Retained(ws, now, Cutoff(l))
    ensures Apart(ws[k..], l.duration) && |ws[k..]| <= l.maxWindows
    ensures forall i | 0 <= i < k :: now - ws[i].start >= Cutoff(l)
    ensures forall i | k <= i < |ws| :: now - ws[i].start < Cutoff(l)
  {
    hide Cutoff, Apart;
    k := RetainedIsSuffix(ws, now, Cutoff(l), l.duration);
    ApartSuffix(ws, l.duration, k);
    RetainedFit(l, ws[k..], now);
  }

  /** Dropping windows drops the events they group, and those are old. */
  lemma {:induction false} DropGroups(l: Limits, ws: seq<Window>, times: seq<nat>, now: nat, k: nat) returns (n: nat)
    requires Groups(ws, times, l.duration) && k <= |ws|
    requires forall i | 0 <= i < k :: ws[i].start + Cutoff(l) <= now
    ensures n <= |times| && Groups(ws[k..], times[n..], l.duration)
    ensures forall i | 0 <= i < n :: times[i] + Cutoff(l) < now + l.duration
    decreases |ws|
  {
    hide Cutoff;
    if k == 0 {
      n := 0;
      assert ws[0..] == ws && times[0..] == times;
    } else {
      var w := ws[0];
      var m := DropGroups(l, ws[1..], times[w.count..], now, k - 1);
      n := w.count + m;
      assert ws[1..][k - 1..] == ws[k..];
      assert times[w.count..][m..] == times[n..];
      assert forall i | w.count <= i < n :: times[i] == times[w.count..][i - w.count];
    }
  }

  lemma {:induction false} CleanedAccounts(l: Limits, ws: seq<Window>, times: seq<nat>, prior: nat, now: nat)
    requires Accounts(l, ws, times, prior) && prior <= now
    ensures Accounts(l, Cleaned(l, ws, now), times, now)
    ensures forall i | 0 <= i < |Cleaned(l, ws, now)| :: now - Cleaned(l, ws, now)[i].start < Cutoff(l)
  {
    hide Cutoff, Groups, Cleaned, Apart;
    var n: nat :| LostAndGrouped(l, ws, times, prior, n);
    var k := CleanedIsSuffix(l, ws, now);
    var m := DropGroups(l, ws, times[n..], now, k);
    assert times[n..][m..] == times[n + m..];
    assert forall i | n <= i < n + m :: times[i] == times[n..][i - n];
    assert LostAndGrouped(l, ws[k..], times, now, n + m);
  }

  /** An event joins the last window or opens a new one. */
  lemma {:induction false} GroupsJoin(ws: seq<Window>, times: seq<nat>, duration: nat, now: nat)
    requires Groups(ws, times, duration) && ws != []
    requires ws[|ws| - 1].start <= now < ws[|ws| - 1].start + duration
    ensures var last := ws[|ws| - 1];
            Groups(ws[..|ws| - 1] + [Window(last.start, last.count + 1)], times + [now], duration)
    decreases |ws|
  {
    var last := ws[|ws| - 1];
    var ws' := ws[..|ws| - 1] + [Window(last.start, last.count + 1)];
    if |ws| > 1 {
      GroupsJoin(ws[1..], times[ws[0].count..], duration, now);
      assert ws'[1..] == ws[1..][..|ws| - 2] + [Window(last.start, last.count + 1)];
      assert (times + [now])[ws[0].count..] == times[ws[0].count..] + [now];
    } else {
      assert ws'[1..] == [];
      assert (times + [now])[last.count + 1..] == [];
      assert Groups(ws[1..], times[last.count..], duration);
      assert |times| == last.count;
    }
  }

  lemma {:induction false} GroupsOpen(ws: seq<Window>, times: seq<nat>, duration: nat, now: nat)
    requires Groups(ws, times, duration) && duration >= 1
    requires ws != [] ==> ws[|ws| - 1].start + duration <= now
    ensures Groups(ws + [Window(now, 1)], times + [now], duration)
    decreases |ws|
  {
    var ws' := ws + [Window(now, 1)];
    if ws != [] {
      GroupsOpen(ws[1..], times[ws[0].count..], duration, now);
      assert ws'[1..] == ws[1..] + [Window(now, 1)];
      assert (times + [now])[ws[0].count..] == times[ws[0].count..] + [now];
    } else {
      assert ws'[1..] == [] && (times + [now])[1..] == [];
    }
  }

  lemma {:induction false} IncrementedAccounts(l: Limits, ws: seq<Window>, times: seq<nat>, prior: nat, now: nat)
    requires Accounts(l, ws, times, prior) && prior <= now && l.duration >= 1
    ensures Accounts(l, Incremented(l, ws, now), times + [now], now)
    ensures Cutoff(l) > 0 ==>
              forall i | 0 <= i < |Incremented(l, ws, now)| :: now - Incremented(l, ws, now)[i].start < Cutoff(l)
  {
    hide Cutoff, Groups, Cleaned;
    CleanedAccounts(l, ws, times, prior, now);
    var cleaned, result := Cleaned(l, ws, now), Incremented(l, ws, now);
    var n: nat :| LostAndGrouped(l, cleaned, times, now, n);
    assert (times + [now])[n..] == times[n..] + [now];
    if |cleaned| > 0 && now - cleaned[|cleaned| - 1].start < l.duration {
      GroupsJoin(cleaned, times[n..], l.duration, now);
    } else {
      GroupsOpen(cleaned, times[n..], l.duration, now);
    }
    assert LostAndGrouped(l, result, times + [now], now, n);
  }

  // ---------------------------------------------------------------- every run

  lemma {:induction false} RunAccounts(l: Limits, ticks: seq<Tick>)
    requires Nondecreasing(ticks) && ticks != [] && l.duration >= 1
    ensures var now := ticks[|ticks| - 1].now;
            && Accounts(l, Run(l, ticks), Events(ticks), now)
            && (Cutoff(l) > 0 ==> forall i | 0 <= i < |Run(l, ticks)| :: now - Run(l, ticks)[i].start < Cutoff(l))
    decreases |ticks|
  {
    hide Cutoff, Accounts, Cleaned, Incremented;
    var before, last := ticks[..|ticks| - 1], ticks[|ticks| - 1];
    var prior := if before == [] then last.now else before[|before| - 1].now;
    if before == [] {
      NothingAccounts(l, prior);
    } else {
      RunAccounts(l, before);
    }
    match last {
      case Increment(now) => IncrementedAccounts(l, Run(l, before), Events(before), prior, now);
      case Cleanup(now) =>
        CleanedAccounts(l, Run(l, before), Events(before), prior, now);
        assert Events(before) + [] == Events(before);
    }
  }

  lemma {:induction false} NothingAccounts(l: Limits, now: nat)
    ensures Accounts(l, [], [], now)
  {
    assert LostAndGrouped(l, [], [], now, 0);
  }

  lemma {:induction false} YoungerOfSplit(times: seq<nat>, n: nat, now: nat, age: int)
    requires n <= |times|
    ensures (forall i | 0 <= i < n :: now - times[i] >= age) ==> Younger(times, now, age) <= |times| - n
    ensures (forall i | n <= i < |times| :: now - times[i] < age) ==> Younger(times, now, age) >= |times| - n
  {
    if times != [] {
      var m := if n == 0 then 0 else n - 1;
      assert forall i | 1 <= i < |times| :: times[i] == times[1..][i - 1];
      YoungerOfSplit(times[1..], m, now, age);
      if forall i | n <= i < |times| :: now - times[i] < age {
        assert forall i | m <= i < |times[1..]| :: times[1..][i] == times[i + 1];
      }
      if forall i | 0 <= i < n :: now - times[i] >= age {
        assert forall i | 0 <= i < m :: times[1..][i] == times[i + 1];
      }
    }
  }

  lemma {:induction false} GroupedAreYoung(ws: seq<Window>, times: seq<nat>, duration: nat, now: nat, cutoff: nat)
    requires Groups(ws, times, duration)
    requires forall i | 0 <= i < |ws| :: now - ws[i].start < cutoff
    ensures forall i | 0 <= i < |times| :: now - times[i] < cutoff
    decreases |ws|
  {
    if ws != [] {
      var c := ws[0].count;
      GroupedAreYoung(ws[1..], times[c..], duration, now, cutoff);
      assert forall i | c <= i < |times| :: times[i] == times[c..][i - c];
    }
  }

  /** Right after a call at time `now` the total lies between the number of events at most
      (maxWindows - 1) durations old and the number of events less than maxWindows durations
      old. */
  lemma {:induction false} TotalIsSandwiched(l: Limits, ticks: seq<Tick>)
    requires Nondecreasing(ticks) && ticks != [] && l.duration >= 1
    ensures var now := ticks[|ticks| - 1].now;
            && Younger(Events(ticks), now, (l.maxWindows - 1) * l.duration + 1) <= Total(Run(l, ticks))
            && (l.maxWindows >= 1 ==> Total(Run(l, ticks)) <= Younger(Events(ticks), now, l.maxWindows * l.duration))
  {
    hide Groups, Run, Events, Younger, Total, Apart;
    var now := ticks[|ticks| - 1].now;
    var ws, times := Run(l, ticks), Events(ticks);
    RunAccounts(l, ticks);
    var n: nat :| LostAndGrouped(l, ws, times, now, n);
    GroupsTotal(ws, times[n..], l.duration);
    assert (l.maxWindows - 1) * l.duration == Cutoff(l) - l.duration;
    YoungerOfSplit(times, n, now, Cutoff(l) - l.duration + 1);
    if l.maxWindows >= 1 {
      assert Cutoff(l) > 0 by { Product(l.maxWindows, l.duration); }
      GroupedAreYoung(ws, times[n..], l.duration, now, Cutoff(l));
      assert forall i | n <= i < |times| :: times[i] == times[n..][i - n];
      YoungerOfSplit(times, n, now, Cutoff(l));
    }
  }

  lemma {:induction false} Product(a: nat, b: nat)
    requires a >= 1 && b >= 1
    ensures a * b >= 1
  {
  }

  /** In every run the list never needs draining, and window starts stay a duration apart. */
  lemma {:induction false} RunNeverDrains(l: Limits, ticks: seq<Tick>, now: nat)
    requires Nondecreasing(ticks + [Cleanup(now)]) && l.duration >= 1
    ensures Apart(Run(l, ticks), l.duration)
    ensures Cleaned(l, Run(l, ticks), now) == Retained(Run(l, ticks), now, Cutoff(l))
  {
    hide Cutoff, Cleaned, Retained;
    if ticks != [] {
      assert forall i | 0 <= i < |ticks| :: ticks[i] == (ticks + [Cleanup(now)])[i];
      assert (ticks + [Cleanup(now)])[|ticks|].now == now;
      RunAccounts(l, ticks);
    }
    var k := CleanedIsSuffix(l, Run(l, ticks), now);
  }

  /** With a window duration or window number of zero, the counter never holds more than the
      last event. */
  lemma {:induction false} DegenerateCountsOne(l: Limits, ws: seq<Window>, now: nat)
    requires Cutoff(l) == 0
    ensures Cleaned(l, ws, now) == [] && Incremented(l, ws, now) == [Window(now, 1)]
  {
    hide Cutoff;
    NothingRetained(ws, now);
  }

  lemma {:induction false} NothingRetained(ws: seq<Window>, now: nat)
    ensures Retained(ws, now, 0) == []
  {
    if ws != [] {
      NothingRetained(ws[1..], now);
    }
  }
}
