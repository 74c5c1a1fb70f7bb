/** Lock-free interrupt statistics (examples/pio_irq_demo.rs): any number of concurrent
    `record_irq` calls, step by step, in every interleaving.

    Relaxed atomics: a load, or a compare-exchange that fails, may return any value the register
    has ever held; a compare-exchange that succeeds replaces the current value. A weak
    compare-exchange may fail for no reason. Counters are unbounded. */
module IrqStats {

  datatype Call = Call(latency: nat, filtered: bool)

  /** Where a call stands. In the loops it holds the value it last read. */
  datatype Pc = Start | Counted | Classified | Summed | MinLoop(min: nat) | MinDone | MaxLoop(max: nat) | Done

  datatype Counts = Counts(total: nat, valid: nat, filtered: nat, sum: nat)

  datatype State = State(
    counts: Counts,
    min: nat,
    max: nat,
    minSeen: set<nat>,
    maxSeen: set<nat>,
    pcs: seq<Pc>)

  /** Which call moves, what a read or a failing compare-exchange returns, and whether a
      compare-exchange fails. */
  datatype Choice = Choice(call: nat, read: nat, fails: bool)

  function Initial(calls: seq<Call>): State {
    State(Counts(0, 0, 0, 0), 0, 0, {0}, {0}, seq(|calls|, _ => Start))
  }

  /** The source's conditions for trying to replace a register. */
  predicate WantsMin(cur: nat, latency: nat) { cur == 0 || latency < cur }

  predicate WantsMax(cur: nat, latency: nat) { latency > cur }

  predicate Enabled(calls: seq<Call>, s: State, c: Choice) {
    && c.call < |calls| == |s.pcs|
    && match s.pcs[c.call]
       case Summed => c.read in s.minSeen
       case MinLoop(cur) =>
         WantsMin(cur, calls[c.call].latency) ==> if c.fails then c.read in s.minSeen else s.min == cur
       case MinDone => c.read in s.maxSeen
       case MaxLoop(cur) =>
         WantsMax(cur, calls[c.call].latency) ==> if c.fails then c.read in s.maxSeen else s.max == cur
       case Done => false
       case _ => true
  }

  function Moved(s: State, i: nat, pc: Pc): State
    requires i < |s.pcs|
  {
    s.(pcs := s.pcs[i := pc])
  }

  function Next(calls: seq<Call>, s: State, c: Choice): State
    requires Enabled(calls, s, c)
  {
    var i, latency := c.call, calls[c.call].latency;
    match s.pcs[i]
    case Start => Moved(s, i, Counted).(counts := s.counts.(total := s.counts.total + 1))
    case Counted =>
      Moved(s, i, Classified).(counts :=
        if calls[i].filtered then s.counts.(filtered := s.counts.filtered + 1)
        else s.counts.(valid := s.counts.valid + 1))
    case Classified => Moved(s, i, Summed).(counts := s.counts.(sum := s.counts.sum + latency))
    case Summed => Moved(s, i, MinLoop(c.read))
    case MinLoop(cur) =>
      if !WantsMin(cur, latency) then Moved(s, i, MinDone)
      else if c.fails then Moved(s, i, MinLoop(c.read))
      else Moved(s, i, MinDone).(min := latency, minSeen := s.minSeen + {latency})
    case MinDone => Moved(s, i, MaxLoop(c.read))
    case MaxLoop(cur) =>
      if !WantsMax(cur, latency) then Moved(s, i, Done)
      else if c.fails then Moved(s, i, MaxLoop(c.read))
      else Moved(s, i, Done).(max := latency, maxSeen := s.maxSeen + {latency})
  }

  // ---------------------------------------------------------------- runs

  predicate Legal(calls: seq<Call>, run: seq<Choice>)
    decreases |run|, 0
  {
    run == [] ||
    (&& Legal(calls, run[..|run| - 1])
     && Enabled(calls, After(calls, run[..|run| - 1]), run[|run| - 1]))
  }

  function After(calls: seq<Call>, run: seq<Choice>): State
    requires Legal(calls, run)
    decreases |run|, 1
  {
    if run == [] then Initial(calls)
    else Next(calls, After(calls, run[..|run| - 1]), run[|run| - 1])
  }

  predicate Complete(s: State) { forall i | 0 <= i < |s.pcs| :: s.pcs[i].Done? }

  // ---------------------------------------------------------------- counters

  /** What a call has contributed to the counters so far. */
  function Part(c: Call, pc: Pc): Counts {
    Counts(if pc.Start? then 0 else 1,
           if pc.Start? || pc.Counted? || c.filtered then 0 else 1,
           if pc.Start? || pc.Counted? || !c.filtered then 0 else 1,
           if pc.Start? || pc.Counted? || pc.Classified? then 0 else c.latency)
  }

  function Add(a: Counts, b: Counts): Counts {
    Counts(a.total + b.total, a.valid + b.valid, a.filtered + b.filtered, a.sum + b.sum)
  }

  function Parts(calls: seq<Call>, pcs: seq<Pc>): Counts
    requires |calls| == |pcs|
  {
    if calls == [] then Counts(0, 0, 0, 0) else Add(Part(calls[0], pcs[0]), Parts(calls[1..], pcs[1..]))
  }

  lemma {:induction false} PartsMoved(calls: seq<Call>, pcs: seq<Pc>, i: nat, pc: Pc)
    requires |calls| == |pcs| && i < |pcs|
    ensures Add(Parts(calls, pcs[i := pc]), Part(calls[i], pcs[i])) == Add(Parts(calls, pcs), Part(calls[i], pc))
  {
    hide Part;
    if i > 0 {
      PartsMoved(calls[1..], pcs[1..], i - 1, pc);
      assert pcs[i := pc][1..] == pcs[1..][i - 1 := pc];
    } else {
      assert pcs[i := pc][1..] == pcs[1..];
    }
  }

  lemma {:induction false} PartsAtStart(calls: seq<Call>, pcs: seq<Pc>)
    requires |calls| == |pcs| && forall i | 0 <= i < |pcs| :: pcs[i].Start?
    ensures Parts(calls, pcs) == Counts(0, 0, 0, 0)
  {
    if calls != [] {
      PartsAtStart(calls[1..], pcs[1..]);
    }
  }

  /** What all calls together should leave in the counters. */
  function Expected(calls: seq<Call>): Counts {
    if calls == [] then Counts(0, 0, 0, 0)
    else Add(Counts(1, if calls[0].filtered then 0 else 1, if calls[0].filtered then 1 else 0, calls[0].latency),
             Expected(calls[1..]))
  }

  lemma {:induction false} PartsAtEnd(calls: seq<Call>, pcs: seq<Pc>)
    requires |calls| == |pcs| && forall i | 0 <= i < |pcs| :: pcs[i].Done?
    ensures Parts(calls, pcs) == Expected(calls)
  {
    if calls != [] {
      PartsAtEnd(calls[1..], pcs[1..]);
    }
  }

  // ---------------------------------------------------------------- invariant

  predicate PastMin(pc: Pc) { pc.MinDone? || pc.MaxLoop? || pc.Done? }

  /** A value once read from the minimum register: unset, or not below the register now. */
  predicate OldMin(s: State, v: nat) { v == 0 || (s.min != 0 && s.min <= v) }

  predicate MinInv(calls: seq<Call>, s: State) {
    && |s.pcs| == |calls|
    && (s.min != 0 ==> exists i | 0 <= i < |calls| :: calls[i].latency == s.min)
    && s.min in s.minSeen
    && (forall v | v in s.minSeen :: OldMin(s, v))
    && (forall i | 0 <= i < |calls| && s.pcs[i].MinLoop? :: OldMin(s, s.pcs[i].min))
    && (forall i | 0 <= i < |calls| && PastMin(s.pcs[i]) :: s.min != 0 && s.min <= calls[i].latency)
  }

  predicate MaxInv(calls: seq<Call>, s: State) {
    && |s.pcs| == |calls|
    && (s.max != 0 ==> exists i | 0 <= i < |calls| :: calls[i].latency == s.max)
    && s.max in s.maxSeen
    && (forall v | v in s.maxSeen :: v <= s.max)
    && (forall i | 0 <= i < |calls| && s.pcs[i].MaxLoop? :: s.pcs[i].max <= s.max)
    && (forall i | 0 <= i < |calls| && s.pcs[i].Done? :: calls[i].latency <= s.max)
  }

  predicate CountInv(calls: seq<Call>, s: State) {
    |s.pcs| == |calls| && s.counts == Parts(calls, s.pcs)
  }

  predicate Positive(calls: seq<Call>) { forall i | 0 <= i < |calls| :: calls[i].latency > 0 }

  lemma {:induction false} NextKeepsMin(calls: seq<Call>, s: State, c: Choice)
    requires Enabled(calls, s, c) && Positive(calls) && MinInv(calls, s)
    ensures MinInv(calls, Next(calls, s, c))
    ensures s.min != 0 ==> 0 < Next(calls, s, c).min <= s.min
  {
  }

  lemma {:induction false} NextKeepsMax(calls: seq<Call>, s: State, c: Choice)
    requires Enabled(calls, s, c) && MaxInv(calls, s)
    ensures MaxInv(calls, Next(calls, s, c))
    ensures s.max <= Next(calls, s, c).max
  {
  }

  lemma {:induction false} NextKeepsCounts(calls: seq<Call>, s: State, c: Choice)
    requires Enabled(calls, s, c) && CountInv(calls, s)
    ensures CountInv(calls, Next(calls, s, c))
  {
    hide Parts;
    var t := Next(calls, s, c);
    PartsMoved(calls, s.pcs, c.call, t.pcs[c.call]);
    assert t.pcs == s.pcs[c.call := t.pcs[c.call]];
  }

  lemma {:induction false} RunKeepsMin(calls: seq<Call>, run: seq<Choice>)
    requires Legal(calls, run) && Positive(calls)
    ensures MinInv(calls, After(calls, run))
    decreases |run|
  {
    hide Next, Enabled;
    if run != [] {
      RunKeepsMin(calls, run[..|run| - 1]);
      NextKeepsMin(calls, After(calls, run[..|run| - 1]), run[|run| - 1]);
    }
  }

  lemma {:induction false} RunKeepsMax(calls: seq<Call>, run: seq<Choice>)
    requires Legal(calls, run)
    ensures MaxInv(calls, After(calls, run))
    decreases |run|
  {
    hide Next, Enabled;
    if run != [] {
      RunKeepsMax(calls, run[..|run| - 1]);
      NextKeepsMax(calls, After(calls, run[..|run| - 1]), run[|run| - 1]);
    }
  }

  lemma {:induction false} RunKeepsCounts(calls: seq<Call>, run: seq<Choice>)
    requires Legal(calls, run)
    ensures CountInv(calls, After(calls, run))
    decreases |run|
  {
    hide Next, Enabled;
    if run == [] {
      PartsAtStart(calls, Initial(calls).pcs);
    } else {
      RunKeepsCounts(calls, run[..|run| - 1]);
      NextKeepsCounts(calls, After(calls, run[..|run| - 1]), run[|run| - 1]);
    }
  }

  // ---------------------------------------------------------------- results

  predicate IsMinimum(calls: seq<Call>, m: nat) {
    && (exists i | 0 <= i < |calls| :: calls[i].latency == m)
    && forall i | 0 <= i < |calls| :: m <= calls[i].latency
  }

  predicate IsMaximum(calls: seq<Call>, m: nat) {
    && (exists i | 0 <= i < |calls| :: calls[i].latency == m)
    && forall i | 0 <= i < |calls| :: calls[i].latency <= m
  }

  /** With positive latencies the minimum register never goes up once it is set, from any point
      of a run to any later one. */
  lemma {:induction false} MinNeverIncreases(calls: seq<Call>, run: seq<Choice>, i: nat)
    requires Legal(calls, run) && Positive(calls) && i <= |run|
    ensures Legal(calls, run[..i])
    ensures After(calls, run[..i]).min != 0 ==> 0 < After(calls, run).min <= After(calls, run[..i]).min
    decreases |run|
  {
    hide Next, Enabled;
    if i < |run| {
      var before := run[..|run| - 1];
      assert run[..i] == before[..i];
      MinNeverIncreases(calls, before, i);
      RunKeepsMin(calls, before);
      NextKeepsMin(calls, After(calls, before), run[|run| - 1]);
    } else {
      assert run[..i] == run;
    }
  }

  /** When all calls have finished: with positive latencies the minimum register holds their
      minimum; the maximum register holds the maximum and the counters their sums, for any
      latencies. */
  lemma {:induction false} FinalValues(calls: seq<Call>, run: seq<Choice>)
    requires Legal(calls, run) && Complete(After(calls, run))
    ensures After(calls, run).counts == Expected(calls)
    ensures After(calls, run).counts.total == |calls|
    ensures After(calls, run).counts.total == After(calls, run).counts.valid + After(calls, run).counts.filtered
    ensures calls != [] ==> IsMaximum(calls, After(calls, run).max)
    ensures calls != [] && Positive(calls) ==> IsMinimum(calls, After(calls, run).min)
  {
    hide Next, Enabled, Legal, After, MinInv, MaxInv, IsMinimum, IsMaximum, Parts, Expected;
    var s := After(calls, run);
    RunKeepsCounts(calls, run);
    PartsAtEnd(calls, s.pcs);
    ExpectedAddsUp(calls);
    if calls != [] {
      RunKeepsMax(calls, run);
      CompleteMax(calls, s);
      if Positive(calls) {
        RunKeepsMin(calls, run);
        CompleteMin(calls, s);
      }
    }
  }

  lemma {:induction false} CompleteMax(calls: seq<Call>, s: State)
    requires MaxInv(calls, s) && Complete(s) && calls != []
    ensures IsMaximum(calls, s.max)
  {
    assert s.pcs[0].Done?;
    if s.max == 0 {
      assert calls[0].latency == 0;
    }
  }

  lemma {:induction false} CompleteMin(calls: seq<Call>, s: State)
    requires MinInv(calls, s) && Complete(s) && calls != []
    ensures IsMinimum(calls, s.min)
  {
    assert s.pcs[0].Done?;
  }

  lemma {:induction false} ExpectedAddsUp(calls: seq<Call>)
    ensures Expected(calls).total == |calls| == Expected(calls).valid + Expected(calls).filtered
  {
    if calls != [] {
      ExpectedAddsUp(calls[1..]);
    }
  }

  // ---------------------------------------------------------------- zero latencies

  /** One call, run alone from where it has not begun, without failures. */
  lemma {:induction false} Solo(calls: seq<Call>, run: seq<Choice>, i: nat) returns (longer: seq<Choice>)
    requires Legal(calls, run) && i < |calls|
    requires |After(calls, run).pcs| == |calls| && After(calls, run).pcs[i].Start?
    requires After(calls, run).min in After(calls, run).minSeen && After(calls, run).max in After(calls, run).maxSeen
    ensures Legal(calls, longer)
    ensures var s, t := After(calls, run), After(calls, longer);
            && t.pcs == s.pcs[i := Done]
            && t.min == (if WantsMin(s.min, calls[i].latency) then calls[i].latency else s.min)
            && t.min in t.minSeen && t.max in t.maxSeen
  {
    hide Legal, After;
    var s := After(calls, run);
    var c := Choice(i, 0, false);
    var r1 := Extended(calls, run, c);
    var r2 := Extended(calls, r1, c);
    var r3 := Extended(calls, r2, c);
    var r4 := Extended(calls, r3, Choice(i, s.min, false));
    var r5 := Extended(calls, r4, c);
    var r6 := Extended(calls, r5, Choice(i, s.max, false));
    longer := Extended(calls, r6, c);
  }

  lemma {:induction false} Extended(calls: seq<Call>, run: seq<Choice>, c: Choice) returns (longer: seq<Choice>)
    requires Legal(calls, run) && Enabled(calls, After(calls, run), c)
    ensures Legal(calls, longer) && After(calls, longer) == Next(calls, After(calls, run), c)
  {
    hide Next, Enabled;
    longer := run + [c];
    assert longer[..|run|] == run;
  }

  /** The calls of zero latency among the first `k`, one after the other, and then the other
      calls among the first `m`. */
  lemma {:induction false} ZerosFirst(calls: seq<Call>, k: nat, m: nat) returns (run: seq<Choice>)
    requires k <= |calls| && m <= |calls| && (m > 0 ==> k == |calls|)
    ensures Legal(calls, run)
    ensures var s := After(calls, run);
            && |s.pcs| == |calls| && s.min in s.minSeen && s.max in s.maxSeen
            && (forall i | 0 <= i < |calls| ::
                  s.pcs[i] == if (calls[i].latency == 0 && i < k) || (calls[i].latency > 0 && i < m)
                              then Done else Start)
            && (s.min != 0 <==> exists i | 0 <= i < m :: calls[i].latency > 0)
    decreases k + m
  {
    hide Legal, After;
    if m > 0 {
      run := ZerosFirst(calls, k, m - 1);
      if calls[m - 1].latency > 0 {
        run := Solo(calls, run, m - 1);
      }
    } else if k > 0 {
      run := ZerosFirst(calls, k - 1, 0);
      if calls[k - 1].latency == 0 {
        run := Solo(calls, run, k - 1);
      }
    } else {
      run := [];
      NothingRun(calls);
    }
  }

  lemma {:induction false} NothingRun(calls: seq<Call>)
    ensures Legal(calls, []) && After(calls, []) == Initial(calls)
  {
  }

  predicate AllZero(calls: seq<Call>) { forall i | 0 <= i < |calls| :: calls[i].latency == 0 }

  lemma {:induction false} ZeroStaysZero(calls: seq<Call>, run: seq<Choice>)
    requires Legal(calls, run) && AllZero(calls)
    ensures After(calls, run).min == 0
    decreases |run|
  {
    if run != [] {
      ZeroStaysZero(calls, run[..|run| - 1]);
    }
  }

  /** Zero stands for an unset minimum. So the minimum register is right at the end of every run
      exactly when no latency is zero or all of them are. */
  lemma {:induction false} MinimumIsRightIff(calls: seq<Call>)
    requires calls != []
    ensures (forall run: seq<Choice> | Legal(calls, run) && Complete(After(calls, run)) ::
               IsMinimum(calls, After(calls, run).min))
            <==> Positive(calls) || AllZero(calls)
  {
    hide Legal, After;
    if Positive(calls) || AllZero(calls) {
      forall run: seq<Choice> | Legal(calls, run) && Complete(After(calls, run))
        ensures IsMinimum(calls, After(calls, run).min)
      {
        if Positive(calls) {
          FinalValues(calls, run);
        } else {
          ZeroStaysZero(calls, run);
          assert calls[0].latency == 0;
        }
      }
    } else {
      var run := ZerosFirst(calls, |calls|, |calls|);
      assert Complete(After(calls, run));
      assert !IsMinimum(calls, After(calls, run).min);
    }
  }

  /** A call of latency zero followed by one of latency five leaves five. */
  lemma {:induction false} ZeroIsForgotten() returns (run: seq<Choice>)
    ensures var calls := [Call(0, false), Call(5, false)];
            && Legal(calls, run) && Complete(After(calls, run))
            && After(calls, run).min == 5
  {
    hide Legal, After;
    var calls := [Call(0, false), Call(5, false)];
    NothingRun(calls);
    run := Solo(calls, [], 0);
    run := Solo(calls, run, 1);
  }
}
