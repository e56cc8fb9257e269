/** The fixed-interval loop of `schedule_drifter`: wait, run the work once,
    measure how long it took, and subtract that from the interval to get the
    next wait, until the cancellation wins the race against the timer.

    The loop itself never ends on its own. The model drives it with a finite
    sequence of `Tick`s, one per pass, and stops with `OutOfTicks` when they
    run out, so every trace is a prefix of the real, endless run. */
module Interval {
  import opened Timing

  /** One execution of the work: when it started, how long it ran, whether
      it failed, and the wait the loop computed after it. */
  datatype Run = Run(start: nat, elapsed: nat, ok: bool, nextWait: nat)

  datatype IntervalStop = Cancelled | OutOfTicks

  datatype IntervalTrace = IntervalTrace(runs: seq<Run>, stop: IntervalStop)

  /** The trace of the loop entered at time `now` with the pending wait
      `wait`, as a recursive definition: one pass per tick. */
  function IntervalFrom(interval: nat, ticks: seq<Tick>, cancelAt: nat, now: nat, wait: nat): (t: IntervalTrace)
    ensures |t.runs| <= |ticks|
    ensures t.stop == OutOfTicks <==> |t.runs| == |ticks|
    decreases |ticks|
  {
    if ticks == [] then IntervalTrace([], OutOfTicks)
    else
      var wake := now + wait;
      if CancelWins(now, wake, cancelAt, ticks[0].cancelOnTie) then IntervalTrace([], Cancelled)
      else
        var run := Run(wake, ticks[0].elapsed, ticks[0].ok, SaturatingSub(interval, ticks[0].elapsed));
        var rest := IntervalFrom(interval, ticks[1..], cancelAt, wake + run.elapsed, run.nextWait);
        IntervalTrace([run] + rest.runs, rest.stop)
  }

  /** The trace of a whole schedule started at `t0`: the first wait is zero. */
  function Schedule(interval: nat, ticks: seq<Tick>, cancelAt: nat, t0: nat): IntervalTrace
  {
    IntervalFrom(interval, ticks, cancelAt, t0, 0)
  }

  function Prepend(runs: seq<Run>, t: IntervalTrace): IntervalTrace
  {
    IntervalTrace(runs + t.runs, t.stop)
  }

  /** The time at which the k-th wait begins: the start of the loop, or the
      end of the previous execution. */
  function NowBefore(t: IntervalTrace, now: nat, k: nat): nat
    requires k <= |t.runs|
  {
    if k == 0 then now else t.runs[k - 1].start + t.runs[k - 1].elapsed
  }

  /** The wait the k-th pass sleeps for. */
  function WaitBefore(t: IntervalTrace, wait: nat, k: nat): nat
    requires k <= |t.runs|
  {
    if k == 0 then wait else t.runs[k - 1].nextWait
  }

  /** The loop as the source writes it: `wait` starts at zero, each pass
      races the cancellation against `sleep(wait)`, and both the failure
      path and the success path set `wait = interval.saturating_sub(elapsed)`
      before going round again. */
  method ScheduleDrifter(interval: nat, ticks: seq<Tick>, cancelAt: nat, t0: nat) returns (trace: IntervalTrace)
    ensures trace == Schedule(interval, ticks, cancelAt, t0)
  {
    var wait: nat := 0;
    var now: nat := t0;
    var runs: seq<Run> := [];
    var i := 0;
    while i < |ticks|
      invariant i <= |ticks|
      invariant Schedule(interval, ticks, cancelAt, t0) == Prepend(runs, IntervalFrom(interval, ticks[i..], cancelAt, now, wait))
      decreases |ticks| - i
    {
      var wake := now + wait;
      if CancelWins(now, wake, cancelAt, ticks[i].cancelOnTie) {
        Unfold(interval, ticks[i..], cancelAt, now, wait);
        return IntervalTrace(runs, Cancelled);
      }
      StepRuns(interval, ticks, cancelAt, t0, runs, i, now, wait);
      var start := wake;
      var tick := ticks[i];
      i := i + 1;
      if !tick.ok {
        var elapsed := tick.elapsed;
        wait := SaturatingSub(interval, elapsed);
        now := start + elapsed;
        runs := runs + [Run(start, elapsed, false, wait)];
        continue;
      }
      var elapsed := tick.elapsed;
      wait := SaturatingSub(interval, elapsed);
      now := start + elapsed;
      runs := runs + [Run(start, elapsed, true, wait)];
    }
    trace := IntervalTrace(runs, OutOfTicks);
  }

  /** One pass of the loop, unfolded. */
  lemma Unfold(interval: nat, ticks: seq<Tick>, cancelAt: nat, now: nat, wait: nat)
    requires ticks != []
    ensures var t := IntervalFrom(interval, ticks, cancelAt, now, wait);
            var e := ticks[0].elapsed;
            if CancelWins(now, now + wait, cancelAt, ticks[0].cancelOnTie) then t == IntervalTrace([], Cancelled)
            else t == Prepend([Run(now + wait, e, ticks[0].ok, SaturatingSub(interval, e))],
                              IntervalFrom(interval, ticks[1..], cancelAt, now + wait + e, SaturatingSub(interval, e)))
  {
  }

  /** A pass whose timer wins appends one execution to the trace so far. */
  lemma StepRuns(interval: nat, ticks: seq<Tick>, cancelAt: nat, t0: nat, runs: seq<Run>, i: nat, now: nat, wait: nat)
    requires i < |ticks|
    requires Schedule(interval, ticks, cancelAt, t0) == Prepend(runs, IntervalFrom(interval, ticks[i..], cancelAt, now, wait))
    requires !CancelWins(now, now + wait, cancelAt, ticks[i].cancelOnTie)
    ensures var e := ticks[i].elapsed;
            Schedule(interval, ticks, cancelAt, t0)
            == Prepend(runs + [Run(now + wait, e, ticks[i].ok, SaturatingSub(interval, e))],
                       IntervalFrom(interval, ticks[i + 1..], cancelAt, now + wait + e, SaturatingSub(interval, e)))
  {
    Unfold(interval, ticks[i..], cancelAt, now, wait);
    assert ticks[i..][1..] == ticks[i + 1..];
  }

  /** What the k-th execution is: the k-th tick's duration and outcome, the
      wait recomputed from its duration alone (the same on failure as on
      success), a start that is the end of the previous execution plus the
      wait computed after it, and a timer that won its race. */
  lemma {:induction false} RunAt(interval: nat, ticks: seq<Tick>, cancelAt: nat, now: nat, wait: nat, k: nat)
    requires k < |IntervalFrom(interval, ticks, cancelAt, now, wait).runs|
    ensures var t := IntervalFrom(interval, ticks, cancelAt, now, wait);
            var r := t.runs[k];
            r.elapsed == ticks[k].elapsed && r.ok == ticks[k].ok
            && r.nextWait == SaturatingSub(interval, ticks[k].elapsed)
            && r.start == NowBefore(t, now, k) + WaitBefore(t, wait, k)
            && !CancelWins(NowBefore(t, now, k), r.start, cancelAt, ticks[k].cancelOnTie)
  {
    var t := IntervalFrom(interval, ticks, cancelAt, now, wait);
    if k > 0 {
      var e := ticks[0].elapsed;
      var now', wait' := now + wait + e, SaturatingSub(interval, e);
      var t' := IntervalFrom(interval, ticks[1..], cancelAt, now', wait');
      assert t.runs == [t.runs[0]] + t'.runs;
      RunAt(interval, ticks[1..], cancelAt, now', wait', k - 1);
      assert t.runs[k] == t'.runs[k - 1];
      assert NowBefore(t, now, k) == NowBefore(t', now', k - 1);
      assert WaitBefore(t, wait, k) == WaitBefore(t', wait', k - 1);
    }
  }

  /** Why the loop stopped: either every tick was used, or the next pass
      had a tick and the cancellation won the race of that pass. */
  lemma {:induction false} StopAt(interval: nat, ticks: seq<Tick>, cancelAt: nat, now: nat, wait: nat)
    ensures var t := IntervalFrom(interval, ticks, cancelAt, now, wait);
            var m := |t.runs|;
            t.stop == Cancelled ==>
              m < |ticks|
              && CancelWins(NowBefore(t, now, m), NowBefore(t, now, m) + WaitBefore(t, wait, m), cancelAt, ticks[m].cancelOnTie)
    decreases |ticks|
  {
    var t := IntervalFrom(interval, ticks, cancelAt, now, wait);
    if ticks != [] && !CancelWins(now, now + wait, cancelAt, ticks[0].cancelOnTie) {
      var e := ticks[0].elapsed;
      var now', wait' := now + wait + e, SaturatingSub(interval, e);
      var t' := IntervalFrom(interval, ticks[1..], cancelAt, now', wait');
      StopAt(interval, ticks[1..], cancelAt, now', wait');
      var m := |t.runs|;
      assert t.runs == [t.runs[0]] + t'.runs;
      if t.stop == Cancelled {
        assert ticks[m] == ticks[1..][m - 1];
        assert NowBefore(t, now, m) == NowBefore(t', now', m - 1);
        assert WaitBefore(t, wait, m) == WaitBefore(t', wait', m - 1);
      }
    }
  }

  /** Drift compensation: ignoring the scheduler's own overhead, each start
      is the previous start plus the larger of the interval and the previous
      execution time. Starts are never closer than one interval, and an
      execution always ends before the next one starts, so missed ticks are
      never fired back to back to catch up. */
  lemma StartSpacing(interval: nat, ticks: seq<Tick>, cancelAt: nat, now: nat, wait: nat, k: nat)
    requires k + 1 < |IntervalFrom(interval, ticks, cancelAt, now, wait).runs|
    ensures var runs := IntervalFrom(interval, ticks, cancelAt, now, wait).runs;
            runs[k + 1].start == runs[k].start + Max(interval, runs[k].elapsed)
            && runs[k + 1].start >= runs[k].start + interval
            && runs[k + 1].start >= runs[k].start + runs[k].elapsed
  {
    RunAt(interval, ticks, cancelAt, now, wait, k);
    RunAt(interval, ticks, cancelAt, now, wait, k + 1);
  }

  /** When none of the first k executions outlasts the interval, the k-th start is exactly k
      intervals after the first: execution latency does not accumulate. */
  lemma {:induction false} NoDrift(interval: nat, ticks: seq<Tick>, cancelAt: nat, now: nat, wait: nat, k: nat)
    requires forall j :: 0 <= j < k && j < |ticks| ==> ticks[j].elapsed <= interval
    requires k < |IntervalFrom(interval, ticks, cancelAt, now, wait).runs|
    ensures IntervalFrom(interval, ticks, cancelAt, now, wait).runs[k].start == now + wait + k * interval
  {
    var t := IntervalFrom(interval, ticks, cancelAt, now, wait);
    if k == 0 {
      RunAt(interval, ticks, cancelAt, now, wait, 0);
    } else {
      NoDrift(interval, ticks, cancelAt, now, wait, k - 1);
      StartSpacing(interval, ticks, cancelAt, now, wait, k - 1);
      RunAt(interval, ticks, cancelAt, now, wait, k - 1);
      assert t.runs[k].start == now + wait + (k - 1) * interval + interval;
    }
  }

  /** A schedule's first execution starts at once, because the first wait
      is zero, unless the cancellation came first. */
  lemma FirstTickImmediate(interval: nat, ticks: seq<Tick>, cancelAt: nat, t0: nat)
    requires |Schedule(interval, ticks, cancelAt, t0).runs| > 0
    ensures Schedule(interval, ticks, cancelAt, t0).runs[0].start == t0
  {
    RunAt(interval, ticks, cancelAt, t0, 0, 0);
  }

  /** What cancellation guarantees at the wait point. An execution can start
      at or after the cancellation only when the race was a tie that the
      timer won, and strictly after it only when the wait was zero as well.
      On this model's clock a zero wait is ready at once, so a cancellation
      requested while an execution overran the interval leaves both branches
      ready, and the tie bit may still let the work run once more. When the
      loop stopped on cancellation, the cancellation had come no later
      than the timer. */
  lemma {:induction false} CancelObserved(interval: nat, ticks: seq<Tick>, cancelAt: nat, now: nat, wait: nat)
    ensures var t := IntervalFrom(interval, ticks, cancelAt, now, wait);
            forall k :: 0 <= k < |t.runs| ==>
              (cancelAt <= t.runs[k].start ==> !ticks[k].cancelOnTie)
              && (cancelAt < t.runs[k].start ==> WaitBefore(t, wait, k) == 0)
    ensures var t := IntervalFrom(interval, ticks, cancelAt, now, wait);
            t.stop == Cancelled ==>
              cancelAt <= NowBefore(t, now, |t.runs|) + WaitBefore(t, wait, |t.runs|)
  {
    var t := IntervalFrom(interval, ticks, cancelAt, now, wait);
    forall k | 0 <= k < |t.runs|
      ensures (cancelAt <= t.runs[k].start ==> !ticks[k].cancelOnTie)
              && (cancelAt < t.runs[k].start ==> WaitBefore(t, wait, k) == 0)
    {
      RunAt(interval, ticks, cancelAt, now, wait, k);
    }
    StopAt(interval, ticks, cancelAt, now, wait);
  }

  /** A cancellation that arrives strictly before a pending timer fires is
      always observed: if the k-th pass is reached with a non-zero wait and
      the cancellation comes before its wake time, the k-th execution never
      starts and the loop stops there. */
  lemma CancelBeforeWakeStops(interval: nat, ticks: seq<Tick>, cancelAt: nat, now: nat, wait: nat, k: nat)
    requires k < |ticks|
    requires k <= |IntervalFrom(interval, ticks, cancelAt, now, wait).runs|
    requires var t := IntervalFrom(interval, ticks, cancelAt, now, wait);
             WaitBefore(t, wait, k) > 0 && cancelAt < NowBefore(t, now, k) + WaitBefore(t, wait, k)
    ensures var t := IntervalFrom(interval, ticks, cancelAt, now, wait);
            |t.runs| == k && t.stop == Cancelled
  {
    var t := IntervalFrom(interval, ticks, cancelAt, now, wait);
    if k < |t.runs| {
      RunAt(interval, ticks, cancelAt, now, wait, k);
      assert false;
    }
  }

  /** If `select!` always preferred the cancellation on a tie, no execution
      would ever start at or after the cancellation. */
  lemma {:induction false} BiasedSelectNeverRunsLate(interval: nat, ticks: seq<Tick>, cancelAt: nat, now: nat, wait: nat)
    requires forall j :: 0 <= j < |ticks| ==> ticks[j].cancelOnTie
    ensures forall r :: r in IntervalFrom(interval, ticks, cancelAt, now, wait).runs ==> r.start < cancelAt
  {
    var runs := IntervalFrom(interval, ticks, cancelAt, now, wait).runs;
    CancelObserved(interval, ticks, cancelAt, now, wait);
    forall r | r in runs ensures r.start < cancelAt {
      var k :| 0 <= k < |runs| && runs[k] == r;
    }
  }

  /** A failed execution is not fatal: the outcomes of the work change
      nothing about when the loop runs it, what it waits or why it stops.
      There is no path that cancels the token on error. */
  lemma {:induction false} FailureIsNotFatal(interval: nat, ticks: seq<Tick>, other: seq<Tick>, cancelAt: nat, now: nat, wait: nat)
    requires |other| == |ticks|
    requires forall j :: 0 <= j < |ticks| ==>
               other[j].cancelOnTie == ticks[j].cancelOnTie && other[j].elapsed == ticks[j].elapsed
    ensures var t, u := IntervalFrom(interval, ticks, cancelAt, now, wait), IntervalFrom(interval, other, cancelAt, now, wait);
            t.stop == u.stop && |t.runs| == |u.runs|
            && forall k :: 0 <= k < |t.runs| ==>
                 t.runs[k].start == u.runs[k].start && t.runs[k].nextWait == u.runs[k].nextWait
    decreases |ticks|
  {
    if ticks != [] {
      var e := ticks[0].elapsed;
      FailureIsNotFatal(interval, ticks[1..], other[1..], cancelAt, now + wait + e, SaturatingSub(interval, e));
    }
  }

  /** With a 50 ms interval, executions that each finish within it, and a
      cancellation at 75 ms, the work runs exactly twice, at 0 and at 50 ms,
      and the loop stops on the third wait. */
  lemma CancelAt75RunsTwice(ticks: seq<Tick>)
    requires |ticks| >= 3
    requires ticks[0].elapsed <= 50 && ticks[1].elapsed < 50
    ensures var t := Schedule(50, ticks, 75, 0);
            |t.runs| == 2 && t.runs[0].start == 0 && t.runs[1].start == 50 && t.stop == Cancelled
  {
    var e0, e1 := ticks[0].elapsed, ticks[1].elapsed;
    var t2 := IntervalFrom(50, ticks[2..], 75, 50 + e1, 50 - e1);
    assert t2 == IntervalTrace([], Cancelled);
    var t1 := IntervalFrom(50, ticks[1..], 75, e0, 50 - e0);
    assert ticks[1..][1..] == ticks[2..];
    assert t1.runs == [Run(50, e1, ticks[1].ok, 50 - e1)];
  }

  /** The tie in practice: an execution of 60 ms against a 50 ms interval,
      with the cancellation requested at 30 ms while it runs. The next wait
      is zero, both branches are ready at 60 ms, and when the timer wins the
      work starts again after the cancellation. */
  lemma RunAfterCancelOnTie()
    ensures var t := Schedule(50, [Tick(true, 60, true), Tick(false, 0, true), Tick(true, 0, true)], 30, 0);
            |t.runs| == 2 && t.runs[1].start == 60 && t.stop == Cancelled
  {
    var ticks := [Tick(true, 60, true), Tick(false, 0, true), Tick(true, 0, true)];
    assert ticks[1..] == [Tick(false, 0, true), Tick(true, 0, true)];
    assert ticks[1..][1..] == [Tick(true, 0, true)];
  }
}
