/** The cron loop of `schedule_drifter_cron`: walk the upcoming fire
    instants in order, skip every instant that is not strictly in the
    future when it is examined, otherwise sleep until it (racing the
    cancellation) and run the work once, whatever its outcome.

    The cron expression's parser and its `upcoming` iterator are not part of
    this model: the loop takes their output, a sequence of instants on the
    abstract clock, and one `Tick` per instant for the outside world. */
module Cron {
  import opened Timing

  /** What became of one upcoming instant, examined at `seenAt`: skipped,
      or run from `start` for `elapsed` with the given outcome. */
  datatype Fate =
    | Skipped(seenAt: nat)
    | Ran(seenAt: nat, start: nat, elapsed: nat, ok: bool)

  datatype CronStop = Cancelled | Exhausted

  datatype CronTrace = CronTrace(fates: seq<Fate>, stop: CronStop)

  /** The output of parsing the cron expression: an error, or its sequence
      of upcoming instants. */
  datatype Parsed = Malformed | Upcoming(instants: seq<nat>)

  datatype Started = ParseError | Running(trace: CronTrace)

  /** The clock once an instant has been dealt with. */
  function ClockAfter(f: Fate): nat
  {
    match f
    case Skipped(seenAt) => seenAt
    case Ran(_, start, elapsed, _) => start + elapsed
  }

  /** The trace of the loop entered at time `now`, one instant at a time. */
  function CronFrom(upcoming: seq<nat>, env: seq<Tick>, cancelAt: nat, now: nat): (t: CronTrace)
    requires |env| == |upcoming|
    ensures |t.fates| <= |upcoming|
    ensures t.stop == Exhausted <==> |t.fates| == |upcoming|
    decreases |upcoming|
  {
    if upcoming == [] then CronTrace([], Exhausted)
    else
      var datetime := upcoming[0];
      if datetime - now <= 0 then
        var rest := CronFrom(upcoming[1..], env[1..], cancelAt, now);
        CronTrace([Skipped(now)] + rest.fates, rest.stop)
      else if CancelWins(now, datetime, cancelAt, env[0].cancelOnTie) then
        CronTrace([], Cancelled)
      else
        var fate := Ran(now, datetime, env[0].elapsed, env[0].ok);
        var rest := CronFrom(upcoming[1..], env[1..], cancelAt, ClockAfter(fate));
        CronTrace([fate] + rest.fates, rest.stop)
  }

  function PrependFates(fates: seq<Fate>, t: CronTrace): CronTrace
  {
    CronTrace(fates + t.fates, t.stop)
  }

  /** The time at which the k-th instant is examined. */
  function SeenBefore(t: CronTrace, now: nat, k: nat): nat
    requires k <= |t.fates|
  {
    if k == 0 then now else ClockAfter(t.fates[k - 1])
  }

  /** The spawned loop as the source writes it: `for datetime in upcoming`,
      `continue` on an instant that is not in the future, otherwise race the
      cancellation against the sleep and, when the timer wins, run the work;
      a failure is logged and the loop goes on to the next instant. */
  method RunCron(upcoming: seq<nat>, env: seq<Tick>, cancelAt: nat, t0: nat) returns (trace: CronTrace)
    requires |env| == |upcoming|
    ensures trace == CronFrom(upcoming, env, cancelAt, t0)
  {
    var now: nat := t0;
    var fates: seq<Fate> := [];
    var i := 0;
    while i < |upcoming|
      invariant i <= |upcoming|
      invariant CronFrom(upcoming, env, cancelAt, t0) == PrependFates(fates, CronFrom(upcoming[i..], env[i..], cancelAt, now))
      decreases |upcoming| - i
    {
      assert upcoming[i..][0] == upcoming[i] && upcoming[i..][1..] == upcoming[i + 1..];
      assert env[i..][0] == env[i] && env[i..][1..] == env[i + 1..];
      var datetime := upcoming[i];
      var tick := env[i];
      i := i + 1;
      var diff: int := datetime - now;
      if diff <= 0 {
        fates := fates + [Skipped(now)];
        continue;
      }
      if CancelWins(now, datetime, cancelAt, tick.cancelOnTie) {
        return CronTrace(fates, Cancelled);
      }
      var seenAt := now;
      var start := datetime;
      now := start + tick.elapsed;
      fates := fates + [Ran(seenAt, start, tick.elapsed, tick.ok)];
    }
    trace := CronTrace(fates, Exhausted);
  }

  /** `schedule_drifter_cron`: a malformed expression is reported before
      any loop starts; otherwise the loop runs over its upcoming instants. */
  method ScheduleDrifterCron(parsed: Parsed, env: seq<Tick>, cancelAt: nat, t0: nat) returns (r: Started)
    requires parsed.Upcoming? ==> |env| == |parsed.instants|
    ensures r.ParseError? <==> parsed.Malformed?
    ensures parsed.Upcoming? ==> r == Running(CronFrom(parsed.instants, env, cancelAt, t0))
  {
    if parsed.Malformed? {
      return ParseError;
    }
    var trace := RunCron(parsed.instants, env, cancelAt, t0);
    r := Running(trace);
  }

  /** What became of the k-th instant: it was examined when the previous
      one was done with; it was skipped exactly when it was not strictly in
      the future then; and when it ran, it ran at its own instant, with its
      tick's duration and outcome, after the timer won the race. */
  lemma {:induction false} FateAt(upcoming: seq<nat>, env: seq<Tick>, cancelAt: nat, now: nat, k: nat)
    requires |env| == |upcoming|
    requires k < |CronFrom(upcoming, env, cancelAt, now).fates|
    ensures var t := CronFrom(upcoming, env, cancelAt, now);
            var f := t.fates[k];
            f.seenAt == SeenBefore(t, now, k)
            && (f.Skipped? <==> upcoming[k] <= f.seenAt)
            && (f.Ran? ==>
                  f.start == upcoming[k] && f.elapsed == env[k].elapsed && f.ok == env[k].ok
                  && !CancelWins(f.seenAt, f.start, cancelAt, env[k].cancelOnTie))
  {
    var t := CronFrom(upcoming, env, cancelAt, now);
    if k > 0 {
      var now' := ClockAfter(t.fates[0]);
      var t' := CronFrom(upcoming[1..], env[1..], cancelAt, now');
      assert t.fates == [t.fates[0]] + t'.fates;
      FateAt(upcoming[1..], env[1..], cancelAt, now', k - 1);
      assert t.fates[k] == t'.fates[k - 1];
      assert SeenBefore(t, now, k) == SeenBefore(t', now', k - 1);
    }
  }

  /** Why the loop stopped: the instants ran out, or the next instant was in
      the future and the cancellation won the race of its sleep. */
  lemma {:induction false} StopAt(upcoming: seq<nat>, env: seq<Tick>, cancelAt: nat, now: nat)
    requires |env| == |upcoming|
    ensures var t := CronFrom(upcoming, env, cancelAt, now);
            var m := |t.fates|;
            t.stop == Cancelled ==>
              m < |upcoming| && SeenBefore(t, now, m) < upcoming[m]
              && CancelWins(SeenBefore(t, now, m), upcoming[m], cancelAt, env[m].cancelOnTie)
    decreases |upcoming|
  {
    var t := CronFrom(upcoming, env, cancelAt, now);
    if upcoming != [] && t.fates != [] {
      var now' := ClockAfter(t.fates[0]);
      var t' := CronFrom(upcoming[1..], env[1..], cancelAt, now');
      assert t.fates == [t.fates[0]] + t'.fates;
      StopAt(upcoming[1..], env[1..], cancelAt, now');
      var m := |t.fates|;
      if t.stop == Cancelled {
        assert upcoming[m] == upcoming[1..][m - 1] && env[m] == env[1..][m - 1];
        assert SeenBefore(t, now, m) == SeenBefore(t', now', m - 1);
      }
    }
  }

  /** The clock never runs backwards: whatever an earlier instant left on
      the clock is at most the time a later instant is examined. */
  lemma {:induction false} ClockMonotone(upcoming: seq<nat>, env: seq<Tick>, cancelAt: nat, now: nat, j: nat, k: nat)
    requires |env| == |upcoming|
    requires j < k < |CronFrom(upcoming, env, cancelAt, now).fates|
    ensures var t := CronFrom(upcoming, env, cancelAt, now);
            ClockAfter(t.fates[j]) <= t.fates[k].seenAt
    decreases k
  {
    FateAt(upcoming, env, cancelAt, now, k);
    if j < k - 1 {
      ClockMonotone(upcoming, env, cancelAt, now, j, k - 1);
      FateAt(upcoming, env, cancelAt, now, k - 1);
    }
  }

  /** At most one execution is in flight: every execution ends strictly
      before any later one starts, so executions never overlap and their
      start times strictly increase. */
  lemma Serialized(upcoming: seq<nat>, env: seq<Tick>, cancelAt: nat, now: nat, j: nat, k: nat)
    requires |env| == |upcoming|
    requires j < k < |CronFrom(upcoming, env, cancelAt, now).fates|
    requires CronFrom(upcoming, env, cancelAt, now).fates[j].Ran?
    requires CronFrom(upcoming, env, cancelAt, now).fates[k].Ran?
    ensures var fates := CronFrom(upcoming, env, cancelAt, now).fates;
            fates[j].start + fates[j].elapsed < fates[k].start
  {
    ClockMonotone(upcoming, env, cancelAt, now, j, k);
    FateAt(upcoming, env, cancelAt, now, k);
  }

  /** An execution that runs up to or past the following instant makes the
      loop skip that instant: it is neither run late nor run concurrently,
      and the loop does not stop there. */
  lemma OverrunSkipsNext(upcoming: seq<nat>, env: seq<Tick>, cancelAt: nat, now: nat, k: nat)
    requires |env| == |upcoming|
    requires k + 1 < |upcoming|
    requires k < |CronFrom(upcoming, env, cancelAt, now).fates|
    requires CronFrom(upcoming, env, cancelAt, now).fates[k].Ran?
    requires upcoming[k + 1] <= upcoming[k] + env[k].elapsed
    ensures var fates := CronFrom(upcoming, env, cancelAt, now).fates;
            k + 1 < |fates| && fates[k + 1].Skipped?
  {
    var t := CronFrom(upcoming, env, cancelAt, now);
    FateAt(upcoming, env, cancelAt, now, k);
    StopAt(upcoming, env, cancelAt, now);
    if k + 1 < |t.fates| {
      FateAt(upcoming, env, cancelAt, now, k + 1);
    }
  }

  /** What cancellation guarantees: no execution starts after the
      cancellation, and one starts exactly at it only when the timer won the
      tie; the sleep is never zero in this loop, because instants that are
      not in the future are skipped before the race. */
  lemma {:induction false} NeverRunsAfterCancel(upcoming: seq<nat>, env: seq<Tick>, cancelAt: nat, now: nat)
    requires |env| == |upcoming|
    ensures var fates := CronFrom(upcoming, env, cancelAt, now).fates;
            forall k :: 0 <= k < |fates| && fates[k].Ran? ==>
              fates[k].seenAt < fates[k].start <= cancelAt
              && (fates[k].start == cancelAt ==> !env[k].cancelOnTie)
  {
    var fates := CronFrom(upcoming, env, cancelAt, now).fates;
    forall k | 0 <= k < |fates| && fates[k].Ran?
      ensures fates[k].seenAt < fates[k].start <= cancelAt
              && (fates[k].start == cancelAt ==> !env[k].cancelOnTie)
    {
      FateAt(upcoming, env, cancelAt, now, k);
    }
  }

  /** A cancellation strictly before the next future instant is always
      observed: that instant is not run and the loop stops on it. */
  lemma CancelBeforeInstantStops(upcoming: seq<nat>, env: seq<Tick>, cancelAt: nat, now: nat, k: nat)
    requires |env| == |upcoming|
    requires k < |upcoming|
    requires k <= |CronFrom(upcoming, env, cancelAt, now).fates|
    requires var t := CronFrom(upcoming, env, cancelAt, now);
             SeenBefore(t, now, k) < upcoming[k] && cancelAt < upcoming[k]
    ensures var t := CronFrom(upcoming, env, cancelAt, now);
            |t.fates| == k && t.stop == Cancelled
  {
    var t := CronFrom(upcoming, env, cancelAt, now);
    if k < |t.fates| {
      FateAt(upcoming, env, cancelAt, now, k);
      assert false;
    }
  }

  /** A failed execution is not fatal: the outcomes of the work change
      nothing about which instants run, when, or why the loop stops. */
  lemma {:induction false} FailureIsNotFatal(upcoming: seq<nat>, env: seq<Tick>, other: seq<Tick>, cancelAt: nat, now: nat)
    requires |env| == |upcoming| && |other| == |upcoming|
    requires forall j :: 0 <= j < |env| ==>
               other[j].cancelOnTie == env[j].cancelOnTie && other[j].elapsed == env[j].elapsed
    ensures var t, u := CronFrom(upcoming, env, cancelAt, now), CronFrom(upcoming, other, cancelAt, now);
            t.stop == u.stop && |t.fates| == |u.fates|
            && forall k :: 0 <= k < |t.fates| ==>
                 t.fates[k].Ran? == u.fates[k].Ran? && ClockAfter(t.fates[k]) == ClockAfter(u.fates[k])
    decreases |upcoming|
  {
    if upcoming != [] {
      var d := upcoming[0];
      var now' := if d <= now then now else d + env[0].elapsed;
      FailureIsNotFatal(upcoming[1..], env[1..], other[1..], cancelAt, now');
    }
  }

  /** When the first instant is in the future, every execution ends before
      the next instant, and the cancellation comes after the last instant,
      every instant runs and the loop ends with its instants. */
  lemma {:induction false} AllRunWhenWorkFits(upcoming: seq<nat>, env: seq<Tick>, cancelAt: nat, now: nat)
    requires |env| == |upcoming|
    requires |upcoming| > 0 ==> now < upcoming[0]
    requires forall k :: 0 <= k < |upcoming| - 1 ==> upcoming[k] + env[k].elapsed < upcoming[k + 1]
    requires forall k :: 0 <= k < |upcoming| ==> upcoming[k] < cancelAt
    ensures var t := CronFrom(upcoming, env, cancelAt, now);
            t.stop == Exhausted && forall k :: 0 <= k < |t.fates| ==> t.fates[k].Ran?
    decreases |upcoming|
  {
    if upcoming != [] {
      var now' := upcoming[0] + env[0].elapsed;
      AllRunWhenWorkFits(upcoming[1..], env[1..], cancelAt, now');
      var t := CronFrom(upcoming, env, cancelAt, now);
      var t' := CronFrom(upcoming[1..], env[1..], cancelAt, now');
      assert t.fates == [t.fates[0]] + t'.fates;
      forall k | 0 <= k < |t.fates| ensures t.fates[k].Ran? {
        if k > 0 { assert t.fates[k] == t'.fates[k - 1]; }
      }
    }
  }

  /** An every-second schedule whose work takes 1.5 s: each execution
      overruns the next instant, so every other instant is skipped. */
  lemma EveryOtherSecondWhenWorkTakes1500()
    ensures var tick := Tick(false, 1500, true);
            var t := CronFrom([1000, 2000, 3000, 4000, 5000], [tick, tick, tick, tick, tick], 10000, 0);
            t.stop == Exhausted
            && t.fates == [Ran(0, 1000, 1500, true), Skipped(2500), Ran(2500, 3000, 1500, true),
                           Skipped(4500), Ran(4500, 5000, 1500, true)]
  {
    var tick := Tick(false, 1500, true);
    var u, e := [1000, 2000, 3000, 4000, 5000], [tick, tick, tick, tick, tick];
    assert CronFrom(u[4..], e[4..], 10000, 4500).fates == [Ran(4500, 5000, 1500, true)];
    assert CronFrom(u[3..], e[3..], 10000, 4500).fates == [Skipped(4500), Ran(4500, 5000, 1500, true)];
    assert u[2..][1..] == u[3..] && e[2..][1..] == e[3..];
    assert CronFrom(u[2..], e[2..], 10000, 2500).fates
        == [Ran(2500, 3000, 1500, true), Skipped(4500), Ran(4500, 5000, 1500, true)];
    assert u[1..][1..] == u[2..] && e[1..][1..] == e[2..];
  }
}
