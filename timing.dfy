/** Abstract time shared by both scheduling loops.

    Every duration and every instant is a whole number of nanoseconds, as
    `std::time::Duration` is; instants are measured on one abstract clock
    that only the sleeps and the executions of the work advance. */
module Timing {

  /** The larger of two durations. */
  function Max(a: nat, b: nat): nat
  {
    if a < b then b else a
  }

  /** `Duration::saturating_sub`: the difference, or zero when it would be
      negative. Topping `b` up by the result gives exactly the larger of
      the two, so a wait computed this way makes elapsed + wait reach the
      interval and never shortens it. */
  function SaturatingSub(a: nat, b: nat): (r: nat)
    ensures b + r == Max(a, b)
    ensures r <= a
    ensures r == 0 <==> a <= b
  {
    if b < a then a - b else 0
  }

  /** What the outside world does during one pass of a scheduling loop:
      which branch `tokio::select!` takes when the cancellation and the
      timer become ready at the same instant (it polls its branches in a
      random order), how long the work then runs, and whether it fails. */
  datatype Tick = Tick(cancelOnTie: bool, elapsed: nat, ok: bool)

  /** The race between `cancellation_token.cancelled()` and the sleep.
      The loop starts waiting at `now` and its timer fires at `wake`; a
      cancellation requested at `cancelAt` makes the other branch ready at
      `Max(now, cancelAt)` (at once when it was requested while the work
      was still running). The branch that is ready first wins; when both
      are ready together, `cancelOnTie` decides. */
  function CancelWins(now: nat, wake: nat, cancelAt: nat, cancelOnTie: bool): (r: bool)
    requires now <= wake
    ensures cancelAt < wake && now < wake ==> r
    ensures wake < cancelAt ==> !r
    ensures cancelAt == wake ==> (r <==> cancelOnTie)
    ensures now == wake && cancelAt <= now ==> (r <==> cancelOnTie)
    ensures r ==> cancelAt <= wake
  {
    var ready := Max(now, cancelAt);
    ready < wake || (ready == wake && cancelOnTie)
  }
}
