/**
  The end-of-round countdown: the game's `countdown` value and whether the
  one-second interval that lowers it is registered.  Arming comes from the
  server's `countdown` message; a tick is one firing of the interval.
 */
module Countdown {

  /** `countdown` (0 when absent) and whether an interval is registered. */
  datatype Timer = Timer(countdown: int, ticking: bool)

  /**
    `dispatch.countdown`: any running interval is cleared, the value becomes
    `remaining`, and a new interval starts only for a non-zero `remaining`.
   */
  function Arm(remaining: int): (t: Timer)
    ensures t.countdown == remaining
    ensures t.ticking <==> remaining != 0
  {
    Timer(remaining, remaining != 0)
  }

  /**
    One firing of the interval (`countdown()`): lower a value of at least 1 by
    one, otherwise clear the interval.  With no interval registered nothing
    fires, so nothing changes.
   */
  function Tick(t: Timer): (r: Timer)
    ensures r.countdown == t.countdown || r.countdown == t.countdown - 1
    ensures r.ticking ==> t.ticking
  {
    if !t.ticking then t
    else if t.countdown >= 1 then t.(countdown := t.countdown - 1)
    else t.(ticking := false)
  }

  /** The timer after `k` firings: the value never rises and a cleared interval stays cleared. */
  function Ticks(t: Timer, k: nat): (r: Timer)
    ensures r.countdown <= t.countdown
    ensures r.ticking ==> t.ticking
    decreases k
  {
    if k == 0 then t else Ticks(Tick(t), k - 1)
  }

  /**
    One tick either lowers a value of at least 1 by exactly one and keeps
    ticking, or switches ticking off without touching the value; a value
    that was not negative stays not negative.
   */
  lemma TickRule(t: Timer)
    requires t.ticking
    ensures t.countdown >= 1 ==> Tick(t) == Timer(t.countdown - 1, true)
    ensures t.countdown < 1 ==> Tick(t) == Timer(t.countdown, false)
    ensures t.countdown >= 0 ==> Tick(t).countdown >= 0
  {
  }

  /** Once ticking is off the timer stays as it is, however many ticks come, until it is re-armed. */
  lemma {:induction false} Quiescent(t: Timer, k: nat)
    requires !t.ticking
    ensures Ticks(t, k) == t
    decreases k
  {
    if k > 0 {
      Quiescent(Tick(t), k - 1);
    }
  }

  /** A timer whose value is not negative never goes below 0. */
  lemma {:induction false} NeverNegative(t: Timer, k: nat)
    requires t.countdown >= 0
    ensures 0 <= Ticks(t, k).countdown <= t.countdown
    decreases k
  {
    if k > 0 {
      NeverNegative(Tick(t), k - 1);
    }
  }

  /**
    Armed with `r` >= 0, the k-th tick leaves `r - k` while k <= r, and the
    interval is cleared by tick r + 1, the first one that finds 0; from then
    on the value stays 0.
   */
  lemma {:induction false} TicksFromArm(r: int, k: nat)
    requires r >= 0
    ensures k <= r ==> Ticks(Arm(r), k) == Timer(r - k, r != 0)
    ensures k > r ==> Ticks(Arm(r), k) == Timer(0, false)
  {
    if k > 0 {
      if r == 0 {
        Quiescent(Arm(0), k);
      } else {
        if r == 1 {
          assert Tick(Arm(1)) == Timer(0, true);
          assert Tick(Timer(0, true)) == Timer(0, false);
          if k > 1 {
            Quiescent(Timer(0, false), k - 2);
          }
        } else {
          assert Tick(Arm(r)) == Arm(r - 1);
          TicksFromArm(r - 1, k - 1);
        }
      }
    }
  }

  /** Armed with a negative value, the first tick clears the interval and the value never changes. */
  lemma NegativeStops(r: int, k: nat)
    requires r < 0
    ensures k >= 1 ==> Ticks(Arm(r), k) == Timer(r, false)
  {
    if k >= 1 {
      Quiescent(Timer(r, false), k - 1);
    }
  }
}
