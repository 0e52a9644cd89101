/** The clock loop of `main`: on each pulse it samples how many elevators are
    ready, counts consecutive pulses on which all of them were, and sets the
    one-way `terminate` flag once that count reaches `ELEVATOR_TIMEOUT`. The
    sampled readiness values are the loop's input, one per pulse. */
module Clock {
  import opened Config

  /** `inactive_time` after one more pulse that sampled `numReady`. */
  function NextInactive(inactive: nat, numReady: int): nat
  {
    if numReady == ELEVATORS then inactive + 1 else 0
  }

  /** Number of trailing samples on which every elevator was ready. */
  function IdleStreak(samples: seq<int>): nat
  {
    if samples == [] then 0
    else NextInactive(IdleStreak(samples[..|samples| - 1]), samples[|samples| - 1])
  }

  /** The idle streak is at least `k` exactly when the last `k` samples all
      report every elevator ready. */
  lemma {:induction false} IdleStreakMeans(samples: seq<int>, k: nat)
    ensures IdleStreak(samples) >= k <==>
      k <= |samples| && forall i :: |samples| - k <= i < |samples| ==> samples[i] == ELEVATORS
  {
    if samples != [] && k > 0 {
      var prefix := samples[..|samples| - 1];
      IdleStreakMeans(prefix, k - 1);
      if samples[|samples| - 1] == ELEVATORS && k - 1 <= |prefix| {
        forall i | |samples| - k <= i < |samples| - 1
          ensures samples[i] == prefix[i]
        {
        }
      }
    }
  }

  /** The clock loop over the sampled readiness values: stops at the first
      pulse whose streak reaches `ELEVATOR_TIMEOUT` and sets `terminate`
      there, or runs out of samples with `terminate` still false. */
  method ClockLoop(samples: seq<int>) returns (inactiveTime: nat, terminate: bool, pulses: nat)
    ensures pulses <= |samples|
    ensures inactiveTime == IdleStreak(samples[..pulses])
    ensures terminate ==> inactiveTime == ELEVATOR_TIMEOUT
    ensures !terminate ==> pulses == |samples|
    ensures forall k :: 0 <= k < pulses ==> IdleStreak(samples[..k]) < ELEVATOR_TIMEOUT
    ensures terminate <==> exists k :: 0 <= k <= |samples| && IdleStreak(samples[..k]) >= ELEVATOR_TIMEOUT
  {
    inactiveTime := 0;
    terminate := false;
    pulses := 0;
    while pulses < |samples|
      invariant 0 <= pulses <= |samples|
      invariant inactiveTime == IdleStreak(samples[..pulses])
      invariant forall k :: 0 <= k <= pulses ==> IdleStreak(samples[..k]) < ELEVATOR_TIMEOUT
    {
      var numReady := samples[pulses];
      if numReady == ELEVATORS {
        inactiveTime := inactiveTime + 1;
      } else {
        inactiveTime := 0;
      }
      assert samples[..pulses + 1][..pulses] == samples[..pulses];
      pulses := pulses + 1;

      if inactiveTime >= ELEVATOR_TIMEOUT {
        terminate := true;
        return;
      }
    }
    assert samples[..pulses] == samples;
  }

  /** The `ELEVATOR_TIMEOUT` samples just before pulse `j` all report every
      elevator ready. */
  predicate IdleRunEndsAt(samples: seq<int>, j: int)
  {
    ELEVATOR_TIMEOUT <= j <= |samples| &&
    forall i :: j - ELEVATOR_TIMEOUT <= i < j ==> samples[i] == ELEVATORS
  }

  /** Shutdown happens exactly when `ELEVATOR_TIMEOUT` consecutive samples
      report every elevator ready. */
  lemma ShutdownIffIdleRun(samples: seq<int>)
    ensures (exists k :: 0 <= k <= |samples| && IdleStreak(samples[..k]) >= ELEVATOR_TIMEOUT) <==>
      (exists j :: 0 <= j <= |samples| && IdleRunEndsAt(samples, j))
  {
    forall k | 0 <= k <= |samples|
      ensures IdleStreak(samples[..k]) >= ELEVATOR_TIMEOUT <==> IdleRunEndsAt(samples, k)
    {
      IdleStreakMeans(samples[..k], ELEVATOR_TIMEOUT);
    }
  }
}
