/** The per-DID circuit breaker and what one breaker state does over time. */
module Breaker {
  import opened Wrappers
  import Digits

  /** Times are in nanoseconds on one clock. */
  datatype Circuit = Circuit(failures: nat, openUntil: Option<int>)

  const CLOSED := Circuit(0, None)

  /** Reports whether the circuit is open; an elapsed cooldown closes it. */
  function IsOpen(c: Circuit, now: int): (bool, Circuit) {
    if c.openUntil.None? then (false, c)
    else if now > c.openUntil.value then (false, c.(openUntil := None))
    else (true, c)
  }

  function OnFailure(c: Circuit, threshold: int, cooldown: int, now: int): Circuit {
    var n := c.failures + 1;
    Circuit(n, if n >= threshold then Some(now + cooldown) else c.openUntil)
  }

  class CircuitState {
    var failures: nat
    var openUntil: Option<int>

    ghost function State(): Circuit
      reads this
    {
      Circuit(failures, openUntil)
    }

    constructor ()
      ensures State() == CLOSED
    {
      failures, openUntil := 0, None;
    }

    method CheckOpen(now: int) returns (open: bool)
      modifies this
      ensures (open, State()) == IsOpen(old(State()), now)
    {
      if openUntil.None? {
        return false;
      }
      if now > openUntil.value {
        openUntil := None;
        return false;
      }
      return true;
    }

    method RecordSuccess()
      modifies this
      ensures State() == CLOSED
    {
      failures, openUntil := 0, None;
    }

    method RecordFailure(threshold: int, cooldown: int, now: int)
      modifies this
      ensures State() == OnFailure(old(State()), threshold, cooldown, now)
    {
      failures := failures + 1;
      if failures >= threshold {
        openUntil := Some(now + cooldown);
      }
    }
  }

  // ---- streaks of failures ----

  /** From the threshold-th failure of a streak on, each next one comes strictly
      more than the cooldown after the one before it. */
  ghost predicate Spaced(streak: seq<int>, threshold: int, cooldown: int) {
    && (forall k | 1 <= k < |streak| :: streak[k - 1] <= streak[k])
    && (forall k | 1 <= k < |streak| && k >= threshold :: streak[k] > streak[k - 1] + cooldown)
  }

  /** The breaker state is the one its current streak calls for. */
  ghost predicate Tracks(c: Circuit, streak: seq<int>, threshold: int, cooldown: int, now: int) {
    && c.failures == |streak|
    && Spaced(streak, threshold, cooldown)
    && (streak != [] ==> streak[|streak| - 1] <= now)
    && (c.openUntil.Some? ==>
          streak != [] && |streak| >= threshold && c.openUntil.value == streak[|streak| - 1] + cooldown)
    && (c.openUntil.None? && streak != [] && |streak| >= threshold ==> now > streak[|streak| - 1] + cooldown)
  }

  lemma CheckTracks(c: Circuit, streak: seq<int>, threshold: int, cooldown: int, now: int)
    requires Tracks(c, streak, threshold, cooldown, now)
    ensures var (open, after) := IsOpen(c, now);
            Tracks(after, streak, threshold, cooldown, now) && (!open ==> after.openUntil.None?)
  {
  }

  /** The circuit is open exactly from the threshold-th failure of a streak on, until
      the cooldown after the last one is over: a later check lets a probe through. */
  lemma OpenExactly(c: Circuit, streak: seq<int>, threshold: int, cooldown: int, now: int)
    requires Tracks(c, streak, threshold, cooldown, now)
    ensures IsOpen(c, now).0 <==>
            streak != [] && |streak| >= threshold && now <= streak[|streak| - 1] + cooldown
  {
  }

  /** A failure recorded while the circuit is closed extends the streak. */
  lemma FailureTracks(c: Circuit, streak: seq<int>, threshold: int, cooldown: int, now: int)
    requires Tracks(c, streak, threshold, cooldown, now) && c.openUntil.None?
    ensures Tracks(OnFailure(c, threshold, cooldown, now), streak + [now], threshold, cooldown, now)
  {
  }

  lemma LaterTracks(c: Circuit, streak: seq<int>, threshold: int, cooldown: int, now: int, later: int)
    requires Tracks(c, streak, threshold, cooldown, now) && now <= later
    ensures Tracks(c, streak, threshold, cooldown, later)
  {
  }

  function Max(a: int, b: int): int {
    if a > b then a else b
  }

  lemma {:induction false} SpacedSpan(streak: seq<int>, threshold: int, cooldown: nat, first: nat, extra: nat)
    requires Spaced(streak, threshold, cooldown)
    requires first + extra < |streak| && first + 1 >= threshold
    ensures streak[first + extra] - streak[first] >= extra * cooldown
  {
    if extra > 0 {
      SpacedSpan(streak, threshold, cooldown, first, extra - 1);
      assert streak[first + extra] > streak[first + extra - 1] + cooldown;
      assert extra * cooldown == (extra - 1) * cooldown + cooldown;
    }
  }

  lemma {:induction false} StreakGrows(streak: seq<int>, threshold: int, cooldown: int, k: nat)
    requires Spaced(streak, threshold, cooldown) && k < |streak|
    ensures streak[0] <= streak[k]
  {
    if k > 0 {
      StreakGrows(streak, threshold, cooldown, k - 1);
    }
  }

  /** A streak that lasts `duration` holds at most threshold + duration / cooldown
      failures: a dead endpoint is probed once per cooldown. */
  lemma StreakBound(streak: seq<int>, threshold: int, cooldown: nat, duration: nat)
    requires cooldown > 0 && Spaced(streak, threshold, cooldown)
    requires streak != [] ==> streak[|streak| - 1] - streak[0] <= duration
    ensures |streak| <= Max(threshold, 1) + duration / cooldown
  {
    var first := Max(threshold, 1) - 1;
    if |streak| > first + 1 {
      var extra := |streak| - 1 - first;
      SpacedSpan(streak, threshold, cooldown, first, extra);
      StreakGrows(streak, threshold, cooldown, first);
      Digits.QuotientBound(extra, duration, cooldown);
    } else {
      Digits.QuotientBound(0, duration, cooldown);
    }
  }
}
