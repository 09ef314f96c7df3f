/** The timing of the loop in `MblCloudClient::run`: one pass reads the shutdown signal, the
    registration state and the monotonic clock, in whole seconds. */
module Reregistration {
  import opened Wrappers

  const LIFETIME := 600
  const PERIOD := LIFETIME / 2

  datatype Error = ShutdownRequested | DeviceUnregistered

  /** What one pass finds. */
  datatype Pass = Pass(signal: bool, unregistered: bool, time: int)

  function Verdict(p: Pass): Option<Error> {
    if p.signal then Some(ShutdownRequested) else if p.unregistered then Some(DeviceUnregistered) else None
  }

  /** The times of the updates, if the passes happen at `times` and the next update is due
      at `next`. */
  function Updates(next: int, times: seq<int>): seq<int>
    decreases times
  {
    if times == [] then []
    else if times[0] >= next then [times[0]] + Updates(times[0] + PERIOD, times[1..])
    else Updates(next, times[1..])
  }

  /** The next update, after all passes. */
  function Due(next: int, times: seq<int>): int
    decreases times
  {
    if times == [] then next
    else Due(if times[0] >= next then times[0] + PERIOD else next, times[1..])
  }

  lemma {:induction false} OneMorePass(next: int, times: seq<int>, t: int)
    ensures var due := Due(next, times);
            && Updates(next, times + [t]) == Updates(next, times) + (if t >= due then [t] else [])
            && Due(next, times + [t]) == if t >= due then t + PERIOD else due
    decreases times
  {
    if times != [] {
      assert (times + [t])[1..] == times[1..] + [t];
      OneMorePass(if times[0] >= next then times[0] + PERIOD else next, times[1..], t);
    }
  }

  /** The loop, for as many passes as are given: it returns at the first pass with a signal
      or without a registration, and no later than that. */
  method RunLoop(start: int, passes: seq<Pass>) returns (r: Option<Error>, n: nat, updates: seq<int>)
    ensures n <= |passes| && (r == None ==> n == |passes|)
    ensures forall i :: 0 <= i < n ==> Verdict(passes[i]) == None
    ensures r.Some? ==> n < |passes| && r == Verdict(passes[n])
    ensures updates == Updates(start + PERIOD, seq(n, i requires 0 <= i < n => passes[i].time))
  {
    var next := start + PERIOD;
    n, updates := 0, [];
    ghost var times: seq<int> := [];
    while n < |passes|
      invariant n <= |passes|
      invariant forall i :: 0 <= i < n ==> Verdict(passes[i]) == None
      invariant times == seq(n, i requires 0 <= i < n => passes[i].time)
      invariant updates == Updates(start + PERIOD, times) && next == Due(start + PERIOD, times)
    {
      if passes[n].signal {
        return Some(ShutdownRequested), n, updates;
      }
      if passes[n].unregistered {
        return Some(DeviceUnregistered), n, updates;
      }
      OneMorePass(start + PERIOD, times, passes[n].time);
      times := times + [passes[n].time];
      if passes[n].time >= next {
        updates := updates + [passes[n].time];
        next := passes[n].time + PERIOD;
      }
      n := n + 1;
    }
    return None, n, updates;
  }

  /** Consecutive readings of the clock, the first after `start`, differ by at most `delta`. */
  predicate Ticks(start: int, times: seq<int>, delta: nat) {
    && (times != [] ==> start <= times[0] <= start + delta)
    && forall i :: 0 < i < |times| ==> times[i - 1] <= times[i] <= times[i - 1] + delta
  }

  predicate Gaps(times: seq<int>, least: int, most: int) {
    forall i :: 0 < i < |times| ==> least <= times[i] - times[i - 1] <= most
  }

  /** `last` is the last update, `now` the last reading, and no update is due. */
  lemma {:induction false} UpdateGaps(last: int, now: int, times: seq<int>, delta: nat)
    requires last <= now < last + PERIOD && Ticks(now, times, delta)
    ensures Gaps([last] + Updates(last + PERIOD, times), PERIOD, PERIOD - 1 + delta)
    decreases times
  {
    hide Gaps;
    if times == [] {
      OneTime(last, PERIOD, PERIOD - 1 + delta);
    } else {
      var t := times[0];
      var due := t >= last + PERIOD;
      UpdateGaps(if due then t else last, t, times[1..], delta);
      if due {
        assert Updates(last + PERIOD, times) == [t] + Updates(t + PERIOD, times[1..]);
        GapsFrom(last, [t] + Updates(t + PERIOD, times[1..]), PERIOD, PERIOD - 1 + delta);
      }
    }
  }

  lemma OneTime(last: int, least: int, most: int)
    ensures Gaps([last] + [], least, most)
  {
  }

  lemma GapsFrom(last: int, later: seq<int>, least: int, most: int)
    requires later != [] && least <= later[0] - last <= most && Gaps(later, least, most)
    ensures Gaps([last] + later, least, most)
  {
    forall i | 0 < i < |[last] + later|
      ensures least <= ([last] + later)[i] - ([last] + later)[i - 1] <= most
    {
      assert ([last] + later)[i] == later[i - 1];
      if i > 1 {
        assert ([last] + later)[i - 1] == later[i - 2];
      }
    }
  }

  /** If readings are at most `delta` apart, updates are at least the period and at most
      `PERIOD - 1 + delta` apart, the start of the loop counting as one; so the registration
      never outlives its lifetime if `delta` is at most the period. */
  lemma ReregistrationBound(start: int, times: seq<int>, delta: nat)
    requires Ticks(start, times, delta)
    ensures Gaps([start] + Updates(start + 300, times), 300, 299 + delta)
    ensures delta <= 300 ==> Gaps([start] + Updates(start + 300, times), 300, 599)
    ensures times != [] ==> times[|times| - 1] < ([start] + Updates(start + 300, times))[|Updates(start + 300, times)|] + 300
  {
    UpdateGaps(start, start, times, delta);
    LastIsRecent(start, times);
  }

  /** After the last reading no update is due. */
  lemma {:induction false} LastIsRecent(last: int, times: seq<int>)
    ensures var all := [last] + Updates(last + PERIOD, times);
            times != [] ==> times[|times| - 1] < all[|all| - 1] + PERIOD
    decreases times
  {
    if times != [] {
      var t := times[0];
      var rest := times[1..];
      if t >= last + PERIOD {
        LastIsRecent(t, rest);
        var later := [t] + Updates(t + PERIOD, rest);
        assert Updates(last + PERIOD, times) == later;
        assert ([last] + later)[|later|] == later[|later| - 1];
      } else {
        LastIsRecent(last, rest);
      }
    }
  }

  lemma {:induction false} NothingDue(next: int, times: seq<int>, t: int)
    requires forall i :: 0 <= i < |times| ==> times[i] < next
    requires t >= next
    ensures Updates(next, times + [t]) == [t]
    decreases times
  {
    if times != [] {
      assert (times + [t])[1..] == times[1..] + [t];
      NothingDue(next, times[1..], t);
    } else {
      assert ([] + [t])[1..] == [];
    }
  }

  /** The bound is met with equality for every `delta`: a slower clock than one reading per
      period lets the registration lapse. */
  lemma BoundIsTight(start: int, delta: nat) returns (times: seq<int>)
    requires delta > 0
    ensures Ticks(start, times, delta)
    ensures Updates(start + PERIOD, times) == [start + PERIOD - 1 + delta]
    ensures delta > PERIOD ==> !Gaps([start] + Updates(start + PERIOD, times), PERIOD, LIFETIME - 1)
  {
    var seconds := seq(PERIOD, i => start + i);
    var t := start + PERIOD - 1 + delta;
    NothingDue(start + PERIOD, seconds, t);
    times := seconds + [t];
    var all := [start] + Updates(start + PERIOD, times);
    assert all[1] - all[0] == PERIOD - 1 + delta;
  }
}
