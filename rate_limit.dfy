/** The `rate_limiter(period)` decorator: a gate with one cell of state, the time
    of the last call it let through (initially 0). A call arriving less than
    `period` after that time is refused with `None`; any other call records its
    time and runs the wrapped fetch. The clock reading is passed in as `now`. */
module RateLimit {

  datatype Option<T> = None | Some(value: T)

  /** The last admitted time, or the initial 0 when none was admitted yet. */
  function LastOf(admitted: seq<real>): real
  {
    if admitted == [] then 0.0 else admitted[|admitted| - 1]
  }

  /** The call times, out of `calls` in arrival order, that a fresh gate with
      `period` lets through. */
  function Admitted(period: real, calls: seq<real>): seq<real>
  {
    if calls == [] then []
    else
      var earlier := Admitted(period, calls[..|calls| - 1]);
      var now := calls[|calls| - 1];
      if now - LastOf(earlier) < period then earlier else earlier + [now]
  }

  /** Consecutive times are at least `period` apart. */
  ghost predicate Spaced(times: seq<real>, period: real)
  {
    forall i :: 0 < i < |times| ==> times[i] - times[i - 1] >= period
  }

  /** Every admitted call comes at least `period` after the previous admitted
      call (the first one at least `period` after time 0), and each admitted
      time is one of the calls. */
  lemma {:induction false} AdmittedSpaced(period: real, calls: seq<real>)
    ensures Spaced([0.0] + Admitted(period, calls), period)
    ensures forall t :: t in Admitted(period, calls) ==> t in calls
  {
    if calls != [] {
      var init := calls[..|calls| - 1];
      AdmittedSpaced(period, init);
      var earlier := Admitted(period, init);
      var times := [0.0] + earlier;
      assert LastOf(earlier) == times[|times| - 1];
      assert times + [calls[|calls| - 1]] == [0.0] + (earlier + [calls[|calls| - 1]]);
    }
  }

  /** With a non-negative period, any two admitted calls, not only neighbours,
      are at least `period` apart. */
  lemma {:induction false} SpacedPairwise(times: seq<real>, period: real, i: nat, j: nat)
    requires period >= 0.0 && Spaced(times, period)
    requires i < j < |times|
    ensures times[j] - times[i] >= period
    decreases j
  {
    if i < j - 1 {
      SpacedPairwise(times, period, i, j - 1);
    }
  }

  /** The gate built by `rate_limiter(period)` around one fetch function. */
  class RateLimiter {
    const period: real
    var lastCall: real
    /** Every call presented to the gate, in order. */
    ghost var calls: seq<real>

    ghost predicate Valid()
      reads this
    {
      lastCall == LastOf(Admitted(period, calls))
    }

    constructor (period: real)
      ensures Valid()
      ensures this.period == period && lastCall == 0.0 && calls == []
    {
      this.period := period;
      lastCall := 0.0;
      calls := [];
    }

    /** The wrapper: refuse with `None` when `now - lastCall < period`, leaving
        the state as it was; otherwise record `now` and return what the wrapped
        `fetch` returns. */
    method Call<T>(now: real, fetch: () -> T) returns (r: Option<T>)
      requires Valid()
      modifies this
      ensures Valid()
      ensures calls == old(calls) + [now]
      ensures now - old(lastCall) < period ==> r == None && lastCall == old(lastCall)
      ensures now - old(lastCall) >= period ==> r == Some(fetch()) && lastCall == now
    {
      calls := calls + [now];
      assert calls[..|calls| - 1] == old(calls);
      if now - lastCall < period {
        return None;
      }
      lastCall := now;
      return Some(fetch());
    }
  }
}
