/** The limiter object (rate_limiter.go), with the clock as an argument, against the functions of RateLimits. */
module RateLimiters {
  import opened RateLimits

  class RateLimiter {
    var max: Limits
    var perMinute: seq<int>
    var perHour: seq<int>
    var perDay: seq<int>
    var burstCredit: int
    var minDelayMs: int
    var maxDelayMs: int

    function Value(): Limiter
      reads this
    {
      Limiter(max, perMinute, perHour, perDay, burstCredit)
    }

    constructor (max: Limits, minDelayMs: int, maxDelayMs: int)
      ensures Value() == Start(max, 0).limiter
      ensures this.minDelayMs == minDelayMs && this.maxDelayMs == maxDelayMs
    {
      this.max, this.minDelayMs, this.maxDelayMs := max, minDelayMs, maxDelayMs;
      perMinute, perHour, perDay, burstCredit := [], [], [], 0;
    }

    /** The times after the cutoff move to the front, and the rest of the slice is cut off. */
    static method PruneSlice(times: seq<int>, cutoff: int) returns (kept: seq<int>)
      ensures kept == Prune(times, cutoff)
    {
      var slice, i := times, 0;
      for k := 0 to |times|
        invariant 0 <= i <= k && |slice| == |times|
        invariant slice[..i] == Prune(times[..k], cutoff)
        invariant slice[k..] == times[k..]
      {
        var t := slice[k];
        assert t == slice[k..][0] == times[k];
        assert times[..k + 1] == times[..k] + [t];
        PruneLast(times[..k], t, cutoff);
        assert slice[k + 1..] == slice[k..][1..] == times[k + 1..];
        if t > cutoff {
          ghost var before := slice[..i];
          slice := slice[i := t];
          i := i + 1;
          assert slice[..i] == before + [t];
        }
      }
      assert times[..|times|] == times;
      kept := slice[..i];
    }

    method CanSend(now: int) returns (ok: bool)
      modifies this`perMinute, this`perHour, this`perDay, this`burstCredit
      ensures Value() == AfterCheck(old(Value()), now)
      ensures ok <==> VerdictOf(PruneAll(old(Value()), now)) != Refused
    {
      perMinute := PruneSlice(perMinute, now - MINUTE);
      perHour := PruneSlice(perHour, now - HOUR);
      perDay := PruneSlice(perDay, now - DAY);
      if |perDay| >= max.perDay {
        return false;
      }
      if |perHour| >= max.perHour {
        return false;
      }
      if |perMinute| >= max.perMinute {
        if burstCredit < max.burst {
          burstCredit := burstCredit + 1;
          return true;
        }
        return false;
      }
      ok := true;
    }

    method Record(now: int)
      modifies this`perMinute, this`perHour, this`perDay
      ensures Value() == AfterRecord(old(Value()), now)
    {
      perMinute := perMinute + [now];
      perHour := perHour + [now];
      perDay := perDay + [now];
    }

    /** The limits shrink and the two delays grow by the same clamped factor. */
    method AdaptLimits(factor: real)
      modifies this`max, this`minDelayMs, this`maxDelayMs
      ensures Value() == old(Value()).(max := Adapted(old(max), factor))
      ensures minDelayMs == Scale(old(minDelayMs), 1.0 / Clamp(factor))
      ensures maxDelayMs == Scale(old(maxDelayMs), 1.0 / Clamp(factor))
    {
      var f := factor;
      if f < 0.1 {
        f := 0.1;
      }
      if f > 1.0 {
        f := 1.0;
      }
      max := max.(perMinute := Scale(max.perMinute, f), perHour := Scale(max.perHour, f), perDay := Scale(max.perDay, f));
      minDelayMs := Scale(minDelayMs, 1.0 / f);
      maxDelayMs := Scale(maxDelayMs, 1.0 / f);
    }
  }
}
