/** Per-JID circuit breakers over timed runs (circuit_breaker.go), with the clock as an argument. */
module CircuitBreakers {
  import opened Basics

  /** Go durations, in nanoseconds. */
  const STALE_AFTER := 600_000_000_000

  datatype Position = Closed | Open | HalfOpen

  /** lastOpen is only read while the breaker is open. */
  datatype Breaker = Breaker(position: Position, failures: int, lastFail: int, lastOpen: int)

  datatype Config = Config(threshold: int, cooldown: int)

  type Breakers = map<string, Breaker>

  datatype Event =
    | CanSend(jid: string, now: int)
    | Success(jid: string, now: int)
    | Failure(jid: string, now: int)

  /** evictStale forgets closed breakers that have not failed for ten minutes. */
  function Evict(m: Breakers, now: int): Breakers {
    map jid | jid in m && !(m[jid].position == Closed && now - m[jid].lastFail > STALE_AFTER) :: m[jid]
  }

  predicate Answer(c: Config, m: Breakers, jid: string, now: int) {
    jid in m && m[jid].position == Open ==> now - m[jid].lastOpen >= c.cooldown
  }

  function After(c: Config, m: Breakers, e: Event): Breakers {
    match e
    case CanSend(jid, now) =>
      if jid !in m then m
      else if m[jid].position == Open && now - m[jid].lastOpen >= c.cooldown
      then Evict(m, now)[jid := m[jid].(position := HalfOpen)]
      else Evict(m, now)
    case Success(jid, _) => if jid in m then m[jid := m[jid].(position := Closed, failures := 0)] else m
    case Failure(jid, now) =>
      var b := if jid in m then m[jid] else Breaker(Closed, 0, now, now);
      var failed := b.(failures := b.failures + 1, lastFail := now);
      m[jid := if failed.failures >= c.threshold then failed.(position := Open, lastOpen := now) else failed]
  }

  function AfterAll(c: Config, m: Breakers, events: seq<Event>): Breakers
    decreases events
  {
    if events == [] then m else AfterAll(c, After(c, m, events[0]), events[1..])
  }

  /** A breaker is open or half open exactly when its failures have reached the threshold. */
  predicate TrippedExactly(c: Config, m: Breakers) {
    forall jid :: jid in m ==> (m[jid].position != Closed <==> m[jid].failures >= c.threshold)
  }

  lemma {:induction false} RunsTripExactly(c: Config, m: Breakers, events: seq<Event>)
    requires c.threshold >= 1 && TrippedExactly(c, m)
    ensures TrippedExactly(c, AfterAll(c, m, events))
    decreases events
  {
    if events != [] {
      RunsTripExactly(c, After(c, m, events[0]), events[1..]);
    }
  }

  /** Forgetting stale breakers changes no answer. */
  lemma EvictionIsInvisible(c: Config, m: Breakers, jid: string, now: int, later: int)
    ensures Answer(c, Evict(m, now), jid, later) <==> Answer(c, m, jid, later)
  {
  }

  // ---- What a run makes of the failures of one JID

  lemma {:induction false} AfterAllSnoc(c: Config, m: Breakers, events: seq<Event>, e: Event)
    ensures AfterAll(c, m, events + [e]) == After(c, AfterAll(c, m, events), e)
    decreases events
  {
    hide After;
    if events == [] {
      assert [] + [e] == [e] && [e][1..] == [];
    } else {
      assert (events + [e])[1..] == events[1..] + [e];
      AfterAllSnoc(c, After(c, m, events[0]), events[1..], e);
    }
  }

  /** The failures recorded for the JID since its last success: its unfinished series. */
  function FailuresSince(events: seq<Event>, jid: string): nat {
    if events == [] then 0
    else
      var before, e := FailuresSince(events[..|events| - 1], jid), events[|events| - 1];
      if e.jid != jid || e.CanSend? then before
      else if e.Failure? then before + 1 else 0
  }

  function LatestFailure(events: seq<Event>, jid: string): (now: int)
    requires FailuresSince(events, jid) > 0
  {
    var e := events[|events| - 1];
    if e.Failure? && e.jid == jid then e.now else LatestFailure(events[..|events| - 1], jid)
  }

  /**
   A check, of any JID that has a breaker, fell more than STALE_AFTER after the latest failure of the unfinished series,
   while that series was below the threshold.
   */
  predicate WentStale(c: Config, events: seq<Event>, jid: string) {
    events != [] &&
    var before, e := events[..|events| - 1], events[|events| - 1];
    match e
    case Success(other, _) => other != jid && WentStale(c, before, jid)
    case Failure(_, _) => WentStale(c, before, jid)
    case CanSend(other, now) =>
      || WentStale(c, before, jid)
      || (other in AfterAll(c, map[], before) && 0 < FailuresSince(before, jid) < c.threshold
          && now - LatestFailure(before, jid) > STALE_AFTER)
  }

  /** The failures that the breakers hold for a JID; none without a breaker. */
  function Held(m: Breakers, jid: string): int {
    if jid in m then m[jid].failures else 0
  }

  /** A breaker that holds failures is closed exactly while they are below the threshold. */
  predicate PositionFollows(c: Config, m: Breakers, jid: string) {
    jid in m ==>
      && m[jid].failures >= 0
      && (m[jid].failures == 0 ==> m[jid].position == Closed)
      && (m[jid].failures > 0 ==> (m[jid].position == Closed <==> m[jid].failures < c.threshold))
  }

  /** One event, for a series that has not gone stale: the count, and the time of its latest failure, are held. */
  lemma StepHolds(c: Config, m: Breakers, events: seq<Event>, jid: string, e: Event)
    requires m == AfterAll(c, map[], events) && PositionFollows(c, m, jid)
    requires WentStale(c, events, jid) ==> 0 <= Held(m, jid) < FailuresSince(events, jid)
    requires !WentStale(c, events, jid) ==> Held(m, jid) == FailuresSince(events, jid)
    requires !WentStale(c, events, jid) && Held(m, jid) > 0 ==> m[jid].lastFail == LatestFailure(events, jid)
    ensures var t, now := After(c, m, e), events + [e];
      && PositionFollows(c, t, jid)
      && (WentStale(c, now, jid) ==> 0 <= Held(t, jid) < FailuresSince(now, jid))
      && (!WentStale(c, now, jid) ==> Held(t, jid) == FailuresSince(now, jid))
      && (!WentStale(c, now, jid) && Held(t, jid) > 0 ==> t[jid].lastFail == LatestFailure(now, jid))
  {
    assert (events + [e])[..|events|] == events;
  }

  lemma {:induction false} RunHolds(c: Config, events: seq<Event>, jid: string)
    ensures var m := AfterAll(c, map[], events);
      && PositionFollows(c, m, jid)
      && (WentStale(c, events, jid) ==> 0 <= Held(m, jid) < FailuresSince(events, jid))
      && (!WentStale(c, events, jid) ==> Held(m, jid) == FailuresSince(events, jid))
      && (!WentStale(c, events, jid) && Held(m, jid) > 0 ==> m[jid].lastFail == LatestFailure(events, jid))
    decreases |events|
  {
    hide After;
    if events != [] {
      var before, e := events[..|events| - 1], events[|events| - 1];
      assert events == before + [e];
      RunHolds(c, before, jid);
      AfterAllSnoc(c, map[], before, e);
      StepHolds(c, AfterAll(c, map[], before), before, jid, e);
    }
  }

  /**
   Over every run from the start, and for every threshold, the breakers hold exactly the failures recorded since the last
   success if and only if the series has not gone stale; once it has, they hold fewer until a success.
   */
  lemma FailuresAreForgottenExactly(c: Config, events: seq<Event>, jid: string)
    ensures Held(AfterAll(c, map[], events), jid) == FailuresSince(events, jid) <==> !WentStale(c, events, jid)
    ensures 0 <= Held(AfterAll(c, map[], events), jid) <= FailuresSince(events, jid)
  {
    RunHolds(c, events, jid);
  }

  function PositionAfter(c: Config, m: Breakers, events: seq<Event>, jid: string): Option<Position> {
    var t := AfterAll(c, m, events);
    if jid in t then Some(t[jid].position) else None
  }

  /** The failure that completes a series as long as the threshold opens the breaker exactly when none was forgotten. */
  lemma SeriesOpensExactly(c: Config, events: seq<Event>, jid: string, now: int)
    requires FailuresSince(events, jid) + 1 == c.threshold
    ensures PositionAfter(c, map[], events + [Failure(jid, now)], jid) == Some(Open) <==> !WentStale(c, events, jid)
  {
    RunHolds(c, events, jid);
    AfterAllSnoc(c, map[], events, Failure(jid, now));
  }

  /** With a threshold of two, a check between two failures, just after the first went stale, keeps the breaker closed. */
  lemma EvictionForgetsFailures(jid: string, cooldown: int)
    ensures var c, later := Config(2, cooldown), STALE_AFTER + 1;
      && WentStale(c, [Failure(jid, 0), CanSend(jid, later)], jid)
      && PositionAfter(c, map[], [Failure(jid, 0), CanSend(jid, later), Failure(jid, later)], jid) == Some(Closed)
      && PositionAfter(c, map[], [Failure(jid, 0), Failure(jid, later)], jid) == Some(Open)
  {
    var c, later := Config(2, cooldown), STALE_AFTER + 1;
    var f, k, g: Event := Failure(jid, 0), CanSend(jid, later), Failure(jid, later);
    assert [f, k][..1] == [f] && [f][..0] == [] && [f][1..] == [];
    assert AfterAll(c, map[], [f]) == After(c, map[], f);
    assert FailuresSince([f], jid) == 1 && LatestFailure([f], jid) == 0;
    assert !WentStale(c, [f], jid) && WentStale(c, [f, k], jid);
    assert FailuresSince([f, k], jid) == 1;
    SeriesOpensExactly(c, [f], jid, later);
    assert [f] + [g] == [f, g];
    SeriesOpensExactly(c, [f, k], jid, later);
    RunHolds(c, [f, k], jid);
    AfterAllSnoc(c, map[], [f, k], g);
    assert [f, k] + [g] == [f, k, g];
  }

  /** While half open, one failure opens the breaker at once. */
  lemma HalfOpenReopens(c: Config, m: Breakers, jid: string, now: int)
    requires TrippedExactly(c, m) && jid in m && m[jid].position == HalfOpen
    ensures var t := After(c, m, Failure(jid, now)); t[jid].position == Open && t[jid].lastOpen == now
  {
  }

  /** The clock does not go back, and stays before the end. */
  predicate Timed(events: seq<Event>, start: int, end: int)
    decreases events
  {
    events == [] || (start <= events[0].now < end && Timed(events[1..], events[0].now, end))
  }

  predicate OpenSince(m: Breakers, jid: string, start: int, now: int) {
    jid in m && m[jid].position == Open && start <= m[jid].lastOpen <= now
  }

  /**
   From the failure that trips a breaker on, every check inside the cooldown is refused, whatever happens to it or to any
   other JID in between, unless a success is recorded for it.
   */
  lemma {:induction false} TrippedStaysOpen(c: Config, m: Breakers, jid: string, start: int, now: int, events: seq<Event>)
    requires c.threshold >= 1 && TrippedExactly(c, m) && OpenSince(m, jid, start, now)
    requires Timed(events, now, start + c.cooldown)
    requires forall i :: 0 <= i < |events| && events[i].Success? ==> events[i].jid != jid
    ensures forall i :: 0 <= i < |events| ==>
      Timed(events[..i], now, start + c.cooldown) && !Answer(c, AfterAll(c, m, events[..i]), jid, events[i].now)
    decreases events
  {
    if events != [] {
      var t := After(c, m, events[0]);
      RunsTripExactly(c, m, [events[0]]);
      assert AfterAll(c, m, [events[0]]) == AfterAll(c, t, [events[0]][1..]);
      assert OpenSince(t, jid, start, events[0].now);
      TrippedStaysOpen(c, t, jid, start, events[0].now, events[1..]);
      forall i | 0 <= i < |events|
        ensures Timed(events[..i], now, start + c.cooldown) && !Answer(c, AfterAll(c, m, events[..i]), jid, events[i].now)
      {
        if i > 0 {
          assert events[..i][1..] == events[1..][..i - 1];
          assert events[1..][i - 1] == events[i];
        }
      }
    }
  }

  class JidCircuitBreaker {
    const cfg: Config
    var breakers: Breakers

    constructor (cfg: Config)
      ensures this.cfg == cfg && breakers == map[]
    {
      this.cfg, breakers := cfg, map[];
    }

    method EvictStale(now: int)
      modifies this
      ensures breakers == Evict(old(breakers), now)
    {
      var todo, all := breakers.Keys, breakers;
      while todo != {}
        invariant todo <= all.Keys
        invariant breakers == map jid | jid in all && (jid in todo || jid in Evict(all, now)) :: all[jid]
        decreases |todo|
      {
        var jid :| jid in todo;
        if all[jid].position == Closed && now - all[jid].lastFail > STALE_AFTER {
          breakers := breakers - {jid};
        }
        todo := todo - {jid};
      }
    }

    method CanSend(jid: string, now: int) returns (ok: bool)
      modifies this
      ensures breakers == After(cfg, old(breakers), Event.CanSend(jid, now))
      ensures ok <==> Answer(cfg, old(breakers), jid, now)
    {
      if jid !in breakers {
        return true;
      }
      var entry := breakers[jid];
      EvictStale(now);
      match entry.position {
        case Closed =>
          ok := true;
        case Open =>
          ok := now - entry.lastOpen >= cfg.cooldown;
          if ok {
            breakers := breakers[jid := entry.(position := HalfOpen)];
          }
        case HalfOpen =>
          ok := true;
      }
    }

    method RecordSuccess(jid: string, now: int)
      modifies this
      ensures breakers == After(cfg, old(breakers), Success(jid, now))
    {
      if jid !in breakers {
        return;
      }
      breakers := breakers[jid := breakers[jid].(position := Closed, failures := 0)];
    }

    method RecordFailure(jid: string, now: int)
      modifies this
      ensures breakers == After(cfg, old(breakers), Failure(jid, now))
    {
      var entry := Breaker(Closed, 0, now, now);
      if jid in breakers {
        entry := breakers[jid];
      }
      entry := entry.(failures := entry.failures + 1, lastFail := now);
      if entry.failures >= cfg.threshold {
        entry := entry.(position := Open, lastOpen := now);
      }
      breakers := breakers[jid := entry];
    }
  }
}
