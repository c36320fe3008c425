/** Sliding-window limits (rate_limiter.go), and whole timed runs of checks, sends and adaptations. */
module RateLimits {
  import opened Basics

  /** Go durations, in nanoseconds. */
  const MINUTE := 60_000_000_000
  const HOUR := 60 * MINUTE
  const DAY := 24 * HOUR

  datatype Limits = Limits(perMinute: int, perHour: int, perDay: int, burst: int)

  datatype Limiter = Limiter(max: Limits, perMinute: seq<int>, perHour: seq<int>, perDay: seq<int>, burstCredit: int)

  datatype Verdict = Refused | Allowed | AllowedAsBurst

  /** prune keeps the times after the cutoff, in order. */
  function Prune(times: seq<int>, cutoff: int): seq<int> {
    if times == [] then []
    else if times[0] > cutoff then [times[0]] + Prune(times[1..], cutoff)
    else Prune(times[1..], cutoff)
  }

  function PruneAll(l: Limiter, now: int): Limiter {
    l.(perMinute := Prune(l.perMinute, now - MINUTE),
       perHour := Prune(l.perHour, now - HOUR),
       perDay := Prune(l.perDay, now - DAY))
  }

  function VerdictOf(l: Limiter): Verdict {
    if |l.perDay| >= l.max.perDay || |l.perHour| >= l.max.perHour then Refused
    else if |l.perMinute| < l.max.perMinute then Allowed
    else if l.burstCredit < l.max.burst then AllowedAsBurst
    else Refused
  }

  /** canSend: a burst credit, once used, never comes back. */
  function AfterCheck(l: Limiter, now: int): Limiter {
    var p := PruneAll(l, now);
    if VerdictOf(p) == AllowedAsBurst then p.(burstCredit := p.burstCredit + 1) else p
  }

  function AfterRecord(l: Limiter, now: int): Limiter {
    l.(perMinute := l.perMinute + [now], perHour := l.perHour + [now], perDay := l.perDay + [now])
  }

  /** int(float64(limit) * factor): Go truncates toward zero. */
  function Scale(limit: int, factor: real): int {
    if limit >= 0 then (limit as real * factor).Floor else -((-limit) as real * factor).Floor
  }

  function Clamp(factor: real): (r: real)
    ensures 0.1 <= r <= 1.0
  {
    if factor < 0.1 then 0.1 else if factor > 1.0 then 1.0 else factor
  }

  function Adapted(max: Limits, factor: real): Limits {
    max.(perMinute := Scale(max.perMinute, Clamp(factor)),
         perHour := Scale(max.perHour, Clamp(factor)),
         perDay := Scale(max.perDay, Clamp(factor)))
  }

  // ---- Runs

  /** What was true when a send was allowed: the time, how many sends were recorded, and which permits were in flight. */
  datatype Permit = Permit(granted: int, seen: nat, others: set<nat>, burst: bool)

  datatype Sent = Sent(id: nat, at: int, permit: Permit)

  datatype World = World(limiter: Limiter, log: seq<Sent>, inFlight: map<nat, Permit>, grants: nat, bursts: set<nat>,
                         lastCheck: int, now: int)

  function Start(max: Limits, now: int): World {
    World(Limiter(max, [], [], [], 0), [], map[], 0, {}, now, now)
  }

  datatype Event = Check(now: int) | Record(id: nat, now: int) | Abandon(id: nat) | Adapt(factor: real)

  /** The clock never goes back, and every recorded send has its own successful check. */
  predicate Enabled(w: World, e: Event) {
    match e
    case Check(now) => now >= w.now
    case Record(id, now) => now >= w.now && id in w.inFlight
    case Abandon(id) => id in w.inFlight
    case Adapt(_) => true
  }

  function Next(w: World, e: Event): World
    requires Enabled(w, e)
  {
    match e
    case Check(now) =>
      var v := VerdictOf(PruneAll(w.limiter, now));
      var t := w.(limiter := AfterCheck(w.limiter, now), lastCheck := now, now := now);
      if v == Refused then t
      else t.(inFlight := w.inFlight[w.grants := Permit(now, |w.log|, w.inFlight.Keys, v == AllowedAsBurst)],
              grants := w.grants + 1,
              bursts := if v == AllowedAsBurst then w.bursts + {w.grants} else w.bursts)
    case Record(id, now) =>
      w.(limiter := AfterRecord(w.limiter, now), log := w.log + [Sent(id, now, w.inFlight[id])],
         inFlight := w.inFlight - {id}, now := now)
    case Abandon(id) => w.(inFlight := w.inFlight - {id})
    case Adapt(factor) => w.(limiter := w.limiter.(max := Adapted(w.limiter.max, factor)))
  }

  /** A run in which never more than k sends are between their check and their record. */
  predicate IsRun(k: nat, w: World, events: seq<Event>)
    decreases events
  {
    events == [] ||
    (Enabled(w, events[0]) && |Next(w, events[0]).inFlight| <= k && IsRun(k, Next(w, events[0]), events[1..]))
  }

  function Final(k: nat, w: World, events: seq<Event>): World
    requires IsRun(k, w, events)
    decreases events
  {
    if events == [] then w else Final(k, Next(w, events[0]), events[1..])
  }

  // ---- What the lists hold

  function Times(log: seq<Sent>): (r: seq<int>)
    ensures |r| == |log|
  {
    seq(|log|, i requires 0 <= i < |log| => log[i].at)
  }

  lemma {:induction false} PruneAgain(times: seq<int>, a: int, b: int)
    requires a <= b
    ensures Prune(Prune(times, a), b) == Prune(times, b)
  {
    if times != [] {
      PruneAgain(times[1..], a, b);
    }
  }

  /** The indices whose times lie after the cutoff. */
  function Since(times: seq<int>, cutoff: int): set<nat> {
    set i: nat | i < |times| && times[i] > cutoff
  }

  lemma {:induction false} PruneCounts(times: seq<int>, cutoff: int)
    ensures |Prune(times, cutoff)| == |Since(times, cutoff)|
  {
    if times == [] {
      assert Since(times, cutoff) == {};
    } else {
      var last := |times| - 1;
      PruneCounts(times[..last], cutoff);
      assert times == times[..last] + [times[last]];
      PruneLast(times[..last], times[last], cutoff);
      assert Since(times, cutoff)
          == Since(times[..last], cutoff) + if times[last] > cutoff then {last} else {};
    }
  }

  lemma {:induction false} PruneLast(times: seq<int>, t: int, cutoff: int)
    ensures Prune(times + [t], cutoff) == Prune(times, cutoff) + if t > cutoff then [t] else []
  {
    if times != [] {
      assert (times + [t])[1..] == times[1..] + [t];
      PruneLast(times[1..], t, cutoff);
    }
  }

  // ---- The invariant

  function AtLeastZero(x: int): nat {
    if x < 0 then 0 else x
  }

  /** Of the first n recorded sends, those after the cutoff. */
  function Before(log: seq<Sent>, n: nat, cutoff: int): set<nat>
    requires n <= |log|
  {
    set i: nat | i < n && log[i].at > cutoff
  }

  predicate ListsAreRight(w: World) {
    && w.lastCheck <= w.now
    && (forall i :: 0 <= i < |w.log| ==> w.log[i].at <= w.now)
    && w.limiter.perMinute == Prune(Times(w.log), w.lastCheck - MINUTE)
    && w.limiter.perHour == Prune(Times(w.log), w.lastCheck - HOUR)
    && w.limiter.perDay == Prune(Times(w.log), w.lastCheck - DAY)
  }

  predicate NoHigher(max: Limits, first: Limits) {
    && max.perMinute <= AtLeastZero(first.perMinute)
    && max.perHour <= AtLeastZero(first.perHour)
    && max.perDay <= AtLeastZero(first.perDay)
    && max.burst == first.burst
  }

  /** The permit was given while there was room. */
  predicate HadRoom(first: Limits, log: seq<Sent>, p: Permit) {
    && p.seen <= |log|
    && |Before(log, p.seen, p.granted - HOUR)| < AtLeastZero(first.perHour)
    && |Before(log, p.seen, p.granted - DAY)| < AtLeastZero(first.perDay)
    && (!p.burst ==> |Before(log, p.seen, p.granted - MINUTE)| < AtLeastZero(first.perMinute))
  }

  /** Every earlier permit was recorded before this one was given, or was one of fewer than k in flight. */
  predicate KnowsEarlier(k: nat, log: seq<Sent>, id: nat, p: Permit) {
    && |p.others| < k
    && forall i :: 0 <= i < |log| && log[i].id < id ==> i < p.seen || log[i].id in p.others
  }

  predicate PermitIsRight(k: nat, first: Limits, w: World, id: nat, p: Permit) {
    && id < w.grants && p.granted <= w.now
    && (p.burst <==> id in w.bursts)
    && HadRoom(first, w.log, p) && KnowsEarlier(k, w.log, id, p)
    && forall other :: other in w.inFlight && other < id ==> other in p.others
  }

  predicate IDsAreFresh(w: World) {
    && (forall id :: id in w.inFlight ==> id < w.grants)
    && (forall i :: 0 <= i < |w.log| ==> w.log[i].id < w.grants && w.log[i].id !in w.inFlight)
    && (forall i, j :: 0 <= i < j < |w.log| ==> w.log[i].id != w.log[j].id)
    && (forall id :: id in w.bursts ==> id < w.grants)
  }

  predicate PermitsAreRight(k: nat, first: Limits, w: World) {
    && (forall id :: id in w.inFlight ==> PermitIsRight(k, first, w, id, w.inFlight[id]))
    && (forall i :: 0 <= i < |w.log| ==>
         PermitIsRight(k, first, w, w.log[i].id, w.log[i].permit) && w.log[i].permit.granted <= w.log[i].at)
  }

  predicate Inv(k: nat, first: Limits, w: World) {
    && ListsAreRight(w) && NoHigher(w.limiter.max, first) && IDsAreFresh(w) && PermitsAreRight(k, first, w)
    && |w.bursts| == w.limiter.burstCredit <= AtLeastZero(first.burst)
  }

  lemma ListsAfterCheck(w: World, now: int)
    requires ListsAreRight(w) && now >= w.now
    ensures ListsAreRight(Next(w, Check(now)))
    ensures var p := PruneAll(w.limiter, now);
      && p.perMinute == Prune(Times(w.log), now - MINUTE) && p.perHour == Prune(Times(w.log), now - HOUR)
      && p.perDay == Prune(Times(w.log), now - DAY)
  {
    PruneAgain(Times(w.log), w.lastCheck - MINUTE, now - MINUTE);
    PruneAgain(Times(w.log), w.lastCheck - HOUR, now - HOUR);
    PruneAgain(Times(w.log), w.lastCheck - DAY, now - DAY);
    hide Prune;
  }

  lemma ListsAfterRecord(w: World, id: nat, now: int)
    requires ListsAreRight(w) && now >= w.now && id in w.inFlight
    ensures ListsAreRight(Next(w, Record(id, now)))
  {
    var t := Next(w, Record(id, now));
    assert Times(t.log) == Times(w.log) + [now];
    PruneLast(Times(w.log), now, w.lastCheck - MINUTE);
    PruneLast(Times(w.log), now, w.lastCheck - HOUR);
    PruneLast(Times(w.log), now, w.lastCheck - DAY);
    hide Prune, Times;
  }

  lemma CountAll(log: seq<Sent>, cutoff: int)
    ensures |Prune(Times(log), cutoff)| == |Before(log, |log|, cutoff)|
  {
    PruneCounts(Times(log), cutoff);
    assert Since(Times(log), cutoff) == Before(log, |log|, cutoff);
  }

  /** A permit stays right as long as its own number, the log it saw and the earlier ones in flight do. */
  lemma PermitStays(k: nat, first: Limits, w: World, t: World, id: nat, p: Permit)
    requires PermitIsRight(k, first, w, id, p)
    requires w.log <= t.log && t.grants >= w.grants && t.now >= w.now
    requires id in t.bursts <==> id in w.bursts
    requires forall other :: other in t.inFlight && other < id ==> other in w.inFlight
    requires forall i :: |w.log| <= i < |t.log| && t.log[i].id < id ==> t.log[i].id in w.inFlight
    ensures PermitIsRight(k, first, t, id, p)
  {
    RoomStays(first, w.log, t.log, p);
    hide HadRoom;
    forall i | 0 <= i < |t.log| && t.log[i].id < id ensures i < p.seen || t.log[i].id in p.others {
      if i < |w.log| {
        assert w.log[i] == t.log[i];
      }
    }
  }

  lemma RoomStays(first: Limits, log: seq<Sent>, longer: seq<Sent>, p: Permit)
    requires HadRoom(first, log, p) && log <= longer
    ensures HadRoom(first, longer, p)
  {
    assert Before(longer, p.seen, p.granted - HOUR) == Before(log, p.seen, p.granted - HOUR);
    assert Before(longer, p.seen, p.granted - DAY) == Before(log, p.seen, p.granted - DAY);
    assert Before(longer, p.seen, p.granted - MINUTE) == Before(log, p.seen, p.granted - MINUTE);
  }

  /** New events concern no earlier permit: what is in flight was, or is new, and what is recorded was in flight. */
  predicate Follows(w: World, t: World) {
    && w.log <= t.log && t.grants >= w.grants && t.now >= w.now
    && (forall id :: 0 <= id < w.grants ==> (id in t.bursts <==> id in w.bursts))
    && (forall id :: id in t.inFlight && id < w.grants ==> id in w.inFlight)
    && (forall i :: |w.log| <= i < |t.log| ==> t.log[i].id in w.inFlight)
  }

  lemma OldPermitsStay(k: nat, first: Limits, w: World, t: World)
    requires PermitsAreRight(k, first, w) && IDsAreFresh(w) && Follows(w, t)
    ensures forall id :: id in w.inFlight ==> PermitIsRight(k, first, t, id, w.inFlight[id])
    ensures forall i :: 0 <= i < |w.log| ==> PermitIsRight(k, first, t, w.log[i].id, w.log[i].permit)
  {
    hide PermitIsRight;
    forall id | id in w.inFlight ensures PermitIsRight(k, first, t, id, w.inFlight[id]) {
      PermitStays(k, first, w, t, id, w.inFlight[id]);
    }
    forall i | 0 <= i < |w.log| ensures PermitIsRight(k, first, t, w.log[i].id, w.log[i].permit) {
      PermitStays(k, first, w, t, w.log[i].id, w.log[i].permit);
    }
  }

  lemma BookkeepingAfterCheck(first: Limits, w: World, now: int)
    requires IDsAreFresh(w) && NoHigher(w.limiter.max, first) && now >= w.now
    requires |w.bursts| == w.limiter.burstCredit <= AtLeastZero(first.burst)
    ensures var t := Next(w, Check(now));
      && IDsAreFresh(t) && NoHigher(t.limiter.max, first) && Follows(w, t)
      && |t.bursts| == t.limiter.burstCredit <= AtLeastZero(first.burst)
  {
    hide Prune;
  }

  lemma PermitsAfterCheck(k: nat, first: Limits, w: World, now: int)
    requires Inv(k, first, w) && now >= w.now && |Next(w, Check(now)).inFlight| <= k
    ensures PermitsAreRight(k, first, Next(w, Check(now)))
  {
    hide PermitIsRight, ListsAreRight, NoHigher, PruneAll, AfterCheck, VerdictOf, HadRoom, KnowsEarlier, Follows;
    var t := Next(w, Check(now));
    BookkeepingAfterCheck(first, w, now);
    OldPermitsStay(k, first, w, t);
    if VerdictOf(PruneAll(w.limiter, now)) != Refused {
      FlightGrows(w.inFlight, w.grants, t.inFlight[w.grants]);
      NewPermit(k, first, w, now);
      NewPermitIsRight(k, first, w, now);
    }
  }

  lemma CheckKeepsInv(k: nat, first: Limits, w: World, now: int)
    requires Inv(k, first, w) && now >= w.now && |Next(w, Check(now)).inFlight| <= k
    ensures Inv(k, first, Next(w, Check(now)))
  {
    hide PermitsAreRight, ListsAreRight, NoHigher, PruneAll, AfterCheck, VerdictOf, IDsAreFresh, Follows;
    BookkeepingAfterCheck(first, w, now);
    ListsAfterCheck(w, now);
    PermitsAfterCheck(k, first, w, now);
  }

  /** A check that succeeds found room in each window, or a burst credit in place of room in the minute. */
  lemma RoomAtCheck(first: Limits, w: World, now: int)
    requires ListsAreRight(w) && NoHigher(w.limiter.max, first) && now >= w.now
    requires VerdictOf(PruneAll(w.limiter, now)) != Refused
    ensures |Before(w.log, |w.log|, now - HOUR)| < AtLeastZero(first.perHour)
    ensures |Before(w.log, |w.log|, now - DAY)| < AtLeastZero(first.perDay)
    ensures VerdictOf(PruneAll(w.limiter, now)) == Allowed ==>
      |Before(w.log, |w.log|, now - MINUTE)| < AtLeastZero(first.perMinute)
  {
    hide Prune, Times, Before;
    ListsAfterCheck(w, now);
    CountAll(w.log, now - MINUTE);
    CountAll(w.log, now - HOUR);
    CountAll(w.log, now - DAY);
  }

  lemma FlightGrows(inFlight: map<nat, Permit>, id: nat, p: Permit)
    requires id !in inFlight
    ensures |inFlight[id := p]| == |inFlight| + 1
  {
    assert inFlight[id := p].Keys == inFlight.Keys + {id};
  }

  lemma NewPermit(k: nat, first: Limits, w: World, now: int)
    requires ListsAreRight(w) && NoHigher(w.limiter.max, first) && IDsAreFresh(w) && now >= w.now
    requires |w.inFlight| < k && VerdictOf(PruneAll(w.limiter, now)) != Refused
    ensures var p := Permit(now, |w.log|, w.inFlight.Keys, VerdictOf(PruneAll(w.limiter, now)) == AllowedAsBurst);
      HadRoom(first, w.log, p) && KnowsEarlier(k, w.log, w.grants, p)
  {
    hide Before, VerdictOf, ListsAreRight, PruneAll, NoHigher, IDsAreFresh;
    RoomAtCheck(first, w, now);
  }

  lemma NewPermitIsRight(k: nat, first: Limits, w: World, now: int)
    requires IDsAreFresh(w) && now >= w.now && VerdictOf(PruneAll(w.limiter, now)) != Refused
    requires var p := Permit(now, |w.log|, w.inFlight.Keys, VerdictOf(PruneAll(w.limiter, now)) == AllowedAsBurst);
      HadRoom(first, w.log, p) && KnowsEarlier(k, w.log, w.grants, p)
    ensures var t := Next(w, Check(now));
      w.grants in t.inFlight && PermitIsRight(k, first, t, w.grants, t.inFlight[w.grants])
  {
    hide VerdictOf, PruneAll, AfterCheck, HadRoom, KnowsEarlier;
  }

  lemma RecordKeepsInv(k: nat, first: Limits, w: World, id: nat, now: int)
    requires Inv(k, first, w) && now >= w.now && id in w.inFlight
    ensures Inv(k, first, Next(w, Record(id, now)))
  {
    hide Prune, Times, PermitIsRight, Before;
    var t := Next(w, Record(id, now));
    ListsAfterRecord(w, id, now);
    assert w.log <= t.log;
    OldPermitsStay(k, first, w, t);
    assert w.inFlight[id].granted <= w.now by {
      PermitTime(k, first, w, id, w.inFlight[id]);
    }
  }

  lemma PermitTime(k: nat, first: Limits, w: World, id: nat, p: Permit)
    requires PermitIsRight(k, first, w, id, p)
    ensures p.granted <= w.now
  {
  }

  lemma AbandonKeepsInv(k: nat, first: Limits, w: World, id: nat)
    requires Inv(k, first, w) && id in w.inFlight
    ensures Inv(k, first, Next(w, Abandon(id)))
  {
    hide Prune, Times, PermitIsRight, Before;
    var t := Next(w, Abandon(id));
    OldPermitsStay(k, first, w, t);
  }

  /** Scaling never raises a limit above what it was, or above zero if it was negative. */
  lemma ScaleLowers(limit: int, factor: real)
    requires 0.0 <= factor <= 1.0
    ensures Scale(limit, factor) <= AtLeastZero(limit)
    ensures limit >= 0 ==> Scale(limit, factor) <= limit
  {
    if limit >= 0 {
      ProductLowers(limit as real, factor);
    } else {
      ProductLowers(-limit as real, factor);
    }
  }

  lemma ProductLowers(x: real, factor: real)
    requires x >= 0.0 && 0.0 <= factor <= 1.0
    ensures 0.0 <= x * factor <= x
  {
    assert x * (1.0 - factor) >= 0.0;
  }

  lemma AdaptKeepsInv(k: nat, first: Limits, w: World, factor: real)
    requires Inv(k, first, w)
    ensures Inv(k, first, Next(w, Adapt(factor)))
  {
    hide Prune, Times, PermitIsRight, Before, Scale;
    var t := Next(w, Adapt(factor));
    ScaleLowers(w.limiter.max.perMinute, Clamp(factor));
    ScaleLowers(w.limiter.max.perHour, Clamp(factor));
    ScaleLowers(w.limiter.max.perDay, Clamp(factor));
    OldPermitsStay(k, first, w, t);
  }

  lemma {:induction false} RunKeepsInv(k: nat, first: Limits, w: World, events: seq<Event>)
    requires Inv(k, first, w) && IsRun(k, w, events)
    ensures Inv(k, first, Final(k, w, events))
    decreases events
  {
    hide Inv, Next;
    if events != [] {
      match events[0] {
        case Check(now) => CheckKeepsInv(k, first, w, now);
        case Record(id, now) => RecordKeepsInv(k, first, w, id, now);
        case Abandon(id) => AbandonKeepsInv(k, first, w, id);
        case Adapt(factor) => AdaptKeepsInv(k, first, w, factor);
      }
      RunKeepsInv(k, first, Next(w, events[0]), events[1..]);
    }
  }

  // ---- Windows

  /** The recorded sends in the half-open window of the given length that ends at the given time. */
  function Window(log: seq<Sent>, end: int, length: int): set<nat> {
    set i: nat | i < |log| && end - length < log[i].at <= end
  }

  function IDs(log: seq<Sent>, s: set<nat>): set<nat>
    requires forall i :: i in s ==> i < |log|
  {
    set i | i in s :: log[i].id
  }

  predicate DistinctIDs(log: seq<Sent>) {
    forall i, j :: 0 <= i < j < |log| ==> log[i].id != log[j].id
  }

  lemma {:induction false} IDsInjective(log: seq<Sent>, s: set<nat>)
    requires DistinctIDs(log) && forall i :: i in s ==> i < |log|
    ensures |IDs(log, s)| == |s|
    decreases |s|
  {
    if s != {} {
      var i :| i in s;
      IDsInjective(log, s - {i});
      assert IDs(log, s) == IDs(log, s - {i}) + {log[i].id};
    }
  }

  lemma {:induction false} LatestOf(log: seq<Sent>, s: set<nat>) returns (m: nat)
    requires s != {} && forall i :: i in s ==> i < |log|
    ensures m in s && forall i :: i in s ==> log[i].id <= log[m].id
    decreases |s|
  {
    m :| m in s;
    if s != {m} {
      var other := LatestOf(log, s - {m});
      if log[other].id > log[m].id {
        m := other;
      }
    }
  }

  /** Of any sends later than the start, all but those in flight with the latest were recorded before its check. */
  lemma WindowBound(k: nat, log: seq<Sent>, s: set<nat>, m: nat, start: int)
    requires DistinctIDs(log) && m in s && m < |log|
    requires forall i :: i in s ==> i < |log| && log[i].at > start && log[i].id <= log[m].id
    requires log[m].permit.seen <= |log| && KnowsEarlier(k, log, log[m].id, log[m].permit)
    ensures |s| <= |Before(log, log[m].permit.seen, start)| + k
  {
    var p := log[m].permit;
    var earlier := Before(log, p.seen, start);
    var rest := s - earlier - {m};
    IDsInjective(log, rest);
    forall i | i in rest ensures log[i].id in p.others {
      assert i >= p.seen;
    }
    SubsetSize(IDs(log, rest), p.others);
    SubsetSize(s, earlier + rest + {m});
  }

  lemma BeforeShrinks(log: seq<Sent>, n: nat, a: int, b: int)
    requires n <= |log| && a <= b
    ensures |Before(log, n, b)| <= |Before(log, n, a)|
  {
    SubsetSize(Before(log, n, b), Before(log, n, a));
  }

  /** The latest of some sends, with what its permit guarantees. */
  lemma LatestPermit(k: nat, first: Limits, w: World, s: set<nat>) returns (m: nat)
    requires Inv(k, first, w) && s != {} && forall i :: i in s ==> i < |w.log|
    ensures m in s && forall i :: i in s ==> w.log[i].id <= w.log[m].id
    ensures HadRoom(first, w.log, w.log[m].permit) && KnowsEarlier(k, w.log, w.log[m].id, w.log[m].permit)
    ensures w.log[m].permit.granted <= w.log[m].at
  {
    m := LatestOf(w.log, s);
    hide HadRoom, KnowsEarlier, ListsAreRight, IDsAreFresh, NoHigher;
    assert PermitIsRight(k, first, w, w.log[m].id, w.log[m].permit);
  }

  lemma LogIDs(k: nat, first: Limits, w: World)
    requires Inv(k, first, w)
    ensures DistinctIDs(w.log)
  {
    hide ListsAreRight, PermitsAreRight, NoHigher;
  }

  /** An hour never holds more sends than the first limit, plus those in flight beside the latest. */
  lemma HourWindow(k: nat, first: Limits, w: World, end: int)
    requires Inv(k, first, w) && k > 0
    ensures |Window(w.log, end, HOUR)| <= AtLeastZero(first.perHour) + k - 1
  {
    hide Inv, KnowsEarlier, DistinctIDs, Before;
    var s := Window(w.log, end, HOUR);
    if s != {} {
      var m := LatestPermit(k, first, w, s);
      var p := w.log[m].permit;
      LogIDs(k, first, w);
      WindowBound(k, w.log, s, m, end - HOUR);
      BeforeShrinks(w.log, p.seen, p.granted - HOUR, end - HOUR);
    }
  }

  lemma DayWindow(k: nat, first: Limits, w: World, end: int)
    requires Inv(k, first, w) && k > 0
    ensures |Window(w.log, end, DAY)| <= AtLeastZero(first.perDay) + k - 1
  {
    hide Inv, KnowsEarlier, DistinctIDs, Before;
    var s := Window(w.log, end, DAY);
    if s != {} {
      var m := LatestPermit(k, first, w, s);
      var p := w.log[m].permit;
      LogIDs(k, first, w);
      WindowBound(k, w.log, s, m, end - DAY);
      BeforeShrinks(w.log, p.seen, p.granted - DAY, end - DAY);
    }
  }

  /** The sends that were allowed as bursts: never more than the allowance, in any window. */
  lemma BurstsAreBounded(k: nat, first: Limits, w: World, s: set<nat>)
    requires Inv(k, first, w) && forall i :: i in s ==> i < |w.log| && w.log[i].permit.burst
    ensures |s| <= AtLeastZero(first.burst)
  {
    LogIDs(k, first, w);
    hide HadRoom, KnowsEarlier, ListsAreRight, IDsAreFresh, NoHigher, DistinctIDs;
    forall i | i in s ensures w.log[i].id in w.bursts {
      assert PermitIsRight(k, first, w, w.log[i].id, w.log[i].permit);
    }
    IDsInjective(w.log, s);
    SubsetSize(IDs(w.log, s), w.bursts);
  }

  /** Of sends in one minute, those that were allowed plainly keep to the first limit. */
  lemma PlainSends(k: nat, first: Limits, w: World, end: int, plain: set<nat>)
    requires Inv(k, first, w) && k > 0
    requires forall i :: i in plain ==> i in Window(w.log, end, MINUTE) && !w.log[i].permit.burst
    ensures |plain| <= AtLeastZero(first.perMinute) + k - 1
  {
    hide Inv, KnowsEarlier, DistinctIDs, Before;
    if plain != {} {
      var m := LatestPermit(k, first, w, plain);
      var p := w.log[m].permit;
      LogIDs(k, first, w);
      WindowBound(k, w.log, plain, m, end - MINUTE);
      BeforeShrinks(w.log, p.seen, p.granted - MINUTE, end - MINUTE);
    }
  }

  /** A minute holds at most the first limit and every burst credit there is, plus those in flight beside the latest. */
  lemma MinuteWindow(k: nat, first: Limits, w: World, end: int)
    requires Inv(k, first, w) && k > 0
    ensures |Window(w.log, end, MINUTE)| <= AtLeastZero(first.perMinute) + AtLeastZero(first.burst) + k - 1
  {
    hide Inv;
    var all := Window(w.log, end, MINUTE);
    var bursts := set i | i in all && w.log[i].permit.burst;
    BurstsAreBounded(k, first, w, bursts);
    PlainSends(k, first, w, end, all - bursts);
    assert all == (all - bursts) + bursts;
  }

  /**
   Whatever the run of checks, recorded sends, abandoned sends and adaptations, with at most k sends between their check
   and their record: every window of an hour or a day stays within the first limit, and every minute within the first
   limit and the burst allowance, but for the k - 1 sends that may be in flight beside the latest one.
   */
  lemma WindowsAreBounded(k: nat, first: Limits, start: int, events: seq<Event>, end: int)
    requires k > 0 && IsRun(k, Start(first, start), events)
    ensures var log := Final(k, Start(first, start), events).log;
      && |Window(log, end, HOUR)| <= AtLeastZero(first.perHour) + k - 1
      && |Window(log, end, DAY)| <= AtLeastZero(first.perDay) + k - 1
      && |Window(log, end, MINUTE)| <= AtLeastZero(first.perMinute) + AtLeastZero(first.burst) + k - 1
  {
    var w := Start(first, start);
    assert Times([]) == [];
    assert Inv(k, first, w);
    hide Inv, Window, IsRun, Final;
    RunKeepsInv(k, first, w, events);
    HourWindow(k, first, Final(k, w, events), end);
    DayWindow(k, first, Final(k, w, events), end);
    MinuteWindow(k, first, Final(k, w, events), end);
  }
}
