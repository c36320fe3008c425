/** The bounds on the windows are met: for every number of sends in flight there is a run that fills each window. */
module RateLimitTightness {
  import opened Basics
  import opened RateLimits

  // ---- A timetable

  /** As many sends an hour, and as many of them a minute, from the start of each hour. */
  datatype Timetable = Timetable(start: int, perHour: nat, perMinute: nat) {
    predicate Valid() {
      0 < perMinute && 0 < perHour <= 60 * perMinute
    }

    /** When the i-th send is due. */
    function Slot(i: nat): int
      requires Valid()
    {
      start + i / perHour * HOUR + i % perHour / perMinute * MINUTE
    }

    /** How many sends are due before the i-th in its minute. */
    function InMinute(i: nat): (q: nat)
      requires Valid()
      ensures q < perMinute && q <= i
    {
      ModAtMost(i, perHour);
      ModAtMost(i % perHour, perMinute);
      i % perHour % perMinute
    }
  }

  lemma ModAtMost(x: nat, d: int)
    requires d > 0
    ensures 0 <= x % d <= x
  {
    assert x == x / d * d + x % d;
  }

  lemma ProductGrows(a: int, b: int, d: int)
    requires d > 0
    ensures a >= b ==> a * d >= b * d
  {
    if a >= b {
      assert (a - b) * d >= 0;
    }
  }

  lemma DivMod(x: int, d: int, q: int, r: int)
    requires d > 0 && x == q * d + r && 0 <= r < d
    ensures x / d == q && x % d == r
  {
    assert x == x / d * d + x % d;
    ProductGrows(x / d, q + 1, d);
    ProductGrows(q - 1, x / d, d);
  }

  lemma DivBelow(x: nat, d: int, n: int)
    requires d > 0 && x < n * d
    ensures 0 <= x / d < n
  {
    assert x == x / d * d + x % d;
    ProductGrows(x / d, n, d);
  }

  /** The next number: one more in the remainder, or one more in the quotient. */
  lemma DivNext(x: nat, d: int)
    requires d > 0
    ensures if x % d + 1 < d then (x + 1) / d == x / d && (x + 1) % d == x % d + 1
            else (x + 1) / d == x / d + 1 && (x + 1) % d == 0
  {
    var q, r := x / d, x % d;
    assert x == q * d + r;
    if r + 1 < d {
      DivMod(x + 1, d, q, r + 1);
    } else {
      assert (q + 1) * d == q * d + d;
      DivMod(x + 1, d, q + 1, 0);
    }
  }

  lemma MinuteOfHour(d: Timetable, i: nat)
    requires d.Valid()
    ensures 0 <= i % d.perHour / d.perMinute < 60
  {
    DivBelow(i % d.perHour, d.perMinute, 60);
  }

  /** The next send is due in the same minute, or at least a minute later. */
  lemma NextSlot(d: Timetable, i: nat)
    requires d.Valid()
    ensures if d.InMinute(i + 1) > 0 then d.Slot(i + 1) == d.Slot(i) && d.InMinute(i + 1) == d.InMinute(i) + 1
            else d.Slot(i + 1) >= d.Slot(i) + MINUTE
  {
    DivNext(i, d.perHour);
    MinuteOfHour(d, i);
    if i % d.perHour + 1 < d.perHour {
      DivNext(i % d.perHour, d.perMinute);
    }
  }

  lemma {:induction false} SlotsIncrease(d: Timetable, i: nat, j: nat)
    requires d.Valid() && i <= j
    ensures d.Slot(i) <= d.Slot(j)
    decreases j
  {
    if i < j {
      SlotsIncrease(d, i, j - 1);
      NextSlot(d, j - 1);
    }
  }

  /** The sends due in the same minute as the j-th. */
  lemma {:induction false} SameMinute(d: Timetable, i: nat, j: nat)
    requires d.Valid() && i <= j
    ensures d.Slot(i) > d.Slot(j) - MINUTE <==> i + d.InMinute(j) >= j
    ensures i + d.InMinute(j) >= j ==> d.Slot(i) == d.Slot(j)
    decreases j
  {
    if i < j {
      NextSlot(d, j - 1);
      SlotsIncrease(d, i, j - 1);
      SameMinute(d, i, j - 1);
    }
  }

  /** An hour earlier the timetable was as many sends behind as are due in an hour. */
  lemma HourEarlier(d: Timetable, i: nat)
    requires d.Valid() && i >= d.perHour
    ensures d.Slot(i - d.perHour) == d.Slot(i) - HOUR
  {
    var q, r := i / d.perHour, i % d.perHour;
    assert i - d.perHour == (q - 1) * d.perHour + r;
    DivMod(i - d.perHour, d.perHour, q - 1, r);
  }

  lemma FirstHour(d: Timetable, i: nat)
    requires d.Valid() && i < d.perHour
    ensures d.start <= d.Slot(i) < d.start + HOUR && (i < d.perMinute ==> d.Slot(i) == d.start && d.InMinute(i) == i)
  {
    DivMod(i, d.perHour, 0, i);
    MinuteOfHour(d, i);
    if i < d.perMinute {
      DivMod(i, d.perMinute, 0, i);
    }
  }

  lemma FirstDay(d: Timetable, i: nat)
    requires d.Valid() && i < 24 * d.perHour
    ensures d.start <= d.Slot(i) < d.start + DAY
  {
    MinuteOfHour(d, i);
    DivBelow(i, d.perHour, 24);
    SlotBounds(d.start, i / d.perHour, i % d.perHour / d.perMinute);
  }

  lemma SlotBounds(start: int, hours: int, minutes: int)
    requires 0 <= hours < 24 && 0 <= minutes < 60
    ensures start <= start + hours * HOUR + minutes * MINUTE < start + DAY
  {
  }

  // ---- Runs that keep to it

  predicate Between(lo: nat, i: nat, hi: nat) {
    lo <= i < hi
  }

  function Range(lo: nat, hi: nat): set<nat> {
    set i: nat | i < hi && Between(lo, i, hi)
  }

  lemma {:induction false} RangeSize(lo: nat, hi: nat)
    requires lo <= hi
    ensures |Range(lo, hi)| == hi - lo
    decreases hi - lo
  {
    if lo < hi {
      RangeSize(lo, hi - 1);
      assert Range(lo, hi) == Range(lo, hi - 1) + {hi - 1};
    } else {
      assert Range(lo, hi) == {};
    }
  }

  /** The first m sends were recorded when due and the others of the log at the m-th slot. */
  ghost predicate Keeps(d: Timetable, m: nat, log: seq<Sent>)
    requires d.Valid()
  {
    && m <= |log|
    && (forall i :: 0 <= i < m ==> log[i].at == d.Slot(i))
    && (forall i :: m <= i < |log| ==> log[i].at == d.Slot(m))
  }

  /** It is at most the m-th slot; b credits are used and the permits from lo to hi in flight. */
  ghost predicate At(w: World, d: Timetable, max: Limits, m: nat, b: nat, lo: nat, hi: nat) {
    && d.Valid() && Keeps(d, m, w.log)
    && ListsAreRight(w) && w.limiter.max == max && w.limiter.burstCredit == b
    && w.now <= d.Slot(m)
    && lo <= hi && w.grants == hi && w.inFlight.Keys == Range(lo, hi)
  }

  lemma MinuteCount(d: Timetable, m: nat, log: seq<Sent>)
    requires d.Valid() && Keeps(d, m, log)
    ensures |Before(log, |log|, d.Slot(m) - MINUTE)| == |log| - m + d.InMinute(m)
  {
    var first := m - d.InMinute(m);
    forall i: nat | i < m ensures d.Slot(i) > d.Slot(m) - MINUTE <==> first <= i {
      SameMinute(d, i, m);
    }
    hide d.Slot, d.InMinute;
    assert Before(log, |log|, d.Slot(m) - MINUTE) == Range(first, |log|);
    RangeSize(first, |log|);
  }

  /** Of the sends before the m-th fewer than an hour's lie in the hour before it. */
  lemma HourCount(d: Timetable, m: nat, log: seq<Sent>)
    requires d.Valid() && Keeps(d, m, log)
    ensures |Before(log, |log|, d.Slot(m) - HOUR)| <= if m < d.perHour then |log| else |log| - m + d.perHour - 1
  {
    var first := if m < d.perHour then 0 else m - d.perHour + 1;
    forall i: nat | i < first ensures d.Slot(i) <= d.Slot(m) - HOUR {
      HourEarlier(d, m);
      SlotsIncrease(d, i, m - d.perHour);
    }
    hide d.Slot, d.InMinute;
    assert Before(log, |log|, d.Slot(m) - HOUR) <= Range(first, |log|);
    RangeSize(first, |log|);
    SubsetSize(Before(log, |log|, d.Slot(m) - HOUR), Range(first, |log|));
  }

  lemma DayCount(log: seq<Sent>, cutoff: int)
    ensures |Before(log, |log|, cutoff)| <= |log|
  {
    RangeSize(0, |log|);
    assert Before(log, |log|, cutoff) <= Range(0, |log|);
    SubsetSize(Before(log, |log|, cutoff), Range(0, |log|));
  }

  /** There is room in the hour and the day, and in the minute or on a credit. */
  ghost predicate Room(d: Timetable, max: Limits, m: nat, n: nat, b: nat)
    requires d.Valid() && m <= n
  {
    && (if m < d.perHour then n else n - m + d.perHour - 1) < max.perHour
    && n < max.perDay
    && (n - m + d.InMinute(m) < max.perMinute || b < max.burst)
  }

  /** The credits used after a check at the m-th slot. */
  ghost function CreditsAfter(d: Timetable, max: Limits, m: nat, n: nat, b: nat): nat
    requires d.Valid() && m <= n
  {
    if n - m + d.InMinute(m) < max.perMinute then b else b + 1
  }

  /** What the lists hold at a check, for the lists of the limiter and a log that agrees with them. */
  lemma ListsAtCheck(w: World, now: int)
    requires ListsAreRight(w) && now >= w.now
    ensures var p := PruneAll(w.limiter, now);
      && |p.perMinute| == |Before(w.log, |w.log|, now - MINUTE)|
      && |p.perHour| == |Before(w.log, |w.log|, now - HOUR)|
      && |p.perDay| == |Before(w.log, |w.log|, now - DAY)|
  {
    ListsAfterCheck(w, now);
    CountAll(w.log, now - MINUTE);
    CountAll(w.log, now - HOUR);
    CountAll(w.log, now - DAY);
    hide Prune, Times, Before, ListsAreRight;
  }

  lemma VerdictAt(w: World, d: Timetable, max: Limits, m: nat, b: nat, lo: nat, hi: nat)
    requires At(w, d, max, m, b, lo, hi) && Room(d, max, m, |w.log|, b)
    ensures VerdictOf(PruneAll(w.limiter, d.Slot(m))) ==
      if CreditsAfter(d, max, m, |w.log|, b) == b then Allowed else AllowedAsBurst
  {
    hide Prune, Before, Range, Keeps, ListsAreRight, d.Slot, d.InMinute;
    ListsAtCheck(w, d.Slot(m));
    MinuteCount(d, m, w.log);
    HourCount(d, m, w.log);
    DayCount(w.log, d.Slot(m) - DAY);
  }

  lemma CheckAt(w: World, d: Timetable, max: Limits, m: nat, b: nat, lo: nat, hi: nat)
    requires At(w, d, max, m, b, lo, hi) && Room(d, max, m, |w.log|, b)
    ensures var t := Next(w, Check(d.Slot(m)));
      t.log == w.log && At(t, d, max, m, CreditsAfter(d, max, m, |w.log|, b), lo, hi + 1)
  {
    VerdictAt(w, d, max, m, b, lo, hi);
    ListsAfterCheck(w, d.Slot(m));
    hide Prune, VerdictOf, Keeps, ListsAreRight, Room, d.Slot, d.InMinute;
    assert Range(lo, hi) + {hi} == Range(lo, hi + 1);
  }

  lemma RecordAt(w: World, d: Timetable, max: Limits, m: nat, b: nat, lo: nat, hi: nat)
    requires At(w, d, max, m, b, lo, hi) && lo < hi
    ensures Enabled(w, Record(lo, d.Slot(m)))
    ensures var t := Next(w, Record(lo, d.Slot(m)));
      |t.log| == |w.log| + 1 && At(t, d, max, m, b, lo + 1, hi)
  {
    assert Between(lo, lo, hi) && lo in Range(lo, hi);
    ListsAfterRecord(w, lo, d.Slot(m));
    assert Range(lo, hi) - {lo} == Range(lo + 1, hi);
    hide Range, ListsAreRight, d.Slot, d.InMinute;
  }

  /** With one send recorded at its slot, the next one is due. */
  lemma NextDue(w: World, d: Timetable, max: Limits, m: nat, b: nat, lo: nat, hi: nat)
    requires At(w, d, max, m, b, lo, hi) && |w.log| == m + 1
    ensures At(w, d, max, m + 1, b, lo, hi)
  {
    SlotsIncrease(d, m, m + 1);
    hide Range, ListsAreRight, d.Slot, d.InMinute;
  }

  lemma InFlightAt(w: World, d: Timetable, max: Limits, m: nat, b: nat, lo: nat, hi: nat)
    requires At(w, d, max, m, b, lo, hi)
    ensures |w.inFlight| == hi - lo
  {
    RangeSize(lo, hi);
    hide Range, Keeps, ListsAreRight;
    assert |w.inFlight| == |w.inFlight.Keys|;
  }

  lemma {:induction false} RunAppend(k: nat, w: World, a: seq<Event>, b: seq<Event>)
    requires IsRun(k, w, a) && IsRun(k, Final(k, w, a), b)
    ensures IsRun(k, w, a + b) && Final(k, w, a + b) == Final(k, Final(k, w, a), b)
    decreases a
  {
    hide Next, Enabled;
    if a == [] {
      assert a + b == b;
    } else {
      assert (a + b)[1..] == a[1..] + b;
      RunAppend(k, Next(w, a[0]), a[1..], b);
    }
  }

  lemma NoEvents(k: nat, w: World)
    ensures IsRun(k, w, []) && Final(k, w, []) == w
  {
  }

  lemma OneEvent(k: nat, w: World, e: Event)
    requires Enabled(w, e) && |Next(w, e).inFlight| <= k
    ensures IsRun(k, w, [e]) && Final(k, w, [e]) == Next(w, e)
  {
    assert [e][1..] == [];
  }

  lemma AtSlot(w: World, d: Timetable, max: Limits, m: nat, b: nat, lo: nat, hi: nat)
    requires At(w, d, max, m, b, lo, hi)
    ensures d.Valid() && m <= |w.log| && w.now <= d.Slot(m) && lo <= hi
  {
  }

  lemma OneCheck(k: nat, w: World, d: Timetable, max: Limits, m: nat, b: nat, lo: nat, hi: nat) returns (es: seq<Event>)
    requires At(w, d, max, m, b, lo, hi) && Room(d, max, m, |w.log|, b) && hi < lo + k
    ensures IsRun(k, w, es) && Final(k, w, es).log == w.log
    ensures At(Final(k, w, es), d, max, m, CreditsAfter(d, max, m, |w.log|, b), lo, hi + 1)
  {
    hide At, Next, Room, CreditsAfter;
    AtSlot(w, d, max, m, b, lo, hi);
    CheckAt(w, d, max, m, b, lo, hi);
    var e := Check(d.Slot(m));
    InFlightAt(Next(w, e), d, max, m, CreditsAfter(d, max, m, |w.log|, b), lo, hi + 1);
    OneEvent(k, w, e);
    es := [e];
  }

  lemma OneRecord(k: nat, w: World, d: Timetable, max: Limits, m: nat, b: nat, lo: nat, hi: nat) returns (es: seq<Event>)
    requires At(w, d, max, m, b, lo, hi) && lo < hi <= lo + k
    ensures IsRun(k, w, es) && |Final(k, w, es).log| == |w.log| + 1
    ensures At(Final(k, w, es), d, max, m, b, lo + 1, hi)
  {
    hide At, Next;
    AtSlot(w, d, max, m, b, lo, hi);
    RecordAt(w, d, max, m, b, lo, hi);
    var e := Record(lo, d.Slot(m));
    InFlightAt(Next(w, e), d, max, m, b, lo + 1, hi);
    OneEvent(k, w, e);
    es := [e];
  }

  /** j plain checks in a row. */
  lemma {:induction false} Checks(k: nat, w: World, d: Timetable, max: Limits, m: nat, lo: nat, hi: nat, j: nat) returns (es: seq<Event>)
    requires At(w, d, max, m, 0, lo, hi) && Room(d, max, m, |w.log|, 0) && hi + j <= lo + k
    requires CreditsAfter(d, max, m, |w.log|, 0) == 0
    ensures IsRun(k, w, es) && Final(k, w, es).log == w.log && At(Final(k, w, es), d, max, m, 0, lo, hi + j)
    decreases j
  {
    hide At, Room, CreditsAfter, IsRun, Final;
    NoEvents(k, w);
    es := [];
    if j > 0 {
      var one := OneCheck(k, w, d, max, m, 0, lo, hi);
      var rest := Checks(k, Final(k, w, one), d, max, m, lo, hi + 1, j - 1);
      RunAppend(k, w, one, rest);
      es := one + rest;
    }
  }

  /** j records in a row, of the oldest permits in flight. */
  lemma {:induction false} Records(k: nat, w: World, d: Timetable, max: Limits, m: nat, b: nat, lo: nat, hi: nat, j: nat)
    returns (es: seq<Event>)
    requires At(w, d, max, m, b, lo, hi) && lo + j <= hi <= lo + k
    ensures IsRun(k, w, es) && |Final(k, w, es).log| == |w.log| + j && At(Final(k, w, es), d, max, m, b, lo + j, hi)
    decreases j
  {
    hide At, IsRun, Final;
    NoEvents(k, w);
    es := [];
    if j > 0 {
      var one := OneRecord(k, w, d, max, m, b, lo, hi);
      var rest := Records(k, Final(k, w, one), d, max, m, b, lo + 1, hi, j - 1);
      RunAppend(k, w, one, rest);
      es := one + rest;
    }
  }

  /** The timetable asks for no more than the limits allow. */
  predicate Within(d: Timetable, max: Limits) {
    d.Valid() && d.perMinute == max.perMinute && d.perHour <= max.perHour
  }

  lemma DueHasRoom(d: Timetable, max: Limits, m: nat, b: nat)
    requires Within(d, max) && m < max.perDay
    ensures Room(d, max, m, m, b) && CreditsAfter(d, max, m, m, b) == b
  {
  }

  /** Sends up to the m-th, each recorded when due and before the next check. */
  lemma {:induction false} Sends(k: nat, max: Limits, d: Timetable, m: nat) returns (es: seq<Event>)
    requires k > 0 && Within(d, max) && m <= max.perDay
    ensures IsRun(k, Start(max, d.start), es)
    ensures var w := Final(k, Start(max, d.start), es); |w.log| == m && At(w, d, max, m, 0, m, m)
    decreases m
  {
    hide At, Within, Room, CreditsAfter, Start, IsRun, Final;
    var w0 := Start(max, d.start);
    NoEvents(k, w0);
    es := [];
    if m == 0 {
      StartAt(max, d);
    } else {
      var front := Sends(k, max, d, m - 1);
      var w1 := Final(k, w0, front);
      DueHasRoom(d, max, m - 1, 0);
      var check := OneCheck(k, w1, d, max, m - 1, 0, m - 1, m - 1);
      var w2 := Final(k, w1, check);
      var record := OneRecord(k, w2, d, max, m - 1, 0, m - 1, m);
      var w3 := Final(k, w2, record);
      NextDue(w3, d, max, m - 1, 0, m, m);
      RunAppend(k, w1, check, record);
      RunAppend(k, w0, front, check + record);
      es := front + (check + record);
    }
  }

  lemma StartAt(max: Limits, d: Timetable)
    requires Within(d, max)
    ensures var w := Start(max, d.start); |w.log| == 0 && At(w, d, max, 0, 0, 0, 0)
  {
    FirstHour(d, 0);
    hide d.Slot, d.InMinute;
    assert Times([]) == [];
    assert Range(0, 0) == {};
  }

  /** Sends up to the m-th, then k checks at its slot. */
  lemma SendThenCheck(k: nat, max: Limits, d: Timetable, m: nat) returns (es: seq<Event>)
    requires k > 0 && Within(d, max) && m < max.perDay
    ensures IsRun(k, Start(max, d.start), es)
    ensures var w := Final(k, Start(max, d.start), es); |w.log| == m && At(w, d, max, m, 0, m, m + k)
  {
    hide At, Within, Room, CreditsAfter, Start;
    var w0 := Start(max, d.start);
    var front := Sends(k, max, d, m);
    DueHasRoom(d, max, m, 0);
    var checks := Checks(k, Final(k, w0, front), d, max, m, m, m, k);
    RunAppend(k, w0, front, checks);
    es := front + checks;
  }

  /** The same, and then the records of all k. */
  lemma Overlap(k: nat, max: Limits, d: Timetable, m: nat) returns (es: seq<Event>)
    requires k > 0 && Within(d, max) && m < max.perDay
    ensures IsRun(k, Start(max, d.start), es)
    ensures var w := Final(k, Start(max, d.start), es); |w.log| == m + k && At(w, d, max, m, 0, m + k, m + k)
  {
    hide At, Within, Start;
    var w0 := Start(max, d.start);
    var front := SendThenCheck(k, max, d, m);
    var records := Records(k, Final(k, w0, front), d, max, m, 0, m, m + k, k);
    RunAppend(k, w0, front, records);
    es := front + records;
  }

  /** A window that reaches back beyond the start holds every send. */
  lemma WholeWindow(w: World, d: Timetable, max: Limits, m: nat, b: nat, lo: nat, hi: nat, length: int)
    requires At(w, d, max, m, b, lo, hi) && d.Slot(m) < d.start + length && d.start <= d.Slot(0)
    ensures |Window(w.log, d.Slot(m), length)| == |w.log|
  {
    forall i: nat | i <= m ensures d.start <= d.Slot(i) <= d.Slot(m) {
      SlotsIncrease(d, 0, i);
      SlotsIncrease(d, i, m);
    }
    hide d.Slot, d.InMinute, ListsAreRight;
    RangeSize(0, |w.log|);
    assert Window(w.log, d.Slot(m), length) == Range(0, |w.log|);
  }

  // ---- The bounds are met

  /**
   Whenever the minutes of an hour leave room for the hour limit, and the day does, there is for every k a run with at most
   k sends in flight in which an hour holds the limit and k - 1 more.
   */
  lemma HourBoundIsMet(k: nat, max: Limits, t: int) returns (es: seq<Event>, end: int)
    requires k > 0 && 0 < max.perHour <= 60 * max.perMinute && max.perHour <= max.perDay
    ensures IsRun(k, Start(max, t), es)
    ensures |Window(Final(k, Start(max, t), es).log, end, HOUR)| == max.perHour + k - 1
  {
    hide At, Start, Window;
    var d := Timetable(t, max.perHour, max.perMinute);
    var m := max.perHour - 1;
    es := Overlap(k, max, d, m);
    end := d.Slot(m);
    FirstHour(d, 0);
    FirstHour(d, m);
    WholeWindow(Final(k, Start(max, t), es), d, max, m, 0, m + k, m + k, HOUR);
  }

  /** The same for a day, whenever its hours and its minutes leave room for the day limit. */
  lemma DayBoundIsMet(k: nat, max: Limits, t: int) returns (es: seq<Event>, end: int)
    requires k > 0 && 0 < max.perDay <= 24 * max.perHour && max.perDay <= 24 * 60 * max.perMinute
    ensures IsRun(k, Start(max, t), es)
    ensures |Window(Final(k, Start(max, t), es).log, end, DAY)| == max.perDay + k - 1
  {
    hide At, Start, Window;
    var d := Timetable(t, if max.perHour <= 60 * max.perMinute then max.perHour else 60 * max.perMinute, max.perMinute);
    var m := max.perDay - 1;
    es := Overlap(k, max, d, m);
    end := d.Slot(m);
    FirstDay(d, 0);
    FirstDay(d, m);
    WholeWindow(Final(k, Start(max, t), es), d, max, m, 0, m + k, m + k, DAY);
  }

  /** j sends on credit in a full minute, each recorded before the next check, while k - 1 others stay in flight. */
  lemma {:induction false} Bursts(k: nat, w: World, d: Timetable, max: Limits, m: nat, b: nat, lo: nat, hi: nat, j: nat)
    returns (es: seq<Event>)
    requires At(w, d, max, m, b, lo, hi) && hi + 1 == lo + k && m < d.perHour
    requires |w.log| - m + d.InMinute(m) >= max.perMinute && b + j <= max.burst
    requires |w.log| + j <= max.perHour && |w.log| + j <= max.perDay
    ensures IsRun(k, w, es) && |Final(k, w, es).log| == |w.log| + j
    ensures At(Final(k, w, es), d, max, m, b + j, lo + j, hi + j)
    decreases j
  {
    hide At, IsRun, Final;
    NoEvents(k, w);
    es := [];
    if j > 0 {
      AtSlot(w, d, max, m, b, lo, hi);
      var check := OneCheck(k, w, d, max, m, b, lo, hi);
      var w1 := Final(k, w, check);
      var record := OneRecord(k, w1, d, max, m, b + 1, lo, hi + 1);
      var w2 := Final(k, w1, record);
      var rest := Bursts(k, w2, d, max, m, b + 1, lo + 1, hi + 1, j - 1);
      RunAppend(k, w1, record, rest);
      RunAppend(k, w, check, record + rest);
      es := check + (record + rest);
    }
  }

  /** k checks in a minute with room for one, one of their records, and every burst credit. */
  lemma FullMinute(k: nat, max: Limits, d: Timetable) returns (es: seq<Event>)
    requires k > 0 && Within(d, max) && d.perHour == d.perMinute && max.burst >= 0
    requires max.perHour >= max.perMinute + max.burst && max.perDay >= max.perMinute + max.burst
    ensures IsRun(k, Start(max, d.start), es)
    ensures var w, m, c := Final(k, Start(max, d.start), es), d.perMinute - 1, max.burst;
      |w.log| == m + 1 + c && At(w, d, max, m, c, m + 1 + c, m + k + c)
  {
    var m := d.perMinute - 1;
    FirstHour(d, m);
    hide At, Start, Room, CreditsAfter, d.Slot, d.InMinute;
    var w0 := Start(max, d.start);
    var front := SendThenCheck(k, max, d, m);
    var w1 := Final(k, w0, front);
    var record := OneRecord(k, w1, d, max, m, 0, m, m + k);
    var w2 := Final(k, w1, record);
    var bursts := Bursts(k, w2, d, max, m, 0, m + 1, m + k, max.burst);
    RunAppend(k, w1, record, bursts);
    RunAppend(k, w0, front, record + bursts);
    es := front + (record + bursts);
  }

  /** Whenever the hour and the day leave room for it, some minute holds its limit, every burst credit and k - 1 more. */
  lemma MinuteBoundIsMet(k: nat, max: Limits, t: int) returns (es: seq<Event>, end: int)
    requires k > 0 && max.perMinute > 0 && max.burst >= 0
    requires max.perHour >= max.perMinute + max.burst && max.perDay >= max.perMinute + max.burst
    ensures IsRun(k, Start(max, t), es)
    ensures |Window(Final(k, Start(max, t), es).log, end, MINUTE)| == max.perMinute + max.burst + k - 1
  {
    hide At, Start, Window;
    var d, w0 := Timetable(t, max.perMinute, max.perMinute), Start(max, t);
    var m, c := max.perMinute - 1, max.burst;
    FirstHour(d, 0);
    FirstHour(d, m);
    hide d.Slot, d.InMinute;
    var front := FullMinute(k, max, d);
    var records := Records(k, Final(k, w0, front), d, max, m, c, m + 1 + c, m + k + c, k - 1);
    RunAppend(k, w0, front, records);
    es := front + records;
    end := d.Slot(m);
    WholeWindow(Final(k, w0, es), d, max, m, c, m + k + c, m + k + c, MINUTE);
  }
}
