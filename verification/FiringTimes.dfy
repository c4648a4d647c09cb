/** Firing times on the wall clock, for any set of days that may fire: the minute-by-minute
    scan that the search of `CronNext` is compared with, and what each of its jumps passes over.
    A wall minute counts local minutes; days, hours and minutes are read off it. */
module FiringTimes {
  import opened Wrappers
  import opened CronField

  datatype Schedule = Schedule(days: iset<int>, hours: seq<int>, minutes: seq<int>) {
    ghost predicate Valid() {
      ValueList(hours, 0, 23) && ValueList(minutes, 0, 59)
    }

    /** The wall hour of `t` may fire. */
    ghost predicate HourFires(t: int) {
      Day(t) in days && Hour(t) in hours
    }

    ghost predicate Fires(t: int) {
      HourFires(t) && Minute(t) in minutes
    }

    ghost predicate Silent(from: int, to: int) {
      forall t :: from <= t < to ==> !Fires(t)
    }

    function First(): int
      requires minutes != []
    {
      minutes[0]
    }

    function Last(): int
      requires minutes != []
    {
      minutes[|minutes| - 1]
    }
  }

  function Day(t: int): int { t / 1440 }

  function Hour(t: int): int { t % 1440 / 60 }

  function Minute(t: int): int { t % 60 }

  function NextHour(t: int): int { (t / 60 + 1) * 60 }

  /** The reference: look at every wall minute from `from` up to `limit`. */
  ghost function Scan(s: Schedule, from: int, limit: int): Option<int>
    decreases limit - from
  {
    if from >= limit then None
    else if s.Fires(from) then Some(from)
    else Scan(s, from + 1, limit)
  }

  lemma {:induction false} ScanFinds(s: Schedule, from: int, limit: int, t: int)
    requires from <= t < limit && s.Fires(t) && s.Silent(from, t)
    ensures Scan(s, from, limit) == Some(t)
    decreases t - from
  {
    if from < t {
      ScanFinds(s, from + 1, limit, t);
    }
  }

  lemma {:induction false} ScanFindsNothing(s: Schedule, from: int, limit: int)
    requires s.Silent(from, limit)
    ensures Scan(s, from, limit) == None
    decreases limit - from
  {
    if from < limit {
      ScanFindsNothing(s, from + 1, limit);
    }
  }

  // ----- Where the search goes wrong -----

  /** `t.Add(time.Hour).Truncate(time.Hour)` at offset `off`: absolute time is rounded, not the
      wall clock, so the landing point is `off % 60` minutes into a wall hour. */
  function NextAbsoluteHour(off: int, t: int): (j: int)
    ensures t < j <= t + 60 && j % 60 == off % 60
    ensures j / 60 == (if Minute(t) < off % 60 then t / 60 else t / 60 + 1)
  {
    (t - off + 60) / 60 * 60 + off
  }

  /** The search passes over a firing time exactly when it starts in an hour that may fire, after the
      last listed minute, the next hour may fire too, and the first listed minute of that hour lies
      before the landing point. */
  ghost predicate PassesOver(s: Schedule, off: int, t: int)
    requires s.minutes != []
  {
    s.HourFires(t) && s.Last() < Minute(t) && s.HourFires(NextHour(t)) && s.First() < off % 60
  }

  /** The first wall hour from `hour` on, before `limit`, that may not fire. */
  ghost function FirstIdle(s: Schedule, hour: int, limit: int): (r: Option<int>)
    ensures r.Some? ==> hour <= r.value < limit && !s.HourFires(r.value)
    decreases limit - hour
  {
    if hour >= limit then None
    else if !s.HourFires(hour) then Some(hour)
    else FirstIdle(s, hour + 60, limit)
  }

  /** The wall minute from which the answer is right again. After a firing time has been passed over, that is
      the landing point in the next hour if a listed minute follows it there. Otherwise the search lands past
      the last listed minute of hour after hour, until an hour that may not fire; if it reaches none of
      those before `limit`, it finds nothing. */
  ghost function Resume(s: Schedule, off: int, t0: int, limit: int): Option<int>
    requires s.minutes != []
  {
    if !PassesOver(s, off, t0) then Some(t0)
    else if off % 60 <= s.Last() then Some(NextHour(t0) + off % 60)
    else FirstIdle(s, NextHour(t0), limit - off % 60)
  }

  /** What the search answers, for every start. */
  ghost function Answer(s: Schedule, off: int, t0: int, limit: int, end: int): Option<int>
    requires s.minutes != []
  {
    var from := Resume(s, off, t0, limit);
    if from.None? then None else Scan(s, from.value, end)
  }

  /** With a whole-hour offset nothing is ever passed over. */
  lemma WholeHourOffsetsAreSafe(s: Schedule, off: int, t: int)
    requires s.Valid() && off % 60 == 0
    ensures !PassesOver(s, off, t)
  {
    assert s.First() >= 0;
  }

  // ----- What each jump passes over -----

  lemma SameHour(t: int, u: int)
    requires t / 60 == u / 60
    ensures Day(t) == Day(u) && Hour(t) == Hour(u)
  {
    HourOfDay(t);
    HourOfDay(u);
  }

  lemma HourOfDay(t: int)
    ensures Day(t) == t / 60 / 24 && Hour(t) == t / 60 % 24
  {
    var hours, day := t / 60, t / 60 / 24;
    var inDay := hours % 24 * 60 + t % 60;
    assert t == 1440 * day + inDay && 0 <= inDay < 1440;
    assert t / 1440 == day && t % 1440 == inDay;
  }

  /** Days, hours and minutes are read off a wall minute as off a clock. */
  lemma ClockReads(t: int)
    ensures t == 1440 * Day(t) + 60 * Hour(t) + Minute(t) && 0 <= Hour(t) <= 23 && 0 <= Minute(t) <= 59
  {
    HourStart(t);
  }

  lemma DayEnd(t: int)
    ensures t < (Day(t) + 1) * 1440 && (Day(t) + 1) * 1440 % 1440 == 0
  {
  }

  lemma RestOfDayIsSilent(s: Schedule, t: int)
    requires Day(t) !in s.days || forall h :: h in s.hours ==> h < Hour(t)
    ensures s.Silent(t, (Day(t) + 1) * 1440)
  {
    forall u | t <= u < (Day(t) + 1) * 1440
      ensures !s.Fires(u)
    {
      assert Day(u) == Day(t) && Hour(t) <= Hour(u);
    }
  }

  lemma HourJump(s: Schedule, t: int, h: int)
    requires Hour(t) < h <= 23 && Hour(t) !in s.hours
    requires forall g :: g in s.hours && g > Hour(t) ==> h <= g
    ensures var next := Day(t) * 1440 + h * 60;
            && t < next && Day(next) == Day(t) && Hour(next) == h && Minute(next) == 0
            && s.Silent(t, next)
  {
    var next := Day(t) * 1440 + h * 60;
    forall u | t <= u < next
      ensures !s.Fires(u)
    {
      assert Day(u) == Day(t) && Hour(t) <= Hour(u) < h;
    }
  }

  /** The first minute of the wall hour of `t`. */
  lemma HourStart(t: int)
    ensures Day(t) * 1440 + Hour(t) * 60 == t / 60 * 60
  {
    var b := t % 1440;
    assert t == 1440 * Day(t) + 60 * Hour(t) + b % 60;
    assert t / 60 == 24 * Day(t) + Hour(t);
  }

  lemma MinuteJump(s: Schedule, t: int, m: int)
    requires Minute(t) < m <= 59 && Minute(t) !in s.minutes
    requires forall g :: g in s.minutes && g > Minute(t) ==> m <= g
    ensures var next := Day(t) * 1440 + Hour(t) * 60 + m;
            && t < next && next / 60 == t / 60 && Minute(next) == m
            && s.Silent(t, next)
  {
    var next := t / 60 * 60 + m;
    HourStart(t);
    forall u | t <= u < next
      ensures !s.Fires(u)
    {
      assert Minute(t) <= Minute(u) < m;
    }
  }

  lemma ListedBounds(s: Schedule)
    requires s.Valid()
    ensures forall m :: m in s.minutes ==> 0 <= s.First() <= m <= s.Last() <= 59
    ensures s.First() in s.minutes && s.Last() in s.minutes
  {
  }

  lemma RestOfHourIsSilent(s: Schedule, t: int, to: int)
    requires s.Valid() && s.Last() < Minute(t) && t <= to <= NextHour(t)
    ensures s.Silent(t, to)
  {
    ListedBounds(s);
    forall u | t <= u < to
      ensures !s.Fires(u)
    {
      assert Minute(t) <= Minute(u);
    }
  }

  lemma StartOfHourIsSilent(s: Schedule, hour: int, to: int)
    requires s.Valid() && hour % 60 == 0 && hour <= to < hour + 60
    requires s.HourFires(hour) ==> to - hour <= s.First()
    ensures s.Silent(hour, to)
  {
    ListedBounds(s);
    forall u | hour <= u < to
      ensures !s.Fires(u)
    {
      SameHour(hour, u);
      assert Minute(u) == u - hour;
    }
  }

  // ----- Leaving an hour with no listed minute left -----

  /** Where the search may stand when it passes over nothing. */
  ghost predicate Aligned(s: Schedule, off: int, t0: int, t: int)
    requires s.minutes != []
  {
    || t / 60 == t0 / 60
    || t % 60 == 0
    || (t % 60 == off % 60 && (!s.HourFires(t) || off % 60 <= s.First()))
  }

  /** An hour is left by its end only if the search started in it. */
  lemma LeavingStartHour(s: Schedule, off: int, t0: int, t: int)
    requires s.Valid() && t0 <= t && Aligned(s, off, t0, t) && s.Silent(t0, t)
    requires s.HourFires(t) && s.Last() < Minute(t)
    ensures t / 60 == t0 / 60 && s.HourFires(t0) && s.Last() < Minute(t0)
  {
    ListedBounds(s);
    assert t / 60 == t0 / 60;
    SameHour(t, t0);
    if Minute(t0) <= s.Last() {
      var u := t0 / 60 * 60 + s.Last();
      SameHour(t0, u);
      assert Minute(u) == s.Last() && t0 <= u < t;
      assert s.Fires(u);
    }
  }

  lemma LeavingHour(s: Schedule, off: int, t0: int, t: int)
    requires s.Valid() && t0 <= t && Aligned(s, off, t0, t) && s.Silent(t0, t)
    requires s.HourFires(t) && s.Last() < Minute(t) && !PassesOver(s, off, t0)
    ensures s.Silent(t, NextAbsoluteHour(off, t)) && Aligned(s, off, t0, NextAbsoluteHour(off, t))
    ensures NextAbsoluteHour(off, t) < t0 + 120
  {
    LeavingStartHour(s, off, t0, t);
    var j := NextAbsoluteHour(off, t);
    if j / 60 == t / 60 {
      RestOfHourIsSilent(s, t, j);
    } else {
      var hour := NextHour(t);
      SameHour(hour, j);
      RestOfHourIsSilent(s, t, hour);
      StartOfHourIsSilent(s, hour, j);
    }
  }

  lemma IntoNextHour(t: int, m: int)
    requires 0 <= m < 60
    ensures var hour := NextHour(t);
            && t < hour <= t + 60 && hour % 60 == 0
            && (hour + m) / 60 == hour / 60 && Minute(hour + m) == m
  {
    var q := t / 60 + 1;
    assert (q * 60 + m) / 60 == q;
  }

  /** What is passed over: the first listed minute of the next hour, the first firing time of all. */
  lemma PassedOver(s: Schedule, off: int, t: int)
    requires s.Valid() && PassesOver(s, off, t)
    ensures var missed := NextHour(t) + s.First();
            s.Fires(missed) && s.Silent(t, missed) && t < missed < t + 120
  {
    var hour, first := NextHour(t), s.First();
    ListedBounds(s);
    IntoNextHour(t, first);
    SameHour(hour, hour + first);
    hide NextHour, Minute, Day, Hour;
    RestOfHourIsSilent(s, t, hour);
    StartOfHourIsSilent(s, hour, hour + first);
  }

  lemma {:induction false} ScanIsSound(s: Schedule, from: int, limit: int)
    ensures var r := Scan(s, from, limit);
            r.Some? ==> from <= r.value < limit && s.Fires(r.value)
    decreases limit - from
  {
    if from < limit && !s.Fires(from) {
      ScanIsSound(s, from + 1, limit);
    }
  }

  /** The search is right if and only if it passes over nothing. */
  lemma RightExactly(s: Schedule, off: int, t0: int, limit: int, end: int)
    requires s.Valid() && t0 + 120 < end
    ensures Answer(s, off, t0, limit, end) == Scan(s, t0, end) <==> !PassesOver(s, off, t0)
    ensures var r := Answer(s, off, t0, limit, end);
            r.Some? ==> t0 <= r.value < end && s.Fires(r.value)
  {
    hide NextHour, Minute, Day, Hour, FirstIdle, Scan;
    var from := Resume(s, off, t0, limit);
    if from.Some? {
      ScanIsSound(s, from.value, end);
    }
    if PassesOver(s, off, t0) {
      PassedOver(s, off, t0);
      ScanFinds(s, t0, end, NextHour(t0) + s.First());
      if from.Some? && s.Last() < off % 60 {
        IdleIsLater(s, t0, limit - off % 60);
      }
    }
  }

  /** The first listed minute of the next hour is no longer found from the idle hour on. */
  lemma IdleIsLater(s: Schedule, t: int, limit: int)
    requires s.Valid() && s.HourFires(NextHour(t)) && FirstIdle(s, NextHour(t), limit).Some?
    ensures NextHour(t) + 60 <= FirstIdle(s, NextHour(t), limit).value
    ensures s.First() < 60
  {
  }

  /** The answer is wrongly "never" if and only if a firing time is passed over and nothing fires from the
      point on where the search is right again, or there is no such point. */
  lemma FalseNeverExactly(s: Schedule, off: int, t0: int, limit: int, end: int)
    requires s.Valid() && t0 + 120 < end
    ensures Answer(s, off, t0, limit, end) == None && Scan(s, t0, end).Some?
       <==> PassesOver(s, off, t0) && (Resume(s, off, t0, limit).Some? ==>
                                        s.Silent(Resume(s, off, t0, limit).value, end))
  {
    hide NextHour, Minute, Day, Hour, FirstIdle, Scan, Resume;
    RightExactly(s, off, t0, limit, end);
    var from := Resume(s, off, t0, limit);
    if PassesOver(s, off, t0) {
      PassedOver(s, off, t0);
      ScanFinds(s, t0, end, NextHour(t0) + s.First());
      if from.Some? {
        ScanDecides(s, from.value, end);
      }
    }
  }

  lemma {:induction false} ScanDecides(s: Schedule, from: int, limit: int)
    ensures Scan(s, from, limit) == None <==> s.Silent(from, limit)
    decreases limit - from
  {
    if from < limit && !s.Fires(from) {
      ScanDecides(s, from + 1, limit);
    }
  }

  /** The search finds no hour to settle in if and only if every hour up to the limit may fire. */
  lemma {:induction false} NoIdleHour(s: Schedule, hour: int, limit: int)
    ensures FirstIdle(s, hour, limit) == None
       <==> forall k: nat :: hour + 60 * k < limit ==> s.HourFires(hour + 60 * k)
    decreases limit - hour
  {
    if hour < limit {
      NoIdleHour(s, hour + 60, limit);
      if s.HourFires(hour) {
        forall k: nat | hour + 60 * k < limit && FirstIdle(s, hour, limit) == None
          ensures s.HourFires(hour + 60 * k)
        {
          assert k > 0 ==> hour + 60 * k == hour + 60 + 60 * (k - 1);
        }
        if j: nat :| hour + 60 + 60 * j < limit && !s.HourFires(hour + 60 + 60 * j) {
          assert hour + 60 * (j + 1) == hour + 60 + 60 * j;
        }
      } else {
        assert !s.HourFires(hour + 60 * 0);
      }
    }
  }

  /** If every hour may fire and every listed minute lies before the landing point, the search that starts
      after the last listed minute of an hour never lands on one again. */
  lemma NeverLands(s: Schedule, off: int, t0: int, limit: int, end: int)
    requires s.Valid() && (forall u :: s.HourFires(u)) && s.Last() < off % 60 && s.Last() < Minute(t0)
    ensures PassesOver(s, off, t0) && Answer(s, off, t0, limit, end) == None
  {
    ListedBounds(s);
    assert s.HourFires(t0) && s.HourFires(NextHour(t0));
  }

  // ----- Where the search stands -----

  /** The search has found nothing since `from`, and will pass over nothing. */
  ghost predicate Settled(s: Schedule, off: int, t0: int, from: int, t: int, limit: int)
    requires s.minutes != []
  {
    && from <= t && s.Silent(from, t) && Aligned(s, off, from, t) && (t < limit || t % 1440 == 0)
    && !PassesOver(s, off, from) && (from == t0 || Minute(from) <= s.Last())
  }

  /** The search goes from hour to hour past the last listed minute. */
  ghost predicate Straying(s: Schedule, off: int, t0: int, t: int, limit: int)
    requires s.minutes != []
  {
    && PassesOver(s, off, t0) && t0 <= t && s.Last() < Minute(t) && (t < limit ==> s.HourFires(t))
    && (|| (t / 60 == t0 / 60 && t < limit)
        || (&& Minute(t) == off % 60
            && FirstIdle(s, NextHour(t0), limit - off % 60) == FirstIdle(s, t - off % 60, limit - off % 60)))
  }

  ghost predicate Searching(s: Schedule, off: int, t0: int, t: int, limit: int)
    requires s.minutes != []
  {
    var from := Resume(s, off, t0, limit);
    Straying(s, off, t0, t, limit) || (from.Some? && Settled(s, off, t0, from.value, t, limit))
  }

  lemma SearchStarts(s: Schedule, off: int, t0: int, limit: int)
    requires s.Valid() && t0 + 120 < limit
    ensures Searching(s, off, t0, t0, limit)
  {
  }

  /** A jump to a later day start over silent minutes. */
  lemma DayJumpKeeps(s: Schedule, off: int, t0: int, t: int, next: int, limit: int)
    requires s.Valid() && Searching(s, off, t0, t, limit) && t < limit
    requires t < next && next % 1440 == 0 && s.Silent(t, next) && !s.HourFires(t)
    ensures Searching(s, off, t0, next, limit)
  {
    hide Resume, PassesOver;
    var from := Resume(s, off, t0, limit).value;
    SilentThrough(s, from, t, next);
  }

  /** The jump out of an hour. */
  lemma HourEndKeeps(s: Schedule, off: int, t0: int, t: int, limit: int)
    requires s.Valid() && Searching(s, off, t0, t, limit) && t < limit && t0 + 120 < limit
    requires s.HourFires(t) && s.Last() < Minute(t)
    ensures Searching(s, off, t0, NextAbsoluteHour(off, t), limit)
  {
    if Straying(s, off, t0, t, limit) {
      StraysOn(s, off, t0, t, limit);
    } else {
      hide Resume, PassesOver;
      var from := Resume(s, off, t0, limit).value;
      LeavingHour(s, off, from, t);
      LeavingStartHour(s, off, from, t);
      SilentThrough(s, from, t, NextAbsoluteHour(off, t));
    }
  }

  /** From a straying position the jump strays on, or lands where the search settles. */
  lemma StraysOn(s: Schedule, off: int, t0: int, t: int, limit: int)
    requires s.Valid() && Straying(s, off, t0, t, limit) && t < limit && t0 + 120 < limit
    ensures Searching(s, off, t0, NextAbsoluteHour(off, t), limit)
  {
    var j := NextAbsoluteHour(off, t);
    ListedBounds(s);
    if j / 60 == t / 60 {
      SameHour(t, j);
    } else if off % 60 <= s.Last() {
      assert j == NextHour(t0) + off % 60;
    } else {
      LandsPastLast(s, off, t0, t, limit);
    }
  }

  lemma LandsPastLast(s: Schedule, off: int, t0: int, t: int, limit: int)
    requires s.Valid() && Straying(s, off, t0, t, limit) && t < limit && t0 + 120 < limit
    requires s.Last() < off % 60 && NextAbsoluteHour(off, t) / 60 != t / 60
    ensures Searching(s, off, t0, NextAbsoluteHour(off, t), limit)
  {
    hide FirstIdle, NextAbsoluteHour, PassesOver;
    var j := NextAbsoluteHour(off, t);
    var hour := j - off % 60;
    var m := off % 60;
    SameHour(hour, j);
    SameIdle(s, off, t0, t, limit);
    LandingMinute(off, t, hour);
    hide Minute;
    if j < limit && !s.HourFires(j) {
      IdleHere(s, hour, limit - m);
      ListedBounds(s);
      StartOfHourIsSilent(s, hour, j);
      SettlesInIdleHour(s, off, t0, hour, j, limit);
    }
  }

  lemma LandingMinute(off: int, t: int, hour: int)
    requires hour == NextAbsoluteHour(off, t) - off % 60
    ensures hour % 60 == 0 && Minute(hour + off % 60) == off % 60 && hour / 60 == (hour + off % 60) / 60
  {
  }

  lemma IdleHere(s: Schedule, hour: int, limit: int)
    requires hour < limit
    ensures if s.HourFires(hour) then FirstIdle(s, hour, limit) == FirstIdle(s, hour + 60, limit)
            else FirstIdle(s, hour, limit) == Some(hour)
  {
  }

  lemma SameIdle(s: Schedule, off: int, t0: int, t: int, limit: int)
    requires s.Valid() && Straying(s, off, t0, t, limit) && t < limit
    requires s.Last() < off % 60 && NextAbsoluteHour(off, t) / 60 != t / 60
    ensures var hour := NextAbsoluteHour(off, t) - off % 60;
            FirstIdle(s, NextHour(t0), limit - off % 60) == FirstIdle(s, hour, limit - off % 60)
  {
    hide FirstIdle, PassesOver;
    var hour := NextAbsoluteHour(off, t) - off % 60;
    if t / 60 == t0 / 60 {
      assert hour == NextHour(t0);
    } else {
      assert hour == t - off % 60 + 60;
      SameHour(t, t - off % 60);
      IdleHere(s, t - off % 60, limit - off % 60);
    }
  }

  lemma SettlesInIdleHour(s: Schedule, off: int, t0: int, hour: int, t: int, limit: int)
    requires s.Valid() && PassesOver(s, off, t0) && s.Last() < off % 60 && t < limit
    requires hour % 60 == 0 && hour <= t && t / 60 == hour / 60 && s.Silent(hour, t)
    requires FirstIdle(s, NextHour(t0), limit - off % 60) == Some(hour)
    ensures Searching(s, off, t0, t, limit)
  {
    hide FirstIdle;
    ListedBounds(s);
  }

  /** What a return of wall minute `found` from search position `t` means. */
  lemma FoundIsAnswer(s: Schedule, off: int, t0: int, t: int, found: int, limit: int, end: int)
    requires s.Valid() && Searching(s, off, t0, t, limit) && t < limit && found < end
    requires t <= found && s.Silent(t, found) && s.Fires(found) && (s.HourFires(t) ==> found / 60 == t / 60)
    ensures Answer(s, off, t0, limit, end) == Some(found)
  {
    hide Resume, PassesOver;
    ListedBounds(s);
    assert !Straying(s, off, t0, t, limit);
    var from := Resume(s, off, t0, limit).value;
    SilentThrough(s, from, t, found);
    ScanFinds(s, from, end, found);
  }

  /** What running out of the search window means. */
  lemma NothingIsAnswer(s: Schedule, off: int, t0: int, t: int, limit: int, end: int)
    requires s.Valid() && Searching(s, off, t0, t, limit) && t >= limit && (t % 1440 == 0 ==> end <= t)
    ensures Answer(s, off, t0, limit, end) == None
  {
    var from := Resume(s, off, t0, limit);
    if Straying(s, off, t0, t, limit) {
      ListedBounds(s);
      if off % 60 <= s.Last() {
        assert false;
      }
    } else {
      ScanFindsNothing(s, from.value, end);
    }
  }

  // ----- One look at a day that may fire -----

  lemma SilentThrough(s: Schedule, from: int, mid: int, to: int)
    requires s.Silent(from, mid) && s.Silent(mid, to)
    ensures s.Silent(from, to)
  {
  }

  /** The first listed value above `x`, or -1. */
  method FirstAbove(list: seq<int>, x: int) returns (next: int)
    requires ValueList(list, 0, 59)
    ensures next == -1 ==> forall v :: v in list ==> v <= x
    ensures next != -1 ==> next in list && next > x && forall v :: v in list && v > x ==> next <= v
  {
    next := -1;
    for i := 0 to |list|
      invariant next == -1 && forall j :: 0 <= j < i ==> list[j] <= x
    {
      if list[i] > x {
        return list[i];
      }
    }
  }

  datatype Outcome = Found(t: int) | DayDone | HourDone

  /** From `t`: the first firing time of the day, silence to the end of the day, or an hour that may
      fire but has no listed minute left. */
  ghost predicate Explains(s: Schedule, t: int, o: Outcome)
    requires s.minutes != []
  {
    match o
    case Found(u) =>
      t <= u && s.Silent(t, u) && s.Fires(u) && Day(u) == Day(t) && (s.HourFires(t) ==> u / 60 == t / 60)
    case DayDone => s.Silent(t, (Day(t) + 1) * 1440) && !s.HourFires(t)
    case HourDone => s.HourFires(t) && s.Last() < Minute(t)
  }

  /** The minute test of the loop body. */
  method LookInHour(ghost s: Schedule, minutes: seq<int>, t: int) returns (o: Outcome)
    requires s.Valid() && s.minutes == minutes && s.HourFires(t)
    ensures Explains(s, t, o) && !o.DayDone?
    ensures o.HourDone? ==> Minute(t) > 0
  {
    if Minute(t) in minutes {
      return Found(t);
    }
    var nextMinute := FirstAbove(minutes, Minute(t));
    ListedBounds(s);
    if nextMinute == -1 {
      return HourDone;
    }
    MinuteJump(s, t, nextMinute);
    SameHour(t, Day(t) * 1440 + Hour(t) * 60 + nextMinute);
    return Found(Day(t) * 1440 + Hour(t) * 60 + nextMinute);
  }

  /** The hour test of the loop body, then the minute test. */
  method LookInDay(ghost s: Schedule, hours: seq<int>, minutes: seq<int>, t: int) returns (o: Outcome)
    requires s.Valid() && s.hours == hours && s.minutes == minutes && Day(t) in s.days
    ensures Explains(s, t, o)
  {
    if Hour(t) in hours {
      o := LookInHour(s, minutes, t);
      return;
    }
    var nextHour := FirstAbove(hours, Hour(t));
    if nextHour == -1 {
      RestOfDayIsSilent(s, t);
      return DayDone;
    }
    HourJump(s, t, nextHour);
    var u := Day(t) * 1440 + nextHour * 60;
    o := LookInHour(s, minutes, u);
    SilentThrough(s, t, u, o.t);
  }
}
