/** Cron expressions and the search for the next firing time.

    Instants are counted in nanoseconds from the zero time (1 January of year 1, UTC). A zone
    is a fixed offset of `off` minutes; a wall minute `t` is the local minute counted from the
    same origin, so it starts at the instant `(t - off) * NANOS_PER_MINUTE`. */
module CronNext {
  import opened Wrappers
  import opened CronField
  import opened Decimal
  import opened Calendar
  import opened FiringTimes

  const NANOS_PER_MINUTE := 60_000_000_000
  const NANOS_PER_DAY := MINUTES_PER_DAY * NANOS_PER_MINUTE

  datatype CronExpr = CronExpr(
    minute: seq<int>, hour: seq<int>, dayOfMonth: seq<int>, month: seq<int>, dayOfWeek: seq<int>)

  /** What every parsed expression satisfies. */
  ghost predicate WellFormed(c: CronExpr) {
    && ValueList(c.minute, 0, 59)
    && ValueList(c.hour, 0, 23)
    && ValueList(c.dayOfMonth, 1, 31)
    && ValueList(c.month, 1, 12)
    && ValueList(c.dayOfWeek, 0, 6)
  }

  // ----- Parsing -----

  /** `strings.ReplaceAll(field, "7", "0")`: 7 is accepted for Sunday. */
  function SevenToZero(field: string): string {
    seq(|field|, i requires 0 <= i < |field| => if field[i] == '7' then '0' else field[i])
  }

  /** A 7 is read as Sunday, 0. */
  lemma SevenIsSunday(field: string)
    ensures Readable(SevenToZero("7"), 0, 6)
    ensures forall v :: FieldDenotes(SevenToZero("7"), 0, 6, v) <==> v == 0
    ensures '7' !in field ==> SevenToZero(field) == field
    ensures |SevenToZero(field)| == |field| && '7' !in SevenToZero(field)
    ensures forall i :: 0 <= i < |field| ==> SevenToZero(field)[i] == if field[i] == '7' then '0' else field[i]
  {
    assert SevenToZero("7") == "0";
    AtoiDigits("0");
    NumberField("0", 0, 6);
  }

  /** The whitespace-separated fields of an expression; a leading seconds field is dropped. */
  method ParseCron(fields: seq<string>) returns (r: Result<CronExpr>)
    ensures r.Ok? <==> 5 <= |fields| <= 6 && var f := fields[|fields| - 5..];
                       && Readable(f[0], 0, 59) && Readable(f[1], 0, 23) && Readable(f[2], 1, 31)
                       && Readable(f[3], 1, 12) && Readable(SevenToZero(f[4]), 0, 6)
    ensures r.Ok? ==> WellFormed(r.value)
    ensures r.Ok? ==> var f := fields[|fields| - 5..];
                      && (forall v :: v in r.value.minute <==> FieldDenotes(f[0], 0, 59, v))
                      && (forall v :: v in r.value.hour <==> FieldDenotes(f[1], 0, 23, v))
                      && (forall v :: v in r.value.dayOfMonth <==> FieldDenotes(f[2], 1, 31, v))
                      && (forall v :: v in r.value.month <==> FieldDenotes(f[3], 1, 12, v))
                      && (forall v :: v in r.value.dayOfWeek <==> FieldDenotes(SevenToZero(f[4]), 0, 6, v))
  {
    if |fields| < 5 || |fields| > 6 {
      return Err("expected 5 or 6 fields");
    }
    var f := fields[|fields| - 5..];
    var minute := ParseField(f[0], 0, 59);
    if minute.Err? {
      return Err("minute field: " + minute.error);
    }
    var hour := ParseField(f[1], 0, 23);
    if hour.Err? {
      return Err("hour field: " + hour.error);
    }
    var dayOfMonth := ParseField(f[2], 1, 31);
    if dayOfMonth.Err? {
      return Err("day-of-month field: " + dayOfMonth.error);
    }
    var month := ParseField(f[3], 1, 12);
    if month.Err? {
      return Err("month field: " + month.error);
    }
    var dayOfWeek := ParseField(SevenToZero(f[4]), 0, 6);
    if dayOfWeek.Err? {
      return Err("day-of-week field: " + dayOfWeek.error);
    }
    return Ok(CronExpr(minute.value, hour.value, dayOfMonth.value, month.value, dayOfWeek.value));
  }

  // ----- When an expression matches -----

  ghost predicate EveryDayOfMonth(c: CronExpr) {
    forall d :: 1 <= d <= 31 ==> d in c.dayOfMonth
  }

  ghost predicate EveryDayOfWeek(c: CronExpr) {
    forall d :: 0 <= d <= 6 ==> d in c.dayOfWeek
  }

  /** An unrestricted day field defers to the other one; two restricted fields are alternatives. */
  ghost predicate DayAllowed(c: CronExpr, day: int) {
    var byMonth, byWeek := CivilOf(day).day in c.dayOfMonth, WeekdayOf(day) in c.dayOfWeek;
    if EveryDayOfMonth(c) && EveryDayOfWeek(c) then true
    else if EveryDayOfMonth(c) then byWeek
    else if EveryDayOfWeek(c) then byMonth
    else byMonth || byWeek
  }

  /** Both day fields must match, unless both are restricted: then either will do. */
  lemma DayRule(c: CronExpr, day: int)
    ensures var byMonth, byWeek := CivilOf(day).day in c.dayOfMonth, WeekdayOf(day) in c.dayOfWeek;
            DayAllowed(c, day) <==>
              if (exists d :: 1 <= d <= 31 && d !in c.dayOfMonth) && (exists d :: 0 <= d <= 6 && d !in c.dayOfWeek)
              then byMonth || byWeek else byMonth && byWeek
  {
    hide CivilOf;
    CivilRoundTrip(day);
  }

  ghost predicate DayMatches(c: CronExpr, day: int) {
    MonthOf(day) in c.month && DayAllowed(c, day)
  }

  /** The days, hours and minutes at which the expression fires. */
  ghost function Firing(c: CronExpr): Schedule {
    Schedule((iset day | DayMatches(c, day)), c.hour, c.minute)
  }

  /** A wall minute fires if and only if its minute, its hour and its month are listed and its day satisfies the
      rule for days. */
  lemma FiresExactly(c: CronExpr, t: int)
    ensures var date := CivilOf(t / 1440);
            var byMonth, byWeek := date.day in c.dayOfMonth, WeekdayOf(t / 1440) in c.dayOfWeek;
            var restricted := (exists d :: 1 <= d <= 31 && d !in c.dayOfMonth)
                              && exists d :: 0 <= d <= 6 && d !in c.dayOfWeek;
            Firing(c).Fires(t) <==> && t % 60 in c.minute && t % 1440 / 60 in c.hour && date.month in c.month
                                    && if restricted then byMonth || byWeek else byMonth && byWeek
  {
    hide CivilOf, DayAllowed;
    DayRule(c, t / 1440);
  }

  // ----- The search window -----

  /** The wall minute after the one that holds the instant `after`. */
  function FirstMinute(off: int, after: int): int {
    after / NANOS_PER_MINUTE + 1 + off
  }

  /** `after.AddDate(5, 0, 0)`, as nanoseconds of local time. */
  function Horizon(off: int, after: int): int {
    var local := after + off * NANOS_PER_MINUTE;
    FiveYearsOn(local / NANOS_PER_DAY) * NANOS_PER_DAY + local % NANOS_PER_DAY
  }

  /** The horizon is the same wall time five years on; 29 February becomes 1 March. */
  lemma HorizonMeans(off: int, after: int)
    ensures var local, later := after + off * 60_000_000_000, Horizon(off, after);
            var c := CivilOf(local / 86_400_000_000_000);
            && later % 86_400_000_000_000 == local % 86_400_000_000_000
            && CivilOf(later / 86_400_000_000_000) ==
                 if c.month == 2 && c.day == 29 && !Leap(c.year + 5) then Civil(c.year + 5, 3, 1)
                 else Civil(c.year + 5, c.month, c.day)
  {
    hide CivilOf, FiveYearsOn;
    var local := after + off * NANOS_PER_MINUTE;
    FiveYearsLands(local / NANOS_PER_DAY);
    SameTimeOfDay(FiveYearsOn(local / NANOS_PER_DAY), local);
  }

  lemma SameTimeOfDay(day: int, local: int)
    ensures var t := day * NANOS_PER_DAY + local % NANOS_PER_DAY;
            t % NANOS_PER_DAY == local % NANOS_PER_DAY && t / NANOS_PER_DAY == day
  {
  }

  /** The first wall minute that starts at or after the horizon. */
  function HorizonMinute(off: int, after: int): int {
    (Horizon(off, after) - 1) / NANOS_PER_MINUTE + 1
  }

  /** The end of the local day that holds the last nanosecond before the horizon. */
  function SearchEnd(off: int, after: int): int {
    ((Horizon(off, after) - 1) / NANOS_PER_DAY + 1) * MINUTES_PER_DAY
  }

  /** The instant at which a wall minute starts. */
  function Instant(off: int, t: Option<int>): Option<int> {
    if t.None? then None else Some((t.value - off) * NANOS_PER_MINUTE)
  }

  lemma NoInstant(off: int)
    ensures Instant(off, None) == None
  {
  }

  lemma HorizonIsFar(off: int, after: int)
    ensures FirstMinute(off, after) + 120 < HorizonMinute(off, after) <= SearchEnd(off, after)
  {
    hide HorizonMinute, SearchEnd;
    var local := after + off * NANOS_PER_MINUTE;
    FarArithmetic(off, after, FiveYearsOn(local / NANOS_PER_DAY));
    BeforeHorizon(off, after, FirstMinute(off, after) + 120);
    LastMinuteIsSearched(off, after);
  }

  lemma LastMinuteIsSearched(off: int, after: int)
    ensures HorizonMinute(off, after) <= SearchEnd(off, after)
  {
    var last := HorizonMinute(off, after) - 1;
    BeforeHorizon(off, after, last);
    SearchedDay(off, after, last, last);
  }

  lemma BeforeHorizon(off: int, after: int, t: int)
    ensures t * NANOS_PER_MINUTE < Horizon(off, after) <==> t < HorizonMinute(off, after)
  {
    MinuteArithmetic(Horizon(off, after), t);
  }

  lemma MinuteArithmetic(horizon: int, t: int)
    ensures t * NANOS_PER_MINUTE < horizon <==> t < (horizon - 1) / NANOS_PER_MINUTE + 1
  {
  }

  lemma FarArithmetic(off: int, after: int, later: int)
    ensures var local := after + off * NANOS_PER_MINUTE;
            local / NANOS_PER_DAY + 1824 <= later ==>
              (after / NANOS_PER_MINUTE + 1 + off + 120) * NANOS_PER_MINUTE
              < later * NANOS_PER_DAY + local % NANOS_PER_DAY
  {
  }

  /** A wall day with a minute before the horizon is searched to its end. */
  lemma SearchedDay(off: int, after: int, t: int, u: int)
    ensures t * NANOS_PER_MINUTE < Horizon(off, after) && Day(u) == Day(t) ==> u < SearchEnd(off, after)
  {
    DayArithmetic(Horizon(off, after), t);
  }

  /** A wall day that starts at or after the horizon is not searched. */
  lemma UnsearchedDay(off: int, after: int, t: int)
    ensures t * NANOS_PER_MINUTE >= Horizon(off, after) && t % 1440 == 0 ==> SearchEnd(off, after) <= t
  {
    DayArithmetic(Horizon(off, after), t);
  }

  lemma DayArithmetic(horizon: int, t: int)
    ensures t * NANOS_PER_MINUTE < horizon ==> t / 1440 <= (horizon - 1) / NANOS_PER_DAY
    ensures t * NANOS_PER_MINUTE >= horizon && t % 1440 == 0 ==> (horizon - 1) / NANOS_PER_DAY < t / 1440
  {
  }

  // ----- Skipping months and days -----

  lemma MonthSkip(c: CronExpr, t: int)
    requires MonthOf(Day(t)) !in c.month
    ensures var d := CivilOf(Day(t)); var next := DayNumber(d.year, d.month + 1, 1) * MINUTES_PER_DAY;
            t < next && Firing(c).Silent(t, next)
  {
    var d := CivilOf(Day(t));
    var first := DayNumber(d.year, d.month + 1, 1);
    NextMonthIsLater(Day(t));
    forall u | t <= u < first * MINUTES_PER_DAY
      ensures Day(u) !in Firing(c).days
    {
      MonthRunsToItsEnd(Day(t), Day(u));
    }
  }

  /** `time.Date(y, m, d + 1, 0, 0, ...)` is the next day, whatever the month. */
  lemma NextDay(t: int)
    ensures var d := CivilOf(Day(t)); DayNumber(d.year, d.month, d.day + 1) == Day(t) + 1
  {
    CivilRoundTrip(Day(t));
  }

  /** The length tests of the code decide the day rule. */
  method DayOk(c: CronExpr, day: int) returns (ok: bool)
    requires WellFormed(c)
    ensures ok <==> DayAllowed(c, day)
  {
    var dayMatches := CivilOf(day).day in c.dayOfMonth;
    var dowMatches := WeekdayOf(day) in c.dayOfWeek;
    var domIsAll := |c.dayOfMonth| == 31;
    var dowIsAll := |c.dayOfWeek| == 7;
    FullLengthMeansAll(c.dayOfMonth, 1, 31);
    FullLengthMeansAll(c.dayOfWeek, 0, 6);
    if domIsAll && dowIsAll {
      ok := true;
    } else if domIsAll {
      ok := dowMatches;
    } else if dowIsAll {
      ok := dayMatches;
    } else {
      ok := dayMatches || dowMatches;
    }
  }

  // ----- The search -----

  /** `time.Date(y, m, d + 1, 0, 0, 0, 0, loc)`. */
  function Tomorrow(t: int): (next: int)
    ensures next == (Day(t) + 1) * MINUTES_PER_DAY && t < next && next % 1440 == 0
  {
    hide CivilOf, DayNumber;
    var date := CivilOf(Day(t));
    NextDay(t);
    DayEnd(t);
    DayNumber(date.year, date.month, date.day + 1) * MINUTES_PER_DAY
  }

  /** The month and day tests of the loop body: a later day start with silence before it, or `t`. */
  method SkipDays(c: CronExpr, t: int) returns (next: int)
    requires WellFormed(c)
    ensures next == t ==> Day(t) in Firing(c).days
    ensures next != t ==> Day(t) !in Firing(c).days && t < next && next % 1440 == 0 && Firing(c).Silent(t, next)
  {
    hide CivilOf, DayNumber;
    var date := CivilOf(Day(t));
    if date.month !in c.month {
      MonthSkip(c, t);
      return DayNumber(date.year, date.month + 1, 1) * MINUTES_PER_DAY;
    }
    var dayOk := DayOk(c, Day(t));
    if !dayOk {
      RestOfDayIsSilent(Firing(c), t);
      return Tomorrow(t);
    }
    return t;
  }

  /** The wall minute that the search answers, for every expression, offset and start. */
  ghost function NextMinute(c: CronExpr, off: int, after: int): Option<int>
    requires WellFormed(c)
  {
    Answer(Firing(c), off, FirstMinute(off, after), HorizonMinute(off, after), SearchEnd(off, after))
  }

  /** Any answer fires, within the searched days, and is the answer of the minute-by-minute scan if and only if
      the search does not start where it passes over a firing time. */
  lemma NextMinuteMeans(c: CronExpr, off: int, after: int)
    requires WellFormed(c)
    ensures var r := NextMinute(c, off, after);
            r.Some? ==> Firing(c).Fires(r.value) && FirstMinute(off, after) <= r.value < SearchEnd(off, after)
    ensures Instant(off, NextMinute(c, off, after))
         == Instant(off, Scan(Firing(c), FirstMinute(off, after), SearchEnd(off, after)))
       <==> !PassesOver(Firing(c), off, FirstMinute(off, after))
  {
    hide Answer, DayMatches, FirstMinute, HorizonMinute, SearchEnd;
    HorizonIsFar(off, after);
    RightExactly(Firing(c), off, FirstMinute(off, after), HorizonMinute(off, after), SearchEnd(off, after));
  }

  // ----- What the answer means in instants -----

  /** The expression fires at this instant, a full minute. */
  ghost predicate FiresAt(c: CronExpr, off: int, u: int) {
    u % 60_000_000_000 == 0 && Firing(c).Fires(u / 60_000_000_000 + off)
  }

  /** It does not fire between the start and the answer, or up to the horizon if there is no answer. */
  ghost predicate NothingMissed(c: CronExpr, off: int, after: int, r: Option<int>) {
    forall u :: after < u && (if r.Some? then u < r.value else u + off * NANOS_PER_MINUTE < Horizon(off, after))
                ==> !FiresAt(c, off, u)
  }

  lemma MinuteOfInstant(off: int, after: int, t: int, u: int)
    ensures u == (t - off) * NANOS_PER_MINUTE ==>
              && u % NANOS_PER_MINUTE == 0 && u / NANOS_PER_MINUTE + off == t
              && (FirstMinute(off, after) <= t <==> after < u)
    ensures u % NANOS_PER_MINUTE == 0 ==> (u / NANOS_PER_MINUTE) * NANOS_PER_MINUTE == u
  {
  }

  lemma InstantMeans(c: CronExpr, off: int, after: int, t: int)
    requires WellFormed(c) && NextMinute(c, off, after) == Some(t)
    ensures var u := (t - off) * NANOS_PER_MINUTE;
            && u > after && u % NANOS_PER_MINUTE == 0 && Firing(c).Fires(u / NANOS_PER_MINUTE + off)
            && u + off * NANOS_PER_MINUTE < Horizon(off, after) + NANOS_PER_DAY
  {
    hide DayMatches, FirstMinute, HorizonMinute, SearchEnd, Horizon, NextMinute, Scan, PassesOver;
    NextMinuteMeans(c, off, after);
    MinuteOfInstant(off, after, t, (t - off) * NANOS_PER_MINUTE);
    DayOfHorizon(off, after, t);
  }

  lemma DayOfHorizon(off: int, after: int, t: int)
    ensures t < SearchEnd(off, after) ==> t * NANOS_PER_MINUTE < Horizon(off, after) + NANOS_PER_DAY
  {
    EndArithmetic(Horizon(off, after), t);
  }

  lemma EndArithmetic(horizon: int, t: int)
    ensures t < ((horizon - 1) / NANOS_PER_DAY + 1) * MINUTES_PER_DAY ==>
              t * NANOS_PER_MINUTE < horizon + NANOS_PER_DAY
  {
    var day := (horizon - 1) / NANOS_PER_DAY;
    assert day * NANOS_PER_DAY <= horizon - 1;
    assert (day + 1) * MINUTES_PER_DAY * NANOS_PER_MINUTE == (day + 1) * NANOS_PER_DAY;
  }

  /** Nothing is missed if and only if the search does not start late in an hour that may fire, before another
      one whose first listed minute lies before the landing point. */
  lemma MissesExactly(c: CronExpr, off: int, after: int)
    requires WellFormed(c)
    ensures NothingMissed(c, off, after, Instant(off, NextMinute(c, off, after)))
       <==> !PassesOver(Firing(c), off, FirstMinute(off, after))
  {
    hide DayMatches, FirstMinute, HorizonMinute, SearchEnd, Horizon, Answer, PassesOver;
    var s, t0, end := Firing(c), FirstMinute(off, after), SearchEnd(off, after);
    var r := NextMinute(c, off, after);
    HorizonIsFar(off, after);
    RightExactly(s, off, t0, HorizonMinute(off, after), end);
    if PassesOver(s, off, t0) {
      PassedOver(s, off, t0);
      ScanFinds(s, t0, end, NextHour(t0) + s.First());
      EarlierFires(c, off, after, NextHour(t0) + s.First());
    } else {
      SilentBefore(s, t0, end);
      forall u | after < u && u % NANOS_PER_MINUTE == 0
                 && (if r.Some? then u < Instant(off, r).value else u + off * NANOS_PER_MINUTE < Horizon(off, after))
        ensures !FiresAt(c, off, u)
      {
        var t := u / NANOS_PER_MINUTE + off;
        MinuteOfInstant(off, after, t, u);
        BeforeHorizon(off, after, t);
      }
    }
  }

  /** The scan passes over nothing. */
  lemma {:induction false} SilentBefore(s: Schedule, from: int, limit: int)
    ensures var r := Scan(s, from, limit); s.Silent(from, if r.Some? then r.value else limit)
    decreases limit - from
  {
    if from < limit && !s.Fires(from) {
      SilentBefore(s, from + 1, limit);
    }
  }

  /** A firing time that the answer is not, although it comes first, is missed. */
  lemma EarlierFires(c: CronExpr, off: int, after: int, t: int)
    requires WellFormed(c) && Firing(c).Fires(t) && Firing(c).Silent(FirstMinute(off, after), t)
    requires FirstMinute(off, after) <= t < FirstMinute(off, after) + 120 && NextMinute(c, off, after) != Some(t)
    ensures !NothingMissed(c, off, after, Instant(off, NextMinute(c, off, after)))
  {
    hide DayMatches, FirstMinute, HorizonMinute, SearchEnd, Horizon, NextMinute, Scan, PassesOver;
    var u := (t - off) * NANOS_PER_MINUTE;
    MinuteOfInstant(off, after, t, u);
    NextMinuteMeans(c, off, after);
    HorizonIsFar(off, after);
    BeforeHorizon(off, after, t);
    assert FiresAt(c, off, u);
  }

  /** The answer is a full minute after the start at which the expression fires, less than a day past the horizon,
      and it is the first one if and only if the search does not start where it passes over a firing time. */
  lemma AnswerMeans(c: CronExpr, off: int, after: int)
    requires WellFormed(c)
    ensures var r := Instant(off, NextMinute(c, off, after));
            && (r.Some? ==> && r.value > after && r.value % 60_000_000_000 == 0
                            && Firing(c).Fires(r.value / 60_000_000_000 + off)
                            && r.value + off * 60_000_000_000 < Horizon(off, after) + 86_400_000_000_000)
            && (NothingMissed(c, off, after, r) <==> !PassesOver(Firing(c), off, after / 60_000_000_000 + 1 + off))
  {
    hide DayMatches, HorizonMinute, SearchEnd, Horizon, NextMinute, PassesOver, NothingMissed;
    MissesExactly(c, off, after);
    if NextMinute(c, off, after).Some? {
      InstantMeans(c, off, after, NextMinute(c, off, after).value);
    }
  }

  /** The next instant after `after` at which the expression fires; None stands for the zero time.
      The answer is that of the scan, begun where the search is right again if it passes over a firing time. */
  method Next(c: CronExpr, off: int, after: int) returns (r: Option<int>)
    requires WellFormed(c)
    ensures r == Instant(off, NextMinute(c, off, after))
    ensures r.Some? ==> exists t :: r == Instant(off, Some(t)) && Firing(c).Fires(t)
                                 && FirstMinute(off, after) <= t < SearchEnd(off, after)
    ensures r == Instant(off, Scan(Firing(c), FirstMinute(off, after), SearchEnd(off, after)))
       <==> !PassesOver(Firing(c), off, FirstMinute(off, after))
    ensures r.Some? ==> && r.value > after && r.value % 60_000_000_000 == 0
                        && Firing(c).Fires(r.value / 60_000_000_000 + off)
                        && r.value + off * 60_000_000_000 < Horizon(off, after) + 86_400_000_000_000
    ensures NothingMissed(c, off, after, r) <==> !PassesOver(Firing(c), off, after / 60_000_000_000 + 1 + off)
  {
    hide DayMatches, CivilOf, Tomorrow, Horizon, HorizonMinute, SearchEnd, FirstMinute, Scan;
    hide PassesOver, Searching, Answer, Day, Hour, Minute, NextAbsoluteHour, Instant, NothingMissed;
    var t := FirstMinute(off, after);
    var horizon := Horizon(off, after);
    ghost var s, t0, limit, end := Firing(c), t, HorizonMinute(off, after), SearchEnd(off, after);
    HorizonIsFar(off, after);
    SearchStarts(s, off, t0, limit);
    NextMinuteMeans(c, off, after);
    AnswerMeans(c, off, after);
    while t * NANOS_PER_MINUTE < horizon
      invariant Searching(s, off, t0, t, limit)
      decreases horizon - t * NANOS_PER_MINUTE
    {
      BeforeHorizon(off, after, t);
      var next := SkipDays(c, t);
      if next != t {
        DayJumpKeeps(s, off, t0, t, next, limit);
        t := next;
        continue;
      }
      var o := LookInDay(s, c.hour, c.minute, t);
      match o {
        case Found(u) =>
          SearchedDay(off, after, t, u);
          FoundIsAnswer(s, off, t0, t, u, limit, end);
          return Instant(off, Some(u));
        case DayDone =>
          DayJumpKeeps(s, off, t0, t, Tomorrow(t), limit);
          t := Tomorrow(t);
        case HourDone =>
          HourEndKeeps(s, off, t0, t, limit);
          t := NextAbsoluteHour(off, t);
      }
    }
    BeforeHorizon(off, after, t);
    if t % 1440 == 0 {
      UnsearchedDay(off, after, t);
    }
    NothingIsAnswer(s, off, t0, t, limit, end);
    assert Instant(off, None) == None by {
      NoInstant(off);
    }
    return None;
  }

  // ----- A zone in which an hourly job never fires -----

  const HOURLY := CronExpr([0], Range(0, 23), Range(1, 31), Range(1, 12), Range(0, 6))

  lemma HourlyIsWellFormed()
    ensures WellFormed(HOURLY)
  {
  }

  lemma HourlyEveryHour(t: int)
    ensures Firing(HOURLY).HourFires(t)
  {
    assert MonthOf(Day(t)) in HOURLY.month;
    assert EveryDayOfMonth(HOURLY) && EveryDayOfWeek(HOURLY);
  }

  /** An instant in minute 44 of a wall hour at offset +5:30. */
  function After44(hour: int, nanos: int): (after: int)
    requires 0 <= nanos < NANOS_PER_MINUTE
    ensures FirstMinute(330, after) == hour * 60 + 45
  {
    (hour * 60 + 44 - 330) * NANOS_PER_MINUTE + nanos
  }

  /** The expression "0 * * * *" at offset +5:30, searched from 45 minutes past any hour: the next full
      hour fires, but the answer is that the expression never does. */
  lemma HourlyAtHalfHourOffset(hour: int, nanos: int)
    requires 0 <= nanos < NANOS_PER_MINUTE
    ensures WellFormed(HOURLY) && Firing(HOURLY).Fires((hour + 1) * 60)
    ensures NextMinute(HOURLY, 330, After44(hour, nanos)) == None
  {
    HourlyIsWellFormed();
    hide DayMatches, CronField.Range, Answer, HorizonMinute, SearchEnd, FirstMinute, After44, Day, Hour;
    var after := After44(hour, nanos);
    forall t
      ensures Firing(HOURLY).HourFires(t)
    {
      HourlyEveryHour(t);
    }
    assert Minute(hour * 60 + 45) == 45 && Minute((hour + 1) * 60) == 0;
    hide NextHour, Minute;
    NeverLands(Firing(HOURLY), 330, FirstMinute(330, after), HorizonMinute(330, after), SearchEnd(330, after));
  }

  // ----- A leap day that is passed over -----

  /** "0 22,23 29 2 *". */
  const LEAP_NIGHTS := CronExpr([0], [22, 23], [29], [2], Range(0, 6))

  lemma LeapNightsFire(day: int)
    ensures day in Firing(LEAP_NIGHTS).days <==> CivilOf(day).month == 2 && CivilOf(day).day == 29
  {
    assert 1 !in LEAP_NIGHTS.dayOfMonth;
    assert EveryDayOfWeek(LEAP_NIGHTS);
  }

  /** After 2096 there is no leap day for eight years. */
  lemma NoLeapDay(day: int)
    ensures DayNumber(2096, 3, 1) <= day <= DayNumber(2101, 3, 1) ==>
              !(CivilOf(day).month == 2 && CivilOf(day).day == 29)
  {
    hide CivilOf, DaysBeforeYear;
    var c := CivilOf(day);
    CivilRoundTrip(day);
    if c.month == 2 && c.day == 29 {
      assert day == DaysBeforeYear(c.year) + 59;
      LeapYearsApart(c.year);
    }
  }

  lemma LeapYearsApart(y: int)
    ensures Leap(y) ==>
              DaysBeforeYear(y) <= DaysBeforeYear(2096) || DaysBeforeYear(2101) + 365 <= DaysBeforeYear(y)
  {
    if y <= 2096 {
      YearsInOrder(y, 2096);
    } else if y >= 2102 {
      YearsInOrder(2102, y);
    }
  }

  lemma YearsFrom2096()
    ensures DaysBeforeYear(2096) == 765183 && DaysBeforeYear(2097) == 765549 && DaysBeforeYear(2101) == 767009
    ensures DaysBeforeMonth(2096, 2) == 31 && DaysBeforeMonth(2096, 3) == 60
    ensures DaysBeforeMonth(2101, 2) == 31 && DaysBeforeMonth(2101, 3) == 59
  {
  }

  lemma LeapNightDates()
    ensures DayNumber(2096, 2, 29) == DaysBeforeYear(2096) + 59
    ensures DayNumber(2096, 3, 1) == DayNumber(2096, 2, 29) + 1 <= DayNumber(2101, 3, 1)
    ensures DayNumber(2101, 3, 1) == DayNumber(2101, 2, 29)
  {
    YearsFrom2096();
    hide DaysBeforeYear, DaysBeforeMonth;
  }

  lemma LeapDayOf2096()
    ensures CivilOf(DayNumber(2096, 2, 29)) == Civil(2096, 2, 29)
    ensures FiveYearsOn(DayNumber(2096, 2, 29)) == DayNumber(2101, 3, 1)
  {
    hide YearOf, MonthInYear, DaysBeforeYear, DayNumber;
    var day := DayNumber(2096, 2, 29);
    YearsFrom2096();
    LeapNightDates();
    YearIsUnique(day, 2096);
    MonthIsUnique(2096, 59, 2);
  }

  /** A search that does not begin at the start of an hour ends with the day five years on. */
  lemma SearchEndDay(off: int, after: int)
    ensures var t := FirstMinute(off, after);
            Minute(t) > 0 ==> SearchEnd(off, after) <= (FiveYearsOn(Day(t)) + 1) * 1440
  {
    hide FiveYearsOn;
    var local := after + off * NANOS_PER_MINUTE;
    var t := FirstMinute(off, after);
    if Minute(t) > 0 {
      DayOfMinute(local, t - 1);
      assert Day(t - 1) == Day(t);
      assert (Horizon(off, after) - 1) / NANOS_PER_DAY <= FiveYearsOn(Day(t));
    }
  }

  lemma DayOfMinute(local: int, t: int)
    ensures t * NANOS_PER_MINUTE <= local < (t + 1) * NANOS_PER_MINUTE ==> local / NANOS_PER_DAY == Day(t)
  {
    var day := t / 1440;
    assert day * 1440 <= t < (day + 1) * 1440;
    if t * NANOS_PER_MINUTE <= local < (t + 1) * NANOS_PER_MINUTE {
      assert day * NANOS_PER_DAY <= local < (day + 1) * NANOS_PER_DAY;
    }
  }

  /** 22:44 on 29 February 2096 at offset +5:30. */
  const LEAP_NIGHT := (DayNumber(2096, 2, 29) * 1440 + 22 * 60 + 44 - 330) * NANOS_PER_MINUTE

  lemma LeapNightMinute()
    ensures FirstMinute(330, LEAP_NIGHT) == DayNumber(2096, 2, 29) * 1440 + 22 * 60 + 45
  {
    hide DayNumber;
  }

  lemma LeapNightsAreQuiet()
    ensures Firing(LEAP_NIGHTS).Silent(DayNumber(2096, 3, 1) * 1440, SearchEnd(330, LEAP_NIGHT))
  {
    hide CivilOf, FirstMinute, SearchEnd, Minute, DayNumber;
    LeapNightMinute();
    LateEvening(DayNumber(2096, 2, 29));
    SearchEndDay(330, LEAP_NIGHT);
    LeapDayOf2096();
    forall t | DayNumber(2096, 3, 1) * 1440 <= t < SearchEnd(330, LEAP_NIGHT)
      ensures !Firing(LEAP_NIGHTS).Fires(t)
    {
      LeapNightsFire(Day(t));
      NoLeapDay(Day(t));
    }
  }

  lemma LeapNightDays()
    ensures var leapDay := DayNumber(2096, 2, 29);
            leapDay in Firing(LEAP_NIGHTS).days && leapDay + 1 !in Firing(LEAP_NIGHTS).days
  {
    hide CivilOf, DayNumber, DayMatches, CronField.Range;
    var leapDay := DayNumber(2096, 2, 29);
    LeapNightDates();
    LeapDayOf2096();
    LeapNightsFire(leapDay);
    NoLeapDay(leapDay + 1);
    LeapNightsFire(leapDay + 1);
  }

  lemma LateEvening(day: int)
    ensures var t := day * 1440 + 22 * 60 + 45;
            && Day(t) == day && Hour(t) == 22 && Minute(t) == 45 && NextHour(t) == t + 15
            && Day(t + 15) == day && Hour(t + 15) == 23 && Minute(t + 15) == 0 && Day(t + 75) == day + 1
  {
    var t := day * 1440 + 22 * 60 + 45;
    assert t / 60 == day * 24 + 22;
    hide Day, Hour;
    HourOfDay(t);
    HourOfDay(t + 15);
    HourOfDay(t + 75);
  }

  /** The search begins at 22:45; 23:00 fires and is passed over. The search is right again from midnight on,
      but there is no further leap day before the horizon: the answer is "never". */
  lemma LeapNightPassedOver()
    ensures WellFormed(LEAP_NIGHTS) && Firing(LEAP_NIGHTS).Fires(FirstMinute(330, LEAP_NIGHT) + 15)
    ensures NextMinute(LEAP_NIGHTS, 330, LEAP_NIGHT) == None
  {
    hide DayNumber, DayMatches, FirstIdle, Scan, Day, Hour, Minute, NextHour, FirstMinute, HorizonMinute, SearchEnd;
    var s, t0, limit := Firing(LEAP_NIGHTS), FirstMinute(330, LEAP_NIGHT), HorizonMinute(330, LEAP_NIGHT);
    LeapNightMinute();
    LeapNightDates();
    LeapNightDays();
    LeapNightsAreQuiet();
    LateEvening(DayNumber(2096, 2, 29));
    HorizonIsFar(330, LEAP_NIGHT);
    IdleHere(s, t0 + 15, limit - 30);
    IdleHere(s, t0 + 75, limit - 30);
    ScanFindsNothing(s, t0 + 75, SearchEnd(330, LEAP_NIGHT));
  }
}
