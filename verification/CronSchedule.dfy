/** Searching for the next firing of a compiled cron expression: the agent's scan and
    the controller's scan. Timestamps are seconds since the epoch in UTC. */
module CronSchedule {
  import opened Wrappers
  import opened Calendar

  const DAY := 86400
  const MAX_SCAN := 366 * DAY

  /** A cast to an unsigned 32-bit integer wraps around. */
  function AsU32(x: int): int {
    x % 0x1_0000_0000
  }

  datatype CronExpression = CronExpression(
    hasSeconds: bool,
    sec: seq<bool>, min: seq<bool>, hour: seq<bool>, dom: seq<bool>, mon: seq<bool>, dow: seq<bool>)
  {
    /** What the parser guarantees about the expressions it builds. */
    predicate Compiled() {
      && |sec| == 60 && |min| == 60 && |hour| == 24 && |dom| == 32 && |mon| == 13 && |dow| == 7
      && (!hasSeconds ==> forall i :: 0 <= i < 60 ==> (sec[i] <==> i == 0))
    }

    predicate Matches(s: int, m: int, h: int, d: int, mo: int, w: int)
      requires Compiled()
    {
      && 0 <= s < 60 && 0 <= m < 60 && 0 <= h < 24 && 0 <= d < 32 && 0 <= mo < 13 && 0 <= w < 7
      && sec[s] && min[m] && hour[h] && dom[d] && mon[mo] && dow[w]
    }

    /** The expression matches the broken-down timestamp. */
    predicate FiresAt(ts: int)
      requires Compiled()
    {
      var date := CivilFromDays(TruncDiv(ts, DAY));
      Matches(SecondOf(ts), MinuteOf(ts), HourOf(ts), date.day, date.month, WeekdayOf(ts))
    }
  }

  function SecondOf(ts: int): int { AsU32(TruncRem(ts, 60)) }

  function MinuteOf(ts: int): int { AsU32(TruncRem(TruncDiv(ts, 60), 60)) }

  function HourOf(ts: int): int { AsU32(TruncRem(TruncDiv(ts, 3600), 24)) }

  /** 0 is Sunday; 1970-01-01 was a Thursday. */
  function WeekdayOf(ts: int): int { AsU32(TruncRem(TruncRem(TruncDiv(ts, DAY) + 4, 7) + 7, 7)) }

  /** No second of [lo, hi) fires. */
  ghost predicate Silent(e: CronExpression, lo: int, hi: int)
    requires e.Compiled()
  {
    forall u :: lo <= u < hi ==> !e.FiresAt(u)
  }

  /** r is the least second of (after, after + 366 days] that fires, or None if there is none. */
  ghost predicate IsNext(e: CronExpression, after: int, r: Option<int>)
    requires e.Compiled()
  {
    match r
    case Some(t) => after < t <= after + MAX_SCAN && e.FiresAt(t) && Silent(e, after + 1, t)
    case None => Silent(e, after + 1, after + MAX_SCAN + 1)
  }

  /** The first whole minute at or after a second. */
  function CeilMinute(t: int): int {
    if t % 60 == 0 then t else t + 60 - t % 60
  }

  /** The whole minute the agent's alignment jumps over, which only happens before the epoch. */
  predicate SkipsMinute(e: CronExpression, after: int)
    requires e.Compiled()
  {
    !e.hasSeconds && after + 1 < 0 && (after + 1) % 60 != 0 && e.FiresAt(CeilMinute(after + 1))
  }

  lemma SecondZero(ts: int)
    ensures SecondOf(ts) == 0 <==> ts % 60 == 0
  {
  }

  lemma OnlyWholeMinutes(e: CronExpression, ts: int)
    requires e.Compiled() && !e.hasSeconds && ts % 60 != 0
    ensures !e.FiresAt(ts)
  {
    SecondZero(ts);
  }

  /** Between two whole minutes a five-field expression is silent. */
  lemma MinuteSilent(e: CronExpression, lo: int, t: int, hi: int)
    requires e.Compiled() && !e.hasSeconds
    requires Silent(e, lo, t) && hi <= t + 60 && t % 60 == 0
    requires lo <= t < hi ==> !e.FiresAt(t)
    ensures Silent(e, lo, hi)
  {
    hide CronExpression.FiresAt;
    forall u | lo <= u < hi ensures !e.FiresAt(u) {
      if u > t {
        OnlyWholeMinutes(e, u);
      }
    }
  }

  /** Where the agent's minute scan begins. */
  function AlignedStart(start: int): int {
    var rem := TruncRem(start, 60);
    if rem == 0 then start else start + (60 - rem)
  }

  /** The aligned scan passes over no firing, unless it skips a minute. */
  lemma FirstMinuteSilent(e: CronExpression, start: int)
    requires e.Compiled() && !e.hasSeconds && !SkipsMinute(e, start - 1)
    ensures Silent(e, start, AlignedStart(start))
  {
    hide CronExpression.FiresAt;
    var m := CeilMinute(start);
    MinuteSilent(e, start, m - 60, m);
    if AlignedStart(start) == m + 60 {
      MinuteSilent(e, start, m, m + 60);
    }
  }

  /** Scans the seconds, or the whole minutes, up to 366 days ahead. */
  method NextAfter(e: CronExpression, after: int) returns (r: Option<int>)
    requires e.Compiled()
    ensures IsNext(e, after, r) <==> !SkipsMinute(e, after)
  {
    hide CronExpression.FiresAt;
    var start := after + 1;
    var end := after + MAX_SCAN;
    if e.hasSeconds {
      var curr := start;
      while curr <= end
        invariant start <= curr <= end + 1
        invariant Silent(e, start, curr)
      {
        if e.FiresAt(curr) {
          return Some(curr);
        }
        curr := curr + 1;
      }
    } else {
      var curr := AlignedStart(start);
      ghost var skips := SkipsMinute(e, after);
      if !skips {
        FirstMinuteSilent(e, start);
      }
      while curr <= end
        invariant AlignedStart(start) <= curr && curr % 60 == 0
        invariant !skips ==> Silent(e, start, curr)
      {
        if e.FiresAt(curr) {
          return Some(curr);
        }
        if !skips {
          MinuteSilent(e, start, curr, curr + 60);
        }
        curr := curr + 60;
      }
    }
    return None;
  }

  // ----- When a firing always exists -----

  function AtTime(day: int, h: int, m: int, s: int): int {
    day * DAY + h * 3600 + m * 60 + s
  }

  lemma DivideTime(day: int, h: int, m: int, s: int)
    requires 0 <= h < 24 && 0 <= m < 60 && 0 <= s < 60
    ensures var t := AtTime(day, h, m, s);
            t / DAY == day && t / 3600 == day * 24 + h && t / 60 == day * 1440 + h * 60 + m && t % 60 == s
    ensures (day * 24 + h) % 24 == h && (day * 1440 + h * 60 + m) % 60 == m
  {
  }

  lemma BreakDownAtTime(day: int, h: int, m: int, s: int)
    requires day >= 0 && 0 <= h < 24 && 0 <= m < 60 && 0 <= s < 60
    ensures var t := AtTime(day, h, m, s);
            t >= 0 && TruncDiv(t, DAY) == day && SecondOf(t) == s && MinuteOf(t) == m && HourOf(t) == h
            && WeekdayOf(t) == (day + 4) % 7
  {
    hide TruncRem, AsU32;
    DivideTime(day, h, m, s);
    var t := AtTime(day, h, m, s);
    assert SecondOf(t) == s by { SmallRemainder(t, 60); }
    assert MinuteOf(t) == m by { SmallRemainder(t / 60, 60); }
    assert HourOf(t) == h by { SmallRemainder(t / 3600, 24); }
    assert WeekdayOf(t) == (day + 4) % 7 by {
      SmallRemainder(day + 4, 7);
      SmallRemainder((day + 4) % 7 + 7, 7);
    }
  }

  lemma SmallRemainder(x: int, b: int)
    requires x >= 0 && (b == 7 || b == 24 || b == 60)
    ensures TruncRem(x, b) == AsU32(TruncRem(x, b)) == x % b
  {
  }

  /** Every timestamp from the epoch on is a time of some day. */
  lemma TimeOf(t: int) returns (day: int, h: int, m: int, s: int)
    requires t >= 0
    ensures day >= 0 && 0 <= h < 24 && 0 <= m < 60 && 0 <= s < 60 && t == AtTime(day, h, m, s)
  {
    var minutes := t / 60;
    var hours := minutes / 60;
    day, h, m, s := hours / 24, hours % 24, minutes % 60, t % 60;
  }

  lemma FiresAtTime(e: CronExpression, day: int, h: int, m: int, s: int)
    requires e.Compiled() && day >= 0 && 0 <= h < 24 && 0 <= m < 60 && 0 <= s < 60
    ensures var date := CivilFromDays(day);
            e.FiresAt(AtTime(day, h, m, s)) <==>
            e.Matches(s, m, h, date.day, date.month, (day + 4) % 7)
  {
    hide CivilFromDays;
    BreakDownAtTime(day, h, m, s);
  }

  /** Some date other than 29 February that exists in every year is allowed. */
  ghost predicate AllowsAnnualDate(e: CronExpression)
    requires e.Compiled()
  {
    exists m, d :: 1 <= m <= 12 && 1 <= d <= DaysInMonth(2001, m) && e.mon[m] && e.dom[d]
  }

  ghost predicate AllowsTimeOfDay(e: CronExpression)
    requires e.Compiled()
  {
    && (exists h :: 0 <= h < 24 && e.hour[h])
    && (exists m :: 0 <= m < 60 && e.min[m])
    && (exists s :: 0 <= s < 60 && e.sec[s])
  }

  predicate EveryWeekday(e: CronExpression)
    requires e.Compiled()
  {
    forall w :: 0 <= w < 7 ==> e.dow[w]
  }

  /** Some second of the 366 days after `after` fires. */
  ghost predicate FindsAfter(e: CronExpression, after: int)
    requires e.Compiled()
  {
    !Silent(e, after + 1, after + MAX_SCAN + 1)
  }

  lemma Epoch()
    ensures DaysFromCivil(Date(1970, 1, 1)) == 0
    ensures DaysFromCivil(Date(2025, 1, 1)) == 20089 && DaysFromCivil(Date(2027, 1, 1)) == 20819
  {
  }

  /** A date of every year, in the calendar year of day n and in the next one. */
  lemma AnniversaryAround(n: int, m: int, d: int)
    requires n >= 0 && 1 <= m <= 12 && 1 <= d <= DaysInMonth(2001, m)
    ensures var y := CivilFromDays(n).year;
            ValidDate(Date(y, m, d)) && ValidDate(Date(y + 1, m, d))
            && 0 <= DaysFromCivil(Date(y, m, d)) <= n + 365
            && n < DaysFromCivil(Date(y + 1, m, d)) <= DaysFromCivil(Date(y, m, d)) + 366
  {
    hide CivilFromDays, DaysFromCivil;
    var y := CivilFromDays(n).year;
    YearOfDay(n);
    Epoch();
    if y < 1970 {
      YearsAscend(y + 1, 1970);
    } else {
      YearsAscend(1970, y);
    }
    WithinYear(Date(y, m, d));
    WithinYear(Date(y + 1, m, d));
    YearLater(y, m, d);
  }

  /** From any second, the date m/d at h:mi:s comes round within 366 days. */
  lemma NextAnniversary(e: CronExpression, after: int, m: int, d: int, h: int, mi: int, s: int)
    requires e.Compiled() && EveryWeekday(e) && after >= 0
    requires 1 <= m <= 12 && 1 <= d <= DaysInMonth(2001, m) && e.mon[m] && e.dom[d]
    requires 0 <= h < 24 && 0 <= mi < 60 && 0 <= s < 60 && e.hour[h] && e.min[mi] && e.sec[s]
    ensures FindsAfter(e, after)
  {
    hide CivilFromDays, DaysFromCivil, CronExpression.FiresAt;
    var n, _, _, _ := TimeOf(after);
    AnniversaryAround(n, m, d);
    var y := CivilFromDays(n).year;
    var day := DaysFromCivil(Date(y, m, d));
    if AtTime(day, h, mi, s) <= after {
      y, day := y + 1, DaysFromCivil(Date(y + 1, m, d));
    }
    CivilRoundTrip(Date(y, m, d));
    FiresAtTime(e, day, h, mi, s);
    assert e.FiresAt(AtTime(day, h, mi, s));
  }

  /** A second that fires is an allowed time on an allowed date. */
  lemma FiringIsAllowed(e: CronExpression, t: int)
    requires e.Compiled() && t >= 0 && e.FiresAt(t)
    ensures AllowsTimeOfDay(e)
    ensures var date := CivilFromDays(t / DAY); ValidDate(date) && e.mon[date.month] && e.dom[date.day]
  {
    hide CivilFromDays, CronExpression.FiresAt;
    var day, h, m, s := TimeOf(t);
    DivideTime(day, h, m, s);
    FiresAtTime(e, day, h, m, s);
    CivilStep(day);
  }

  lemma CommonYears(n: int)
    requires 20089 <= n <= 20089 + 366
    ensures var date := CivilFromDays(n); ValidDate(date) && date.day <= DaysInMonth(2001, date.month)
  {
    hide CivilFromDays, DaysFromCivil;
    var date := CivilFromDays(n);
    CivilStep(n);
    YearOfDay(n);
    Epoch();
    if date.year < 2025 {
      YearsAscend(date.year + 1, 2025);
    } else if date.year > 2026 {
      YearsAscend(2027, date.year);
    }
  }

  /** The years 2025 and 2026 have no 29 February. */
  lemma SilentWithoutAnnualDate(e: CronExpression)
    requires e.Compiled() && !AllowsAnnualDate(e)
    ensures !FindsAfter(e, 20089 * DAY)
  {
    hide CivilFromDays, DaysFromCivil, CronExpression.FiresAt;
    forall t | 20089 * DAY + 1 <= t < 20089 * DAY + MAX_SCAN + 1 ensures !e.FiresAt(t) {
      if e.FiresAt(t) {
        CommonYears(t / DAY);
        FiringIsAllowed(e, t);
      }
    }
  }

  lemma AlwaysFindsFrom(e: CronExpression, after: int)
    requires e.Compiled()
    ensures after >= 0 && EveryWeekday(e) && AllowsTimeOfDay(e) && AllowsAnnualDate(e) ==> FindsAfter(e, after)
  {
    hide CronExpression.FiresAt, FindsAfter;
    if after >= 0 && EveryWeekday(e) && AllowsTimeOfDay(e) && AllowsAnnualDate(e) {
      var m, d :| 1 <= m <= 12 && 1 <= d <= DaysInMonth(2001, m) && e.mon[m] && e.dom[d];
      var h :| 0 <= h < 24 && e.hour[h];
      var mi :| 0 <= mi < 60 && e.min[mi];
      var s :| 0 <= s < 60 && e.sec[s];
      NextAnniversary(e, after, m, d, h, mi, s);
    }
  }

  /** The answer of the scan is never None for the expressions of AlwaysFinds. */
  lemma ScanNeverFails(e: CronExpression, after: int, r: Option<int>)
    requires e.Compiled() && after >= 0 && IsNext(e, after, r)
    requires EveryWeekday(e) && AllowsTimeOfDay(e) && AllowsAnnualDate(e)
    ensures r.Some?
  {
    hide CronExpression.FiresAt;
    AlwaysFindsFrom(e, after);
  }

  /** With every weekday allowed, the inclusive 366-day scan always succeeds exactly for the
      expressions that allow a time of day and a date other than 29 February of every year. */
  lemma AlwaysFinds(e: CronExpression)
    requires e.Compiled() && EveryWeekday(e)
    ensures (forall after :: after >= 0 ==> FindsAfter(e, after)) <==> AllowsTimeOfDay(e) && AllowsAnnualDate(e)
  {
    hide CronExpression.FiresAt;
    if AllowsTimeOfDay(e) && AllowsAnnualDate(e) {
      forall after | after >= 0 ensures FindsAfter(e, after) {
        AlwaysFindsFrom(e, after);
      }
    } else if !AllowsAnnualDate(e) {
      SilentWithoutAnnualDate(e);
    } else if FindsAfter(e, 0) {
      var t :| 1 <= t < MAX_SCAN + 1 && e.FiresAt(t);
      FiringIsAllowed(e, t);
    }
  }

  // ----- The controller's scan -----

  /** The controller compiles the same fields; its weekday set also has an entry for 7. */
  datatype ControllerSchedule = ControllerSchedule(
    hasSeconds: bool,
    sec: seq<bool>, min: seq<bool>, hour: seq<bool>, dom: seq<bool>, mon: seq<bool>, dow: seq<bool>)
  {
    predicate Compiled() {
      && |sec| == 60 && |min| == 60 && |hour| == 24 && |dom| == 32 && |mon| == 13 && |dow| == 8
      && (!hasSeconds ==> forall i :: 0 <= i < 60 ==> (sec[i] <==> i == 0))
    }

    /** Matching goes through the platform's calendar, modelled by the naive one. */
    predicate Matches(t: int)
      requires Compiled()
    {
      var date := NaiveDate(t / DAY);
      NaiveDateValid(t / DAY);
      && sec[t % 60] && min[t / 60 % 60] && hour[t / 3600 % 24] && dom[date.day] && mon[date.month]
      && dow[(t / DAY + 4) % 7]
    }
  }

  /** The agent and the controller hold the same sets. */
  ghost predicate SameSets(e: CronExpression, s: ControllerSchedule)
    requires e.Compiled() && s.Compiled()
  {
    && e.hasSeconds == s.hasSeconds
    && e.sec == s.sec && e.min == s.min && e.hour == s.hour
    && e.dom[1..] == s.dom[1..] && e.mon[1..] == s.mon[1..] && e.dow == s.dow[..7]
  }

  lemma ControllerMatchesAtTime(c: ControllerSchedule, day: int, h: int, m: int, s: int)
    requires c.Compiled() && 0 <= h < 24 && 0 <= m < 60 && 0 <= s < 60
    ensures var date := NaiveDate(day);
            ValidDate(date)
            && (c.Matches(AtTime(day, h, m, s)) <==>
                c.sec[s] && c.min[m] && c.hour[h] && c.dom[date.day] && c.mon[date.month] && c.dow[(day + 4) % 7])
  {
    hide NaiveDate;
    NaiveDateValid(day);
    DivideTime(day, h, m, s);
    hide AtTime;
  }

  lemma SameFirings(e: CronExpression, s: ControllerSchedule, t: int)
    requires e.Compiled() && s.Compiled() && SameSets(e, s) && t >= 0
    ensures e.FiresAt(t) <==> s.Matches(t)
  {
    hide CivilFromDays, NaiveDate, CronExpression.FiresAt, ControllerSchedule.Matches, AtTime;
    var day, h, m, sec := TimeOf(t);
    FiresAtTime(e, day, h, m, sec);
    ControllerMatchesAtTime(s, day, h, m, sec);
    CivilIsNaive(day);
    var date := NaiveDate(day);
    assert e.dom[date.day] == e.dom[1..][date.day - 1] == s.dom[date.day];
    assert e.mon[date.month] == e.mon[1..][date.month - 1] == s.mon[date.month];
  }

  ghost predicate ControllerSilent(s: ControllerSchedule, lo: int, hi: int)
    requires s.Compiled()
  {
    forall u :: lo <= u < hi ==> !s.Matches(u)
  }

  lemma ControllerMinuteSilent(s: ControllerSchedule, lo: int, t: int)
    requires s.Compiled() && !s.hasSeconds
    requires ControllerSilent(s, lo, t) && t % 60 == 0 && (lo <= t ==> !s.Matches(t))
    ensures ControllerSilent(s, lo, t + 60)
  {
    hide NaiveDate;
    forall u | lo <= u < t + 60 && t < u ensures !s.Matches(u) {
      assert u % 60 != 0;
    }
  }

  /** Scans from the next second, or the next whole minute, to strictly before 366 days. */
  method Next(s: ControllerSchedule, from: int) returns (r: Option<int>)
    requires s.Compiled()
    ensures match r
            case Some(t) => from < t < from + MAX_SCAN && s.Matches(t) && ControllerSilent(s, from + 1, t)
            case None => ControllerSilent(s, from + 1, from + MAX_SCAN)
  {
    hide ControllerSchedule.Matches;
    var step, curr := 60, from - from % 60 + 60;
    if s.hasSeconds {
      step, curr := 1, from + 1;
    } else {
      ControllerMinuteSilent(s, from + 1, curr - 60);
    }
    var limit := from + MAX_SCAN;
    while curr < limit
      invariant from < curr && if s.hasSeconds then step == 1 else step == 60 && curr % 60 == 0
      invariant ControllerSilent(s, from + 1, curr)
    {
      if s.Matches(curr) {
        return Some(curr);
      }
      if !s.hasSeconds {
        ControllerMinuteSilent(s, from + 1, curr);
      }
      curr := curr + step;
    }
    return None;
  }

  /** Both scans give the same answer, except that the controller never reports a firing
      exactly 366 days ahead. */
  lemma ScansAgree(e: CronExpression, s: ControllerSchedule, from: int, agent: Option<int>, controller: Option<int>)
    requires e.Compiled() && s.Compiled() && SameSets(e, s) && from >= 0
    requires IsNext(e, from, agent)
    requires match controller
             case Some(t) => from < t < from + MAX_SCAN && s.Matches(t) && ControllerSilent(s, from + 1, t)
             case None => ControllerSilent(s, from + 1, from + MAX_SCAN)
    ensures controller == if agent == Some(from + MAX_SCAN) then None else agent
  {
    hide CronExpression.FiresAt, ControllerSchedule.Matches;
    forall u | u >= 0 ensures e.FiresAt(u) <==> s.Matches(u) {
      SameFirings(e, s, u);
    }
  }

  function Only(n: nat, k: nat): (r: seq<bool>)
    ensures |r| == n && forall i :: 0 <= i < n ==> (r[i] <==> i == k)
  {
    seq(n, i => i == k)
  }

  /** Every minute of every day. */
  function EveryMinute(): CronExpression {
    CronExpression(false, Only(60, 0), seq(60, i => true), seq(24, i => true), seq(32, i => true), seq(13, i => true),
                   seq(7, i => true))
  }

  /** From 31 seconds before the last midnight before the epoch, the alignment jumps over midnight. */
  lemma MidnightIsSkipped()
    ensures EveryMinute().Compiled() && SkipsMinute(EveryMinute(), -86431)
  {
    hide CivilFromDays, NextDay;
    CivilStep(-1);
    MidnightBefore();
    hide SecondOf, MinuteOf, HourOf, WeekdayOf, CeilMinute, TruncDiv;
  }

  lemma MidnightBefore()
    ensures CeilMinute(-86430) == -86400 && TruncDiv(-86400, DAY) == -1
    ensures SecondOf(-86400) == 0 && MinuteOf(-86400) == 0 && HourOf(-86400) == 0 && WeekdayOf(-86400) == 3
  {
  }

  /** Midnight of 1 January, on any weekday. */
  function NewYear(): CronExpression {
    CronExpression(false, Only(60, 0), Only(60, 0), Only(24, 0), Only(32, 1), Only(13, 1), seq(7, i => true))
  }

  /** From midnight of 1 January 2024, a leap year, the next New Year is exactly 366 days ahead:
      the agent finds it, and by ScansAgree the controller reports no firing at all. */
  lemma NewYearOfLeapYear()
    ensures NewYear().Compiled() && AllowsAnnualDate(NewYear())
    ensures CivilFromDays(19723) == Date(2024, 1, 1)
    ensures IsNext(NewYear(), 19723 * DAY, Some(19723 * DAY + MAX_SCAN))
  {
    hide DaysFromCivil, CivilFromDays, CronExpression.FiresAt;
    var e := NewYear();
    assert e.mon[1] && e.dom[1];
    LeapYears();
    var from := 19723 * DAY;
    FiresAtTime(e, 20089, 0, 0, 0);
    forall t | from < t < from + MAX_SCAN ensures !e.FiresAt(t) {
      var n, h, m, s := TimeOf(t);
      FiresAtTime(e, n, h, m, s);
      var date := CivilFromDays(n);
      CivilStep(n);
      DayNumberRoundTrip(n);
      if date.year <= 2024 {
        YearsAscend(date.year, 2024);
      } else {
        YearsAscend(2025, date.year);
      }
    }
  }

  lemma LeapYears()
    ensures CivilFromDays(19723) == Date(2024, 1, 1) && CivilFromDays(20089) == Date(2025, 1, 1)
    ensures DaysFromCivil(Date(2024, 1, 1)) == 19723 && DaysFromCivil(Date(2025, 1, 1)) == 20089
  {
    hide CivilFromDays;
    CivilRoundTrip(Date(2024, 1, 1));
    CivilRoundTrip(Date(2025, 1, 1));
  }
}
