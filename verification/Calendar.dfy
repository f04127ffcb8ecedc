/** The civil calendar of the node agent's cron engine: the closed-form day-number
    conversion, checked against a calendar that counts one day at a time. */
module Calendar {

  datatype Date = Date(year: int, month: int, day: int)

  // ----- The naive Gregorian calendar -----

  predicate IsLeap(y: int) {
    y % 4 == 0 && (y % 100 != 0 || y % 400 == 0)
  }

  function DaysInMonth(y: int, m: int): int {
    if m == 2 then (if IsLeap(y) then 29 else 28)
    else if m == 4 || m == 6 || m == 9 || m == 11 then 30
    else 31
  }

  predicate ValidDate(d: Date) {
    1 <= d.month <= 12 && 1 <= d.day <= DaysInMonth(d.year, d.month)
  }

  function NextDay(d: Date): Date {
    if d.day < DaysInMonth(d.year, d.month) then d.(day := d.day + 1)
    else if d.month < 12 then Date(d.year, d.month + 1, 1)
    else Date(d.year + 1, 1, 1)
  }

  function PreviousDay(d: Date): Date {
    if d.day > 1 then d.(day := d.day - 1)
    else if d.month > 1 then Date(d.year, d.month - 1, DaysInMonth(d.year, d.month - 1))
    else Date(d.year - 1, 12, 31)
  }

  /** The date of day n, reached from 1970-01-01 by walking one day at a time. */
  function NaiveDate(n: int): Date
    decreases if n < 0 then -n else n
  {
    if n == 0 then Date(1970, 1, 1)
    else if n > 0 then NextDay(NaiveDate(n - 1))
    else PreviousDay(NaiveDate(n + 1))
  }

  // ----- The closed form -----

  /** Division of the agent's language: towards zero. */
  function TruncDiv(a: int, b: int): int
    requires b > 0
  {
    if a >= 0 then a / b else -((-a) / b)
  }

  /** Remainder of the agent's language: it takes the sign of the dividend. */
  function TruncRem(a: int, b: int): int
    requires b > 0
  {
    a - TruncDiv(a, b) * b
  }

  function EraOf(z: int): int {
    TruncDiv(if z >= 0 then z else z - 146096, 146097)
  }

  function YearOfEra(doe: int): int {
    (doe - doe / 1460 + doe / 36524 - doe / 146096) / 365
  }

  function DayOfYear(doe: int): int {
    var yoe := YearOfEra(doe);
    doe - (365 * yoe + yoe / 4 - yoe / 100)
  }

  function CivilOfParts(era: int, yoe: int, doy: int): Date {
    var mp := (5 * doy + 2) / 153;
    var d := doy - (153 * mp + 2) / 5 + 1;
    var m := if mp < 10 then mp + 3 else mp - 9;
    var y := yoe + era * 400;
    Date(if m <= 2 then y + 1 else y, m, d)
  }

  function CivilFromDays(days: int): Date {
    var z := days + 719468;
    var era := EraOf(z);
    var doe := z - era * 146097;
    CivilOfParts(era, YearOfEra(doe), DayOfYear(doe))
  }

  // ----- Years of an era, counted from 1 March -----

  /** Days of an era before its year y (years start on 1 March). */
  function EraYearStart(y: int): int {
    365 * y + y / 4 - y / 100 + y / 400
  }

  lemma DivStep(y: int, k: int)
    requires k == 4 || k == 100 || k == 400
    ensures (y + 1) / k - y / k == if (y + 1) % k == 0 then 1 else 0
  {
  }

  /** A March-based year y of an era ends with 29 February when calendar year y + 1 is leap. */
  lemma EraYearLength(y: int)
    ensures EraYearStart(y + 1) - EraYearStart(y) == if IsLeap(y + 1) then 366 else 365
  {
    DivStep(y, 4);
    DivStep(y, 100);
    DivStep(y, 400);
    var z := y + 1;
    assert z % 400 == 0 ==> z % 100 == 0;
    assert z % 100 == 0 ==> z % 4 == 0;
  }

  lemma EraIsFloor(z: int)
    ensures 0 <= z - EraOf(z) * 146097 < 146097
  {
  }

  lemma FloorIsUnique(z: int, e: int, f: int)
    requires 0 <= z - e * 146097 < 146097 && 0 <= z - f * 146097 < 146097
    ensures e == f
  {
  }

  lemma CivilIsOfParts(days: int)
    ensures var z := days + 719468;
            var doe := z - EraOf(z) * 146097;
            CivilFromDays(days) == CivilOfParts(EraOf(z), YearOfEra(doe), DayOfYear(doe))
  {
    hide EraOf, YearOfEra, DayOfYear;
  }

  /** Day doe of an era lies in century c and in the four-year cycle k of that century. */
  lemma YearOfEraByCycle(c: int, k: int, r: int)
    requires 0 <= c < 4 && 0 <= k < 25 && 0 <= r < 1461
    requires 1461 * k + r < (if c == 3 then 36525 else 36524)
    ensures var doe := 36524 * c + 1461 * k + r;
            YearOfEra(doe) == 100 * c + 4 * k + (if r == 1460 then 3 else r / 365)
  {
    var doe := 36524 * c + 1461 * k + r;
    var delta := if k + r + 24 * c >= 1460 then 1 else 0;
    assert doe / 1460 == 25 * c + k + delta;
    assert doe / 36524 == if doe == 146096 then 4 else c;
    assert doe / 146096 == if doe == 146096 then 1 else 0;
    assert doe - doe / 1460 + doe / 36524 - doe / 146096 == 365 * (100 * c + 4 * k) + r - delta;
    assert (r - delta) / 365 == if r == 1460 then 3 else r / 365;
  }

  lemma EraYearStartByCycle(c: int, k: int, j: int)
    requires 0 <= c < 4 && 0 <= k < 25 && 0 <= j < 4
    ensures EraYearStart(100 * c + 4 * k + j) == 36524 * c + 1461 * k + 365 * j
    ensures EraYearStart(100 * c + 4 * k + j + 1)
         == 36524 * c + 1461 * k + 365 * (j + 1) + if j == 3 && (k < 24 || c == 3) then 1 else 0
  {
    var y := 100 * c + 4 * k + j;
    assert y / 4 == 25 * c + k && y / 100 == c && y / 400 == 0;
    var z := y + 1;
    assert z / 4 == if j == 3 then 25 * c + k + 1 else 25 * c + k;
    assert z / 100 == if j == 3 && k == 24 then c + 1 else c;
    assert z / 400 == if j == 3 && k == 24 && c == 3 then 1 else 0;
  }

  lemma CycleOf(doe: int) returns (c: int, k: int, r: int)
    requires 0 <= doe < 146097
    ensures 0 <= c < 4 && 0 <= k < 25 && 0 <= r < 1461
    ensures doe == 36524 * c + 1461 * k + r
    ensures 1461 * k + r < if c == 3 then 36525 else 36524
  {
    c := if doe == 146096 then 3 else doe / 36524;
    var n := doe - 36524 * c;
    k, r := n / 1461, n % 1461;
  }

  /** The correction terms pick exactly the year of the era that holds day doe. */
  lemma YearOfEraCorrect(doe: int)
    requires 0 <= doe < 146097
    ensures 0 <= YearOfEra(doe) < 400
    ensures EraYearStart(YearOfEra(doe)) <= doe < EraYearStart(YearOfEra(doe) + 1)
  {
    var c, k, r := CycleOf(doe);
    var j := if r == 1460 then 3 else r / 365;
    YearOfEraByCycle(c, k, r);
    EraYearStartByCycle(c, k, j);
  }

  // ----- Months of a March-based year -----

  /** Day doy of a March-based year: the month and day the closed form computes. */
  lemma MonthStep(era: int, yoe: int, doy: int)
    requires 0 <= doy <= 365
    ensures ValidDate(CivilOfParts(era, yoe, doy)) || (doy == 365 && !IsLeap(yoe + era * 400 + 1))
    ensures doy < 364 ==> CivilOfParts(era, yoe, doy + 1) == NextDay(CivilOfParts(era, yoe, doy))
    ensures doy == 364 && IsLeap(yoe + era * 400 + 1)
            ==> CivilOfParts(era, yoe, 365) == NextDay(CivilOfParts(era, yoe, 364))
    ensures doy == (if IsLeap(yoe + era * 400 + 1) then 365 else 364)
            ==> CivilOfParts(era, yoe + 1, 0) == NextDay(CivilOfParts(era, yoe, doy))
  {
    var mp := (5 * doy + 2) / 153;
    assert 0 <= mp <= 11;
    assert 0 <= doy - (153 * mp + 2) / 5 <= 30;
  }

  // ----- The closed form is the naive calendar -----

  lemma {:induction false} EraYearStartMonotone(a: int, b: int)
    requires a <= b
    ensures EraYearStart(b) - EraYearStart(a) >= 365 * (b - a)
    decreases b - a
  {
    if a < b {
      EraYearStartMonotone(a, b - 1);
      EraYearLength(b - 1);
    }
  }

  /** The year of an era is the only one whose span holds the day. */
  lemma YearOfEraUnique(doe: int, y: int)
    requires 0 <= doe < 146097 && 0 <= y < 400
    requires EraYearStart(y) <= doe < EraYearStart(y + 1)
    ensures YearOfEra(doe) == y
    ensures DayOfYear(doe) == doe - EraYearStart(y)
  {
    YearOfEraCorrect(doe);
    if YearOfEra(doe) < y {
      EraYearStartMonotone(YearOfEra(doe) + 1, y);
    } else if YearOfEra(doe) > y {
      EraYearStartMonotone(y + 1, YearOfEra(doe));
    }
  }

  lemma LeapPeriod(y: int, era: int)
    ensures IsLeap(y + era * 400) == IsLeap(y)
  {
    var z := y + era * 400;
    assert z / 400 == y / 400 + era;
    assert z / 100 == y / 100 + 4 * era;
    assert z / 4 == y / 4 + 100 * era;
  }

  lemma EraYearDays(era: int, yoe: int)
    requires 0 <= yoe < 400
    ensures EraYearStart(yoe + 1) - EraYearStart(yoe) == if IsLeap(yoe + era * 400 + 1) then 366 else 365
    ensures 0 <= EraYearStart(yoe) < EraYearStart(yoe + 1) <= 146097
  {
    EraYearLength(yoe);
    LeapPeriod(yoe + 1, era);
    EraYearStartMonotone(0, yoe);
    EraYearStartMonotone(yoe + 1, 400);
  }

  /** Every day number splits into an era, a year of it and a day of that year. */
  lemma Split(days: int) returns (era: int, yoe: int, doy: int)
    ensures 0 <= yoe < 400 && 0 <= doy < if IsLeap(yoe + era * 400 + 1) then 366 else 365
    ensures days + 719468 == era * 146097 + EraYearStart(yoe) + doy
    ensures CivilFromDays(days) == CivilOfParts(era, yoe, doy)
  {
    hide *;
    var z := days + 719468;
    CivilIsOfParts(days);
    EraIsFloor(z);
    era := EraOf(z);
    var doe := z - era * 146097;
    yoe := YearOfEra(doe);
    YearOfEraCorrect(doe);
    YearOfEraUnique(doe, yoe);
    doy := DayOfYear(doe);
    EraYearDays(era, yoe);
  }

  /** The closed form undoes any split of a day number. */
  lemma Unsplit(days: int, era: int, yoe: int, doy: int)
    requires 0 <= yoe < 400 && 0 <= doy < if IsLeap(yoe + era * 400 + 1) then 366 else 365
    requires days + 719468 == era * 146097 + EraYearStart(yoe) + doy
    ensures CivilFromDays(days) == CivilOfParts(era, yoe, doy)
  {
    hide *;
    var z := days + 719468;
    var doe := EraYearStart(yoe) + doy;
    CivilIsOfParts(days);
    EraYearDays(era, yoe);
    EraIsFloor(z);
    FloorIsUnique(z, EraOf(z), era);
    YearOfEraUnique(doe, yoe);
  }

  /** The split of the next day. */
  lemma NextSplit(era: int, yoe: int, doy: int) returns (era': int, yoe': int, doy': int)
    requires 0 <= yoe < 400 && 0 <= doy < if IsLeap(yoe + era * 400 + 1) then 366 else 365
    ensures 0 <= yoe' < 400 && 0 <= doy' < if IsLeap(yoe' + era' * 400 + 1) then 366 else 365
    ensures era' * 146097 + EraYearStart(yoe') + doy' == era * 146097 + EraYearStart(yoe) + doy + 1
    ensures ValidDate(CivilOfParts(era, yoe, doy))
    ensures CivilOfParts(era', yoe', doy') == NextDay(CivilOfParts(era, yoe, doy))
  {
    MonthStep(era, yoe, doy);
    EraYearDays(era, yoe);
    if doy + 1 < if IsLeap(yoe + era * 400 + 1) then 366 else 365 {
      era', yoe', doy' := era, yoe, doy + 1;
    } else if yoe + 1 < 400 {
      era', yoe', doy' := era, yoe + 1, 0;
    } else {
      era', yoe', doy' := era + 1, 0, 0;
      assert EraYearStart(400) == 146097;
      assert CivilOfParts(era + 1, 0, 0) == CivilOfParts(era, 400, 0);
    }
  }

  /** Day d + 1 is the calendar successor of day d, and both are dates of the calendar. */
  lemma CivilStep(days: int)
    ensures ValidDate(CivilFromDays(days))
    ensures CivilFromDays(days + 1) == NextDay(CivilFromDays(days))
  {
    var era, yoe, doy := Split(days);
    var era', yoe', doy' := NextSplit(era, yoe, doy);
    Unsplit(days + 1, era', yoe', doy');
  }

  ghost predicate IsCalendar(calendar: int -> Date) {
    && calendar(0) == Date(1970, 1, 1)
    && (forall d :: ValidDate(calendar(d)))
    && (forall d, e {:trigger calendar(d), calendar(e)} :: e == d + 1 ==> calendar(e) == NextDay(calendar(d)))
  }

  /** A calendar that starts right and steps right is the naive one. */
  lemma {:induction false} StepsDetermine(calendar: int -> Date, n: int)
    requires IsCalendar(calendar)
    ensures calendar(n) == NaiveDate(n)
    decreases if n < 0 then -n else n
  {
    if n > 0 {
      StepsDetermine(calendar, n - 1);
    } else if n < 0 {
      StepsDetermine(calendar, n + 1);
    }
  }

  lemma CivilEpoch()
    ensures CivilFromDays(0) == Date(1970, 1, 1)
  {
  }

  lemma CivilIsCalendar()
    ensures IsCalendar(CivilFromDays)
  {
    CivilEpoch();
    hide CivilFromDays;
    forall d ensures ValidDate(CivilFromDays(d)) {
      CivilStep(d);
    }
    forall d, e | e == d + 1 ensures CivilFromDays(e) == NextDay(CivilFromDays(d)) {
      CivilStep(d);
    }
  }

  /** For every day number, before or after 1970, the closed form is the naive calendar. */
  lemma CivilIsNaive(n: int)
    ensures CivilFromDays(n) == NaiveDate(n)
  {
    CivilIsCalendar();
    StepsDetermine(CivilFromDays, n);
  }

  lemma NaiveDateValid(n: int)
    ensures ValidDate(NaiveDate(n))
  {
    CivilIsCalendar();
    StepsDetermine(CivilFromDays, n);
  }

  // ----- From a date back to its day number -----

  function DayOfMarchYear(m: int, d: int): int {
    (153 * (if m > 2 then m - 3 else m + 9) + 2) / 5 + d - 1
  }

  function DaysFromCivil(date: Date): int {
    var y := if date.month <= 2 then date.year - 1 else date.year;
    y / 400 * 146097 + EraYearStart(y % 400) + DayOfMarchYear(date.month, date.day) - 719468
  }

  lemma MonthInverse(era: int, yoe: int, date: Date)
    requires ValidDate(date)
    requires yoe + era * 400 == if date.month <= 2 then date.year - 1 else date.year
    ensures var doy := DayOfMarchYear(date.month, date.day);
            0 <= doy < (if IsLeap(yoe + era * 400 + 1) then 366 else 365)
            && CivilOfParts(era, yoe, doy) == date
  {
    var doy := DayOfMarchYear(date.month, date.day);
    assert (5 * doy + 2) / 153 == if date.month > 2 then date.month - 3 else date.month + 9;
  }

  /** Every date of the calendar is the date of exactly one day number. */
  lemma CivilRoundTrip(date: Date)
    requires ValidDate(date)
    ensures CivilFromDays(DaysFromCivil(date)) == date
  {
    var y := if date.month <= 2 then date.year - 1 else date.year;
    var era, yoe := y / 400, y % 400;
    MonthInverse(era, yoe, date);
    Unsplit(DaysFromCivil(date), era, yoe, DayOfMarchYear(date.month, date.day));
  }

  lemma MonthForward(era: int, yoe: int, doy: int)
    requires 0 <= yoe < 400 && 0 <= doy <= 365
    ensures var date := CivilOfParts(era, yoe, doy);
            DayOfMarchYear(date.month, date.day) == doy
            && (if date.month <= 2 then date.year - 1 else date.year) == yoe + era * 400
  {
    var mp := (5 * doy + 2) / 153;
    assert 0 <= mp <= 11;
  }

  lemma DayNumberRoundTrip(n: int)
    ensures DaysFromCivil(CivilFromDays(n)) == n
  {
    var era, yoe, doy := Split(n);
    MonthForward(era, yoe, doy);
    assert (yoe + era * 400) / 400 == era && (yoe + era * 400) % 400 == yoe;
  }

  /** March-based years follow one another across the era boundary. */
  function MarchYearStart(a: int): int {
    a / 400 * 146097 + EraYearStart(a % 400)
  }

  lemma MarchYearStep(a: int)
    ensures MarchYearStart(a + 1) - MarchYearStart(a) == if IsLeap(a + 1) then 366 else 365
  {
    EraYearDays(a / 400, a % 400);
    if a % 400 == 399 {
      assert (a + 1) / 400 == a / 400 + 1 && (a + 1) % 400 == 0;
      assert EraYearStart(400) == 146097;
    } else {
      assert (a + 1) / 400 == a / 400 && (a + 1) % 400 == a % 400 + 1;
    }
  }

  /** The same date one year later, for a date that every year has. */
  lemma YearLater(y: int, m: int, d: int)
    requires 1 <= m <= 12 && 1 <= d <= DaysInMonth(y, m) && !(m == 2 && d == 29)
    ensures 365 <= DaysFromCivil(Date(y + 1, m, d)) - DaysFromCivil(Date(y, m, d)) <= 366
  {
    MarchYearStep(if m <= 2 then y - 1 else y);
  }

  /** A date lies between the first days of its year and of the next. */
  lemma WithinYear(date: Date)
    requires ValidDate(date)
    ensures DaysFromCivil(Date(date.year, 1, 1)) <= DaysFromCivil(date) < DaysFromCivil(Date(date.year + 1, 1, 1))
    ensures DaysFromCivil(Date(date.year + 1, 1, 1)) - DaysFromCivil(Date(date.year, 1, 1)) <= 366
  {
    MarchYearStep(date.year - 1);
    assert DayOfMarchYear(1, 1) == 306;
    hide DaysFromCivil, MarchYearStart, DayOfMarchYear;
  }

  lemma {:induction false} YearsAscend(y: int, z: int)
    requires y <= z
    ensures DaysFromCivil(Date(y, 1, 1)) + 365 * (z - y) <= DaysFromCivil(Date(z, 1, 1))
    decreases z - y
  {
    if y < z {
      YearsAscend(y, z - 1);
      YearLater(z - 1, 1, 1);
    }
  }

  /** Day n lies in the calendar year its date names. */
  lemma YearOfDay(n: int)
    ensures var y := CivilFromDays(n).year;
            DaysFromCivil(Date(y, 1, 1)) <= n < DaysFromCivil(Date(y + 1, 1, 1))
  {
    hide CivilFromDays, DaysFromCivil;
    CivilStep(n);
    DayNumberRoundTrip(n);
    WithinYear(CivilFromDays(n));
  }
}
