/** Civil dates and Unix time: two conversions that live in different crates, and the Gregorian
    calendar they are both measured against. Dafny's `/` floors for positive divisors, which is
    `div_euclid`; the truncating division of the source is written out. */
module Calendar {

  // ------------------------------------------------------------ the source's arithmetic

  /** Division toward zero, for a positive divisor. */
  function TruncDiv(a: int, b: int): int
    requires b > 0
  {
    if a >= 0 then a / b else -((-a) / b)
  }

  /** Days since 1970-01-01. */
  function DaysFromCivil(year: int, month: int, day: int): int {
    var y := if month <= 2 then year - 1 else year;
    var era := TruncDiv(if y >= 0 then y else y - 399, 400);
    var yoe := y - era * 400;
    var mp := if month > 2 then month - 3 else month + 9;
    var doy := TruncDiv(153 * mp + 2, 5) + day - 1;
    var doe := yoe * 365 + TruncDiv(yoe, 4) - TruncDiv(yoe, 100) + doy;
    era * 146097 + doe - 719468
  }

  datatype Date = Date(year: int, month: int, day: int)
  datatype Stamp = Stamp(date: Date, hour: int, minute: int, second: int)

  function YearOfEra(doe: int): int {
    (doe - doe / 1460 + doe / 36524 - doe / 146096) / 365
  }

  function CivilFromDays(days: int): Date {
    var z := days + 719468;
    CivilOfEra(z / 146097, z % 146097)
  }

  function CivilOfEra(era: int, doe: int): Date {
    var yoe := YearOfEra(doe);
    var y := yoe + era * 400;
    var doy := doe - (365 * yoe + yoe / 4 - yoe / 100);
    var mp := (5 * doy + 2) / 153;
    var d := doy - (153 * mp + 2) / 5 + 1;
    var m := if mp < 10 then mp + 3 else mp - 9;
    Date(if m <= 2 then y + 1 else y, m, d)
  }

  /** The fields `chrono_lite` prints. */
  function ChronoLite(unix: int): Stamp {
    var secs := unix % 86400;
    Stamp(CivilFromDays(unix / 86400), secs / 3600, (secs % 3600) / 60, secs % 60)
  }

  // ------------------------------------------------------------ the Gregorian calendar

  predicate IsLeap(year: int) {
    year % 4 == 0 && (year % 100 != 0 || year % 400 == 0)
  }

  function DaysInMonth(year: int, month: int): int {
    if month == 2 then (if IsLeap(year) then 29 else 28)
    else if month == 4 || month == 6 || month == 9 || month == 11 then 30
    else 31
  }

  predicate IsDate(d: Date) {
    1 <= d.month <= 12 && 1 <= d.day <= DaysInMonth(d.year, d.month)
  }

  function NextDay(d: Date): Date {
    if d.day < DaysInMonth(d.year, d.month) then Date(d.year, d.month, d.day + 1)
    else if d.month < 12 then Date(d.year, d.month + 1, 1)
    else Date(d.year + 1, 1, 1)
  }

  function DayNumber(d: Date): int {
    DaysFromCivil(d.year, d.month, d.day)
  }

  // ------------------------------------------------------------ days and years of an era

  /** A day of the 400-year era, in centuries, four-year blocks, years (from March) and days. */
  ghost predicate EraDay(doe: int, c: int, q: int, k: int, t: int) {
    && 0 <= c <= 3 && 0 <= q <= 24 && 0 <= k <= 3 && 0 <= t
    && doe == 36524 * c + 1461 * q + 365 * k + t
    && (t <= 364 || (t == 365 && k == 3 && (q < 24 || c == 3)))
  }

  lemma SplitEra(doe: int) returns (c: int, q: int, k: int, t: int)
    requires 0 <= doe < 146097
    ensures EraDay(doe, c, q, k, t)
  {
    c := if doe < 36524 then 0 else if doe < 73048 then 1 else if doe < 109572 then 2 else 3;
    var r := doe - 36524 * c;
    q := r / 1461;
    var s := r % 1461;
    k := if s < 365 then 0 else if s < 730 then 1 else if s < 1095 then 2 else 3;
    t := s - 365 * k;
  }

  /** The year formula finds the year of the era. */
  lemma YearOfEraIs(doe: int, c: int, q: int, k: int, t: int)
    requires EraDay(doe, c, q, k, t)
    ensures YearOfEra(doe) == 100 * c + 4 * q + k
  {
    var s := 365 * k + t;
    var last := if doe == 146096 then 1 else 0;
    assert doe / 146096 == last;
    assert doe / 36524 == c + last;
    var over := if 24 * c + q + s >= 1460 then 1 else 0;
    assert doe / 1460 == 25 * c + q + over;
    assert (doe - doe / 1460 + doe / 36524 - doe / 146096) / 365 == 100 * c + 4 * q + k;
  }

  lemma YearParts(c: int, q: int, k: int)
    requires 0 <= c <= 3 && 0 <= q <= 24 && 0 <= k <= 3
    ensures var n := 100 * c + 4 * q + k; n / 4 == 25 * c + q && n / 100 == c && 0 <= n < 400
  {
    assert (100 * c + 4 * q + k) / 4 == 25 * c + q;
    assert (100 * c + 4 * q + k) / 100 == c;
  }

  /** The February that ends year `n` of an era has a 29th in the leap years only. */
  lemma LastDayIsLeap(era: int, c: int, q: int, k: int)
    requires 0 <= c <= 3 && 0 <= q <= 24 && 0 <= k <= 3
    ensures IsLeap(era * 400 + 100 * c + 4 * q + k + 1) <==> k == 3 && (q < 24 || c == 3)
  {
    var y := era * 400 + 100 * c + 4 * q + k + 1;
    assert y / 4 == 100 * era + 25 * c + q + if k == 3 then 1 else 0;
    var endsCentury := q == 24 && k == 3;
    assert y / 100 == 4 * era + c + if endsCentury then 1 else 0;
    assert y / 400 == era + if endsCentury && c == 3 then 1 else 0;
  }

  // ------------------------------------------------------------ days and months of a year

  /** First day of a month in a year that starts in March. */
  function MonthStart(month: int): int {
    (153 * (if month > 2 then month - 3 else month + 9) + 2) / 5
  }

  function MonthOfDay(t: int): int {
    var mp := (5 * t + 2) / 153;
    if mp < 10 then mp + 3 else mp - 9
  }

  /** The month formula picks the month that contains the day. */
  lemma MonthContainsDay(t: int)
    requires 0 <= t <= 365
    ensures var m := MonthOfDay(t);
            && 1 <= m <= 12
            && 1 <= t - MonthStart(m) + 1
            && t - MonthStart(m) + 1 <= (if m == 2 then (if t == 365 then 29 else 28) else DaysInMonth(0, m))
  {
  }

  lemma MonthFromDay(month: int, day: int)
    requires 1 <= month <= 12 && 1 <= day <= DaysInMonth(0, month)
    ensures MonthOfDay(MonthStart(month) + day - 1) == month
    ensures 0 <= MonthStart(month) + day - 1 <= 365
    ensures MonthStart(month) + day - 1 == 365 <==> month == 2 && day == 29
  {
  }

  /** The year, counted from March, that a month of a civil year belongs to. */
  function MarchYear(year: int, month: int): int {
    if month <= 2 then year - 1 else year
  }

  /** Days since the epoch, by era, century, four-year block, year and day. */
  function DayIn(era: int, c: int, q: int, k: int, t: int): int {
    era * 146097 + 36524 * c + 1461 * q + 365 * k + t - 719468
  }

  lemma DaysFromParts(d: Date, era: int, c: int, q: int, k: int)
    requires 1 <= d.month <= 12 && 0 <= c <= 3 && 0 <= q <= 24 && 0 <= k <= 3
    requires MarchYear(d.year, d.month) == era * 400 + 100 * c + 4 * q + k
    ensures DayNumber(d) == DayIn(era, c, q, k, MonthStart(d.month) + d.day - 1)
  {
    var n := 100 * c + 4 * q + k;
    var y := era * 400 + n;
    YearParts(c, q, k);
    assert TruncDiv(if y >= 0 then y else y - 399, 400) == era;
  }

  /** The era and the day of it, from a day number. */
  lemma CivilIsOfEra(days: int, era: int, doe: int)
    requires 0 <= doe < 146097 && days + 719468 == era * 146097 + doe
    ensures CivilFromDays(days) == CivilOfEra(era, doe)
  {
    assert (days + 719468) / 146097 == era;
  }

  /** Year and day of year, month and day of month: the rest of `chrono_lite`'s date. */
  function DateOfYearDay(y: int, t: int): Date {
    var m := MonthOfDay(t);
    Date(if m <= 2 then y + 1 else y, m, t - MonthStart(m) + 1)
  }

  lemma MonthStartOfDay(t: int)
    requires 0 <= t <= 365
    ensures MonthStart(MonthOfDay(t)) == (153 * ((5 * t + 2) / 153) + 2) / 5
  {
  }

  lemma CivilOfEraParts(era: int, doe: int, c: int, q: int, k: int, t: int)
    requires EraDay(doe, c, q, k, t)
    ensures CivilOfEra(era, doe) == DateOfYearDay(era * 400 + 100 * c + 4 * q + k, t)
  {
    YearOfEraIs(doe, c, q, k, t);
    YearParts(c, q, k);
    MonthStartOfDay(t);
  }

  lemma CivilFromParts(era: int, c: int, q: int, k: int, t: int)
    requires EraDay(36524 * c + 1461 * q + 365 * k + t, c, q, k, t)
    ensures CivilFromDays(DayIn(era, c, q, k, t)) == DateOfYearDay(era * 400 + 100 * c + 4 * q + k, t)
  {
    var doe := 36524 * c + 1461 * q + 365 * k + t;
    CivilIsOfEra(DayIn(era, c, q, k, t), era, doe);
    CivilOfEraParts(era, doe, c, q, k, t);
  }

  lemma SplitDays(days: int) returns (era: int, c: int, q: int, k: int, t: int)
    ensures EraDay(36524 * c + 1461 * q + 365 * k + t, c, q, k, t) && days == DayIn(era, c, q, k, t)
  {
    var z := days + 719468;
    era := z / 146097;
    c, q, k, t := SplitEra(z % 146097);
  }

  lemma SplitYear(y: int) returns (era: int, c: int, q: int, k: int)
    ensures 0 <= c <= 3 && 0 <= q <= 24 && 0 <= k <= 3 && y == era * 400 + 100 * c + 4 * q + k
  {
    era := y / 400;
    var n := y % 400;
    c := n / 100;
    q := (n % 100) / 4;
    k := n % 4;
  }

  // ------------------------------------------------------------ the laws

  /** Every day number: the civil date is a Gregorian date and converts back to the number. */
  lemma DaysRoundTrip(days: int)
    ensures IsDate(CivilFromDays(days)) && DayNumber(CivilFromDays(days)) == days
  {
    var era, c, q, k, t := SplitDays(days);
    CivilFromParts(era, c, q, k, t);
    ValidYearDay(era, c, q, k, t);
    DaysFromParts(DateOfYearDay(era * 400 + 100 * c + 4 * q + k, t), era, c, q, k);
  }

  lemma ValidYearDay(era: int, c: int, q: int, k: int, t: int)
    requires EraDay(36524 * c + 1461 * q + 365 * k + t, c, q, k, t)
    ensures var date := DateOfYearDay(era * 400 + 100 * c + 4 * q + k, t);
            && IsDate(date) && MarchYear(date.year, date.month) == era * 400 + 100 * c + 4 * q + k
            && MonthStart(date.month) + date.day - 1 == t
  {
    MonthContainsDay(t);
    LastDayIsLeap(era, c, q, k);
  }

  /** Every Gregorian date: its day number converts back to the date. */
  lemma DateRoundTrip(d: Date)
    requires IsDate(d)
    ensures CivilFromDays(DayNumber(d)) == d
  {
    var y := MarchYear(d.year, d.month);
    var era, c, q, k := SplitYear(y);
    var t := YearDayOfDate(d, era, c, q, k);
    DaysFromParts(d, era, c, q, k);
    CivilFromParts(era, c, q, k, t);
  }

  lemma YearDayOfDate(d: Date, era: int, c: int, q: int, k: int) returns (t: int)
    requires IsDate(d) && 0 <= c <= 3 && 0 <= q <= 24 && 0 <= k <= 3
    requires MarchYear(d.year, d.month) == era * 400 + 100 * c + 4 * q + k
    ensures t == MonthStart(d.month) + d.day - 1 && EraDay(36524 * c + 1461 * q + 365 * k + t, c, q, k, t)
    ensures DateOfYearDay(era * 400 + 100 * c + 4 * q + k, t) == d
  {
    t := MonthStart(d.month) + d.day - 1;
    MonthFromDay(d.month, d.day);
    LastDayIsLeap(era, c, q, k);
  }

  /** The parts of the next year, and how long this one is. */
  lemma NextYear(era: int, c: int, q: int, k: int) returns (e: int, c': int, q': int, k': int)
    requires 0 <= c <= 3 && 0 <= q <= 24 && 0 <= k <= 3
    ensures 0 <= c' <= 3 && 0 <= q' <= 24 && 0 <= k' <= 3
    ensures e * 400 + 100 * c' + 4 * q' + k' == era * 400 + 100 * c + 4 * q + k + 1
    ensures DayIn(e, c', q', k', 0) == DayIn(era, c, q, k, if k == 3 && (q < 24 || c == 3) then 366 else 365)
  {
    e, c', q', k' := era, c, q, k + 1;
    if k == 3 {
      q', k' := q + 1, 0;
      if q == 24 {
        c', q' := c + 1, 0;
        if c == 3 { e, c' := era + 1, 0; }
      }
    }
  }

  /** The next day is the next one of the March year, or the first of the next March year. */
  lemma NextDayInYear(d: Date)
    requires IsDate(d)
    ensures var next, t := NextDay(d), MonthStart(d.month) + d.day - 1;
            && IsDate(next)
            && if d.month == 2 && next.month == 3 then
                 next.day == 1 && MarchYear(next.year, 3) == MarchYear(d.year, 2) + 1
                 && t == (if IsLeap(d.year) then 365 else 364)
               else
                 MarchYear(next.year, next.month) == MarchYear(d.year, d.month)
                 && MonthStart(next.month) + next.day - 1 == t + 1
  {
  }

  /** `days_from_civil` counts days: it is 0 on 1970-01-01 and one more on each next day. */
  lemma DayNumberCountsDays(d: Date)
    requires IsDate(d)
    ensures IsDate(NextDay(d)) && DayNumber(NextDay(d)) == DayNumber(d) + 1
  {
    var next := NextDay(d);
    var era, c, q, k := SplitYear(MarchYear(d.year, d.month));
    DaysFromParts(d, era, c, q, k);
    LastDayIsLeap(era, c, q, k);
    NextDayInYear(d);
    if next.month == 3 && d.month == 2 {
      var e, c', q', k' := NextYear(era, c, q, k);
      DaysFromParts(next, e, c', q', k');
    } else {
      DaysFromParts(next, era, c, q, k);
    }
  }

  lemma EpochIsDayZero()
    ensures DayNumber(Date(1970, 1, 1)) == 0
  {
  }

  /** The seconds a stamp stands for, recombined as the feed parser does. */
  function StampSeconds(s: Stamp): int {
    DayNumber(s.date) * 86400 + s.hour * 3600 + s.minute * 60 + s.second
  }

  predicate IsStamp(s: Stamp) {
    IsDate(s.date) && 0 <= s.hour < 24 && 0 <= s.minute < 60 && 0 <= s.second < 60
  }

  lemma ClockOfDay(secs: int)
    requires 0 <= secs < 86400
    ensures secs == (secs / 3600) * 3600 + ((secs % 3600) / 60) * 60 + secs % 60
    ensures 0 <= secs / 3600 < 24 && 0 <= (secs % 3600) / 60 < 60 && 0 <= secs % 60 < 60
  {
  }

  /** Every timestamp, before 1970 too, prints as a valid stamp that recombines to it. */
  lemma StampRoundTrip(unix: int)
    ensures IsStamp(ChronoLite(unix)) && StampSeconds(ChronoLite(unix)) == unix
  {
    DaysRoundTrip(unix / 86400);
    ClockOfDay(unix % 86400);
  }

  lemma SecondsOfDay(days: int, secs: int)
    requires 0 <= secs < 86400
    ensures (days * 86400 + secs) / 86400 == days && (days * 86400 + secs) % 86400 == secs
  {
  }

  lemma ClockFields(h: int, m: int, s: int)
    requires 0 <= h < 24 && 0 <= m < 60 && 0 <= s < 60
    ensures var secs := h * 3600 + m * 60 + s; secs / 3600 == h && (secs % 3600) / 60 == m && secs % 60 == s
  {
  }

  /** Every valid stamp is what its own timestamp prints as. */
  lemma StampFromSeconds(s: Stamp)
    requires IsStamp(s)
    ensures ChronoLite(StampSeconds(s)) == s
  {
    hide DayNumber, CivilFromDays, IsDate;
    DateRoundTrip(s.date);
    SecondsOfDay(DayNumber(s.date), s.hour * 3600 + s.minute * 60 + s.second);
    ClockFields(s.hour, s.minute, s.second);
  }
}
