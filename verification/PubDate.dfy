/** RFC 822 publication dates: `parse_pub_date` on the whitespace-separated fields. */
module PubDate {
  import opened Wrappers
  import opened Calendar
  import opened Text

  const I64_MIN: int := -0x8000_0000_0000_0000
  const I64_MAX: int := 0x7fff_ffff_ffff_ffff

  predicate IsDigit(c: char) {
    '0' <= c <= '9'
  }

  function DigitValue(c: char): int {
    c as int - '0' as int
  }

  predicate AllDigits(s: string) {
    forall i :: 0 <= i < |s| ==> IsDigit(s[i])
  }

  function Value(s: string): int {
    if s == [] then 0 else 10 * Value(s[..|s| - 1]) + DigitValue(s[|s| - 1])
  }

  /** `str::parse::<i64>`: an optional sign, then digits, within range. */
  function ParseI64(s: string): Option<int> {
    var digits := if s != [] && (s[0] == '+' || s[0] == '-') then s[1..] else s;
    if digits == [] || !AllDigits(digits) then None
    else
      var v := if s[0] == '-' then -Value(digits) else Value(digits);
      if I64_MIN <= v <= I64_MAX then Some(v) else None
  }

  function Get(fields: seq<string>, i: nat): Option<string> {
    if i < |fields| then Some(fields[i]) else None
  }

  function LowerChar(c: char): char {
    if 'A' <= c <= 'Z' then (c as int + 32) as char else c
  }

  function Lower(s: string): (r: string)
    ensures |r| == |s| && forall i :: 0 <= i < |s| ==> r[i] == LowerChar(s[i])
  {
    seq(|s|, i requires 0 <= i < |s| => LowerChar(s[i]))
  }

  const MONTHS: seq<string> :=
    ["jan", "feb", "mar", "apr", "may", "jun", "jul", "aug", "sep", "oct", "nov", "dec"]

  /** The first month from number `m` whose three-letter name starts the lower-cased field. */
  function MonthFrom(lower: string, m: nat): Option<int>
    requires 1 <= m <= 13
    decreases 13 - m
  {
    if m == 13 then None
    else if MONTHS[m - 1] <= lower then Some(m)
    else MonthFrom(lower, m + 1)
  }

  function MonthIndex(name: string): Option<int> {
    MonthFrom(Lower(name), 1)
  }

  function DigitsOf(s: string): string {
    if s == [] then [] else (if IsDigit(s[0]) then [s[0]] else []) + DigitsOf(s[1..])
  }

  /** The zone in seconds; anything without four digits counts as zero. */
  function ParseOffset(field: Option<string>): int {
    match field
    case None => 0
    case Some(raw) =>
      var sign := if raw != [] && raw[0] == '-' then -1 else 1;
      var digits := DigitsOf(raw);
      if |digits| < 4 then 0 else sign * (Value(digits[..2]) * 3600 + Value(digits[2..4]) * 60)
  }

  function ClockPart(parts: seq<string>, i: nat): Option<int> {
    if i < |parts| then ParseI64(parts[i]) else Some(0)
  }

  datatype Clock = Clock(hour: int, minute: int, second: int)

  /** Hour, minute and second; the last two default to zero. */
  function ParseClock(text: string): Option<Clock> {
    var clock := SplitOn(text, ':');
    match (ParseI64(clock[0]), ClockPart(clock, 1), ClockPart(clock, 2))
    case (Some(hour), Some(minute), Some(second)) => Some(Clock(hour, minute, second))
    case _ => None
  }

  function ParseDate(day: string, month: string, year: string): Option<Date> {
    match (ParseI64(day), MonthIndex(month), ParseI64(year))
    case (Some(d), Some(m), Some(y)) => Some(Date(y, m, d))
    case _ => None
  }

  predicate Fits(n: int) {
    I64_MIN <= n <= I64_MAX
  }

  /** The year counted from March, and the month counted so. */
  function MarchYear(d: Date): int {
    if d.month <= 2 then d.year - 1 else d.year
  }

  function MarchMonth(d: Date): int {
    if d.month > 2 then d.month - 3 else d.month + 9
  }

  function EraOf(y: int): int {
    TruncDiv(if y >= 0 then y else y - 399, 400)
  }

  function DayOfMarchYear(mp: int, day: int): int {
    TruncDiv(153 * mp + 2, 5) + day - 1
  }

  function DayOfEra(yoe: int, doy: int): int {
    yoe * 365 + TruncDiv(yoe, 4) - TruncDiv(yoe, 100) + doy
  }

  /** No intermediate result of `days_from_civil` leaves 64 bits. The month is one of twelve. */
  predicate DateFits(d: Date) {
    var y, doy := MarchYear(d), DayOfMarchYear(MarchMonth(d), d.day);
    StepsFit(y, EraOf(y), doy, DayOfEra(y - EraOf(y) * 400, doy))
  }

  predicate StepsFit(y: int, era: int, doy: int, doe: int) {
    && Fits(y) && (y < 0 ==> Fits(y - 399)) && Fits(era * 400) && Fits(doy + 1) && Fits(doy) && Fits(doe)
    && Fits(era * 146097) && Fits(era * 146097 + doe) && Fits(era * 146097 + doe - 719468)
  }

  /** No intermediate result of the final sum does, taken from left to right. */
  predicate SumFits(days: int, clock: Clock, offset: int) {
    var day, hour, minute := days * 86400, clock.hour * 3600, clock.minute * 60;
    && Fits(day) && Fits(hour) && Fits(day + hour) && Fits(minute) && Fits(day + hour + minute)
    && Fits(day + hour + minute + clock.second) && Fits(day + hour + minute + clock.second - offset)
  }

  /** No date, a sum outside 64 bits, or Unix seconds. */
  datatype Parsed = NotADate | Overflows | Unix(seconds: int)

  function SumOf(date: Date, clock: Clock, offset: int): Parsed {
    var days := DayNumber(date);
    if DateFits(date) && SumFits(days, clock, offset) then
      Unix(days * 86400 + clock.hour * 3600 + clock.minute * 60 + clock.second - offset)
    else Overflows
  }

  /** `parse_pub_date`: the weekday is skipped when the first field ends with a comma. */
  function ParsePubDate(fields: seq<string>): Parsed {
    var start := if fields != [] && EndsWithComma(fields[0]) then 1 else 0;
    if start + 3 >= |fields| then NotADate
    else
      match (ParseDate(fields[start], fields[start + 1], fields[start + 2]), ParseClock(fields[start + 3]))
      case (Some(date), Some(clock)) => SumOf(date, clock, ParseOffset(Get(fields, start + 4)))
      case _ => NotADate
  }

  predicate EndsWithComma(s: string) {
    s != [] && s[|s| - 1] == ','
  }

  // ------------------------------------------------------------ printing, section 5 of RFC 822

  function DigitChar(d: int): char
    requires 0 <= d <= 9
  {
    ('0' as int + d) as char
  }

  function Decimal(n: nat): string {
    if n < 10 then [DigitChar(n)] else Decimal(n / 10) + [DigitChar(n % 10)]
  }

  function Signed(n: int): string {
    if n < 0 then ['-'] + Decimal(-n) else Decimal(n)
  }

  function TwoDigits(n: int): string
    requires 0 <= n <= 99
  {
    [DigitChar(n / 10), DigitChar(n % 10)]
  }

  const MONTH_NAMES: seq<string> :=
    ["Jan", "Feb", "Mar", "Apr", "May", "Jun", "Jul", "Aug", "Sep", "Oct", "Nov", "Dec"]

  /** A zone of the form +HHMM or -HHMM. */
  datatype Zone = Zone(negative: bool, hours: int, minutes: int) {
    predicate Valid() {
      0 <= hours <= 99 && 0 <= minutes <= 99
    }

    function Seconds(): int {
      (if negative then -1 else 1) * (hours * 3600 + minutes * 60)
    }

    function Print(): string
      requires Valid()
    {
      [if negative then '-' else '+'] + TwoDigits(hours) + TwoDigits(minutes)
    }
  }

  function PrintClock(s: Stamp): string
    requires IsStamp(s)
  {
    TwoDigits(s.hour) + ":" + TwoDigits(s.minute) + ":" + TwoDigits(s.second)
  }

  /** The fields of a stamp read in a zone. */
  function Rfc822Fields(weekday: seq<string>, s: Stamp, zone: Zone): (fields: seq<string>)
    requires zone.Valid() && IsStamp(s)
    ensures |fields| == |weekday| + 5
  {
    weekday + [Decimal(s.date.day), MONTH_NAMES[s.date.month - 1], Signed(s.date.year), PrintClock(s), zone.Print()]
  }

  lemma {:induction false} DecimalParses(n: nat)
    ensures Decimal(n) != [] && AllDigits(Decimal(n)) && Value(Decimal(n)) == n
  {
    if n >= 10 {
      DecimalParses(n / 10);
      var s := Decimal(n);
      assert s[..|s| - 1] == Decimal(n / 10);
    }
  }

  lemma SignedParses(n: int)
    requires I64_MIN <= n <= I64_MAX
    ensures ParseI64(Signed(n)) == Some(n)
  {
    DecimalParses(if n < 0 then -n else n);
    if n < 0 {
      assert Signed(n)[1..] == Decimal(-n);
    } else {
      assert IsDigit(Signed(n)[0]);
    }
  }

  lemma TwoDigitsParse(n: int)
    requires 0 <= n <= 99
    ensures Value(TwoDigits(n)) == n && ParseI64(TwoDigits(n)) == Some(n)
  {
    var s := TwoDigits(n);
    assert s[..1] == [DigitChar(n / 10)];
    assert Value(s[..1]) == n / 10;
  }

  lemma MonthParses(m: int)
    requires 1 <= m <= 12
    ensures MonthIndex(MONTH_NAMES[m - 1]) == Some(m)
  {
    var lower := Lower(MONTH_NAMES[m - 1]);
    assert lower == MONTHS[m - 1];
    FirstMonthIs(m, 1);
  }

  ghost function Spelling(m: int): (char, char, char) {
    match m
    case 1 => ('j', 'a', 'n')
    case 2 => ('f', 'e', 'b')
    case 3 => ('m', 'a', 'r')
    case 4 => ('a', 'p', 'r')
    case 5 => ('m', 'a', 'y')
    case 6 => ('j', 'u', 'n')
    case 7 => ('j', 'u', 'l')
    case 8 => ('a', 'u', 'g')
    case 9 => ('s', 'e', 'p')
    case 10 => ('o', 'c', 't')
    case 11 => ('n', 'o', 'v')
    case _ => ('d', 'e', 'c')
  }

  lemma MonthSpelling(m: int)
    requires 1 <= m <= 12
    ensures |MONTHS[m - 1]| == 3
    ensures MONTHS[m - 1][0] == Spelling(m).0 && MONTHS[m - 1][1] == Spelling(m).1 && MONTHS[m - 1][2] == Spelling(m).2
  {
  }

  lemma {:induction false} FirstMonthIs(m: nat, from: nat)
    requires 1 <= from <= m <= 12
    ensures MonthFrom(MONTHS[m - 1], from) == Some(m)
    decreases m - from
  {
    if from < m {
      MonthSpelling(from);
      MonthSpelling(m);
      assert !(MONTHS[from - 1] <= MONTHS[m - 1]);
      FirstMonthIs(m, from + 1);
    }
  }

  lemma ZoneParses(zone: Zone)
    requires zone.Valid()
    ensures ParseOffset(Some(zone.Print())) == zone.Seconds()
  {
    var raw := zone.Print();
    var a, b := TwoDigits(zone.hours), TwoDigits(zone.minutes);
    TwoDigitsParse(zone.hours);
    TwoDigitsParse(zone.minutes);
    PrintedDigits(zone);
    hide TwoDigits, Value, DigitsOf;
    assert (a + b)[..2] == a && (a + b)[2..4] == b;
    assert raw[0] == '-' <==> zone.negative;
  }

  lemma PrintedDigits(zone: Zone)
    requires zone.Valid()
    ensures DigitsOf(zone.Print()) == TwoDigits(zone.hours) + TwoDigits(zone.minutes)
  {
    var raw, digits := zone.Print(), TwoDigits(zone.hours) + TwoDigits(zone.minutes);
    assert raw[1..] == digits;
    DigitsOfDigits(digits);
  }

  lemma {:induction false} DigitsOfDigits(s: string)
    requires AllDigits(s)
    ensures DigitsOf(s) == s
  {
    if s != [] { DigitsOfDigits(s[1..]); }
  }

  lemma ClockParses(s: Stamp)
    requires IsStamp(s)
    ensures ParseClock(PrintClock(s)) == Some(Clock(s.hour, s.minute, s.second))
  {
    var a, b, c := TwoDigits(s.hour), TwoDigits(s.minute), TwoDigits(s.second);
    SplitOnPlain(c, ':');
    SplitOnNext(b, ':', c);
    SplitOnNext(a, ':', b + [':'] + c);
    assert PrintClock(s) == a + [':'] + (b + [':'] + c);
    TwoDigitsParse(s.hour);
    TwoDigitsParse(s.minute);
    TwoDigitsParse(s.second);
  }

  lemma DateParses(d: Date)
    requires IsDate(d) && I64_MIN <= d.year <= I64_MAX
    ensures ParseDate(Decimal(d.day), MONTH_NAMES[d.month - 1], Signed(d.year)) == Some(d)
  {
    SignedParses(d.day);
    SignedParses(d.year);
    MonthParses(d.month);
  }

  lemma YearFits(at: int)
    requires I64_MIN * 86400 <= at <= I64_MAX * 86400
    ensures I64_MIN <= ChronoLite(at).date.year <= I64_MAX
  {
    var era, c, q, k, t := SplitDays(at / 86400);
    CivilFromParts(era, c, q, k, t);
  }

  /** The weekday field, when there is one, ends with a comma. */
  ghost predicate WeekdayField(weekday: seq<string>) {
    weekday == [] || (|weekday| == 1 && EndsWithComma(weekday[0]))
  }

  lemma DecimalEndsInDigit(n: nat)
    ensures !EndsWithComma(Decimal(n))
  {
  }

  /** With or without a weekday, the same five fields are read. */
  lemma FieldsAreFound(weekday: seq<string>, day: string, month: string, year: string, clock: string, zone: string)
    requires WeekdayField(weekday) && !EndsWithComma(day)
    requires ParseDate(day, month, year).Some? && ParseClock(clock).Some?
    ensures ParsePubDate(weekday + [day, month, year, clock, zone]) ==
            SumOf(ParseDate(day, month, year).value, ParseClock(clock).value, ParseOffset(Some(zone)))
  {
    hide ParseDate, ParseClock, ParseOffset, DaysFromCivil, SumOf;
    var fields, start := weekday + [day, month, year, clock, zone], |weekday|;
    assert fields[start] == day && fields[start + 1] == month && fields[start + 2] == year;
    assert fields[start + 3] == clock && fields[start + 4] == zone;
  }

  /** A printed date denotes its local seconds, less the zone. */
  lemma PrintedFieldsParse(weekday: seq<string>, s: Stamp, zone: Zone)
    requires zone.Valid() && WeekdayField(weekday) && IsStamp(s) && I64_MIN <= s.date.year <= I64_MAX
    ensures ParsePubDate(Rfc822Fields(weekday, s, zone)) ==
            SumOf(s.date, Clock(s.hour, s.minute, s.second), zone.Seconds())
    ensures var r := ParsePubDate(Rfc822Fields(weekday, s, zone));
            r == Overflows || r == Unix(StampSeconds(s) - zone.Seconds())
  {
    hide ParsePubDate, ParseDate, ParseClock, ParseOffset, Decimal, Signed, PrintClock, DaysFromCivil, DateFits;
    hide SumFits;
    DateParses(s.date);
    ClockParses(s);
    ZoneParses(zone);
    DecimalEndsInDigit(s.date.day);
    FieldsAreFound(weekday, Decimal(s.date.day), MONTH_NAMES[s.date.month - 1], Signed(s.date.year), PrintClock(s),
                   zone.Print());
  }

  /** The day number of a date bounds every step of its computation. */
  lemma DateFitsByNumber(d: Date)
    requires IsDate(d) && -0x1_0000_0000_0000 <= DayNumber(d) <= 0x1_0000_0000_0000
    ensures DateFits(d)
  {
    hide StepsFit, IsDate, EraOf, DayOfMarchYear, DayOfEra, DayNumber;
    var y, doy := MarchYear(d), DayOfMarchYear(MarchMonth(d), d.day);
    DayNumberBySteps(d);
    DayOfYearBounds(d);
    EraBounds(y);
    DayOfEraBounds(y - EraOf(y) * 400, doy);
    StepsFitByNumber(y, EraOf(y), y - EraOf(y) * 400, doy, DayOfEra(y - EraOf(y) * 400, doy));
  }

  lemma DayNumberBySteps(d: Date)
    ensures var y, doy := MarchYear(d), DayOfMarchYear(MarchMonth(d), d.day);
            DayNumber(d) == EraOf(y) * 146097 + DayOfEra(y - EraOf(y) * 400, doy) - 719468
  {
  }

  lemma EraBounds(y: int)
    ensures 0 <= y - EraOf(y) * 400 < 400
  {
  }

  lemma DayOfYearBounds(d: Date)
    requires IsDate(d)
    ensures 0 <= DayOfMarchYear(MarchMonth(d), d.day) < 400
  {
    assert 0 <= MarchMonth(d) <= 11;
  }

  lemma DayOfEraBounds(yoe: int, doy: int)
    requires 0 <= yoe < 400 && 0 <= doy < 400
    ensures 0 <= DayOfEra(yoe, doy) < 147000
  {
  }

  lemma StepsFitByNumber(y: int, era: int, yoe: int, doy: int, doe: int)
    requires y == era * 400 + yoe && 0 <= yoe < 400 && 0 <= doy < 400 && 0 <= doe < 147000
    requires -0x1_0000_0000_0000 <= era * 146097 + doe - 719468 <= 0x1_0000_0000_0000
    ensures StepsFit(y, era, doy, doe)
  {
  }

  lemma SumFitsIff(days: int, clock: Clock, at: int, offset: int)
    requires 0 <= clock.hour < 24 && 0 <= clock.minute < 60 && 0 <= clock.second < 60 && Fits(at - offset)
    requires at == days * 86400 + clock.hour * 3600 + clock.minute * 60 + clock.second
    ensures SumFits(days, clock, offset) <==> I64_MIN <= days * 86400 && at <= I64_MAX
  {
  }

  /** The day of the timestamp in its zone starts, and the timestamp in its zone lies, within 64 bits. */
  predicate DayFits(at: int) {
    I64_MIN <= at - at % 86400 && at <= I64_MAX
  }

  /** Reading any timestamp, negative ones included, in any zone as section 5 of RFC 822 writes it
      and parsing the fields gives the timestamp back exactly if that day and time fit; else the sum overflows. */
  lemma PubDateRoundTrip(weekday: seq<string>, unix: int, zone: Zone)
    requires zone.Valid() && WeekdayField(weekday)
    requires I64_MIN <= unix <= I64_MAX
    ensures IsStamp(ChronoLite(unix + zone.Seconds()))
    ensures ParsePubDate(Rfc822Fields(weekday, ChronoLite(unix + zone.Seconds()), zone)) ==
            if DayFits(unix + zone.Seconds()) then Unix(unix) else Overflows
  {
    hide ParsePubDate, Rfc822Fields, DateFits, SumFits, DaysFromCivil, CivilFromDays;
    var at := unix + zone.Seconds();
    StampRoundTrip(at);
    YearFits(at);
    PrintedFieldsParse(weekday, ChronoLite(at), zone);
    DaysRoundTrip(at / 86400);
    DateFitsByNumber(ChronoLite(at).date);
    var s := ChronoLite(at);
    SumFitsIff(at / 86400, Clock(s.hour, s.minute, s.second), at, zone.Seconds());
  }

  // ------------------------------------------------------------ what else is accepted

  /** One character in either case. */
  ghost predicate Reads(c: char, letter: char) {
    c == letter || ('A' <= c <= 'Z' && c as int + 32 == letter as int)
  }

  /** The field starts with the three letters of the month, in any case. */
  ghost predicate StartsWithMonth(name: string, m: int) {
    && 1 <= m <= 12 && |name| >= 3
    && Reads(name[0], Spelling(m).0) && Reads(name[1], Spelling(m).1) && Reads(name[2], Spelling(m).2)
  }

  lemma ReadsIsLower(c: char, m: int)
    ensures Reads(c, Spelling(m).0) <==> LowerChar(c) == Spelling(m).0
    ensures Reads(c, Spelling(m).1) <==> LowerChar(c) == Spelling(m).1
    ensures Reads(c, Spelling(m).2) <==> LowerChar(c) == Spelling(m).2
  {
  }

  lemma SpellingsDiffer(m: int, n: int)
    requires 1 <= m <= 12 && 1 <= n <= 12 && Spelling(m) == Spelling(n)
    ensures m == n
  {
  }

  lemma PrefixIsStart(name: string, m: int)
    requires 1 <= m <= 12
    ensures MONTHS[m - 1] <= Lower(name) <==> StartsWithMonth(name, m)
  {
    MonthSpelling(m);
    var month, lower := MONTHS[m - 1], Lower(name);
    if |name| >= 3 {
      ReadsIsLower(name[0], m);
      ReadsIsLower(name[1], m);
      ReadsIsLower(name[2], m);
      hide Spelling, Reads, LowerChar;
      assert lower[..3] == [lower[0], lower[1], lower[2]] && month == [month[0], month[1], month[2]];
    }
  }

  lemma {:induction false} MonthFromStart(name: string, from: nat)
    requires 1 <= from <= 13
    ensures match MonthFrom(Lower(name), from)
            case None => forall m :: from <= m ==> !StartsWithMonth(name, m)
            case Some(m) => from <= m && StartsWithMonth(name, m)
    decreases 13 - from
  {
    hide StartsWithMonth, Lower;
    if from < 13 {
      PrefixIsStart(name, from);
      if !(MONTHS[from - 1] <= Lower(name)) { MonthFromStart(name, from + 1); }
    } else {
      NoMonthBeyond(name);
    }
  }

  lemma NoMonthBeyond(name: string)
    ensures forall m :: 13 <= m ==> !StartsWithMonth(name, m)
  {
  }

  /** A month field is any text that starts with the name of a month, long or short, in any case; anything else is no
      month. */
  lemma MonthIffStarts(name: string, m: int)
    ensures MonthIndex(name) == Some(m) <==> StartsWithMonth(name, m)
  {
    MonthFromStart(name, 1);
    hide MonthFrom;
    if StartsWithMonth(name, m) && MonthIndex(name).Some? { OnlyOneMonth(name, m, MonthIndex(name).value); }
  }

  lemma OnlyOneMonth(name: string, m: int, n: int)
    requires StartsWithMonth(name, m) && StartsWithMonth(name, n)
    ensures m == n
  {
    ReadsIsLower(name[0], m);
    ReadsIsLower(name[1], m);
    ReadsIsLower(name[2], m);
    ReadsIsLower(name[0], n);
    ReadsIsLower(name[1], n);
    ReadsIsLower(name[2], n);
    hide Reads, LowerChar;
    SpellingsDiffer(m, n);
  }

  /** Minutes and seconds may be missing. */
  lemma ClockDefaults(h: int, m: int)
    requires 0 <= h <= 99 && 0 <= m <= 99
    ensures ParseClock(TwoDigits(h)) == Some(Clock(h, 0, 0))
    ensures ParseClock(TwoDigits(h) + ":" + TwoDigits(m)) == Some(Clock(h, m, 0))
  {
    SplitOnPlain(TwoDigits(h), ':');
    SplitOnPlain(TwoDigits(m), ':');
    SplitOnNext(TwoDigits(h), ':', TwoDigits(m));
    assert TwoDigits(h) + ":" + TwoDigits(m) == TwoDigits(h) + [':'] + TwoDigits(m);
    TwoDigitsParse(h);
    TwoDigitsParse(m);
  }

  /** A missing zone and a zone by name count as zero; a zone without a sign lies east. */
  lemma ZoneDefaults(name: string, zone: Zone)
    requires zone.Valid() && !zone.negative && forall i :: 0 <= i < |name| ==> !('0' <= name[i] <= '9')
    ensures ParseOffset(None) == 0 && ParseOffset(Some(name)) == 0
    ensures ParseOffset(Some(zone.Print()[1..])) == zone.hours * 3600 + zone.minutes * 60
  {
    NoDigits(name);
    ZoneParses(zone);
    var raw := zone.Print();
    assert raw[0] == '+' && DigitsOf(raw) == DigitsOf(raw[1..]);
    assert raw[1..][0] == TwoDigits(zone.hours)[0] && raw[1..][0] != '-';
  }

  lemma {:induction false} NoDigits(s: string)
    requires forall i :: 0 <= i < |s| ==> !('0' <= s[i] <= '9')
    ensures DigitsOf(s) == []
  {
    if s != [] { NoDigits(s[1..]); }
  }

  /** Only a first field that ends with a comma is skipped; with fewer than four fields behind that, or a day or
      year that is no number, or no month, there is no date. */
  lemma IncompleteIsNoDate(fields: seq<string>)
    ensures |fields| < 4 ==> ParsePubDate(fields) == NotADate
    ensures fields != [] && !EndsWithComma(fields[0]) && ParseI64(fields[0]) == None ==>
              ParsePubDate(fields) == NotADate
    ensures |fields| == 4 && fields[0] != [] && fields[0][|fields[0]| - 1] == ',' ==>
              ParsePubDate(fields) == NotADate
    ensures |fields| >= 4 && !EndsWithComma(fields[0])
            && (ParseI64(fields[2]) == None || forall m :: !StartsWithMonth(fields[1], m)) ==>
              ParsePubDate(fields) == NotADate
  {
    if |fields| >= 4 && MonthIndex(fields[1]).Some? { MonthIffStarts(fields[1], MonthIndex(fields[1]).value); }
  }

  /** A number may carry a plus sign; with any other character, or none, it is no number. */
  lemma NumberForms(s: string)
    ensures s != [] && s[0] != '+' && s[0] != '-' ==> ParseI64(['+'] + s) == ParseI64(s)
    ensures ParseI64([]) == None && ParseI64("+") == None && ParseI64("-") == None
    ensures (exists i :: 1 <= i < |s| && !('0' <= s[i] <= '9')) ==> ParseI64(s) == None
  {
    assert (['+'] + s)[1..] == s;
    if i :| 1 <= i < |s| && !('0' <= s[i] <= '9') {
      assert s[1..][i - 1] == s[i] && !IsDigit(s[i]);
    }
  }
}
