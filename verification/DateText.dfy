/** Dates as text: the feed's `<pubDate>` with any spacing, and the stamp that the command line prints. */
module DateText {
  import opened Wrappers
  import opened Calendar
  import opened PubDate

  // ------------------------------------------------------------ whitespace

  /** The characters with the Unicode property White_Space. */
  predicate IsSpace(c: char) {
    var n := c as int;
    || 9 <= n <= 13 || n == 0x20 || n == 0x85 || n == 0xA0 || n == 0x1680 || 0x2000 <= n <= 0x200A
    || n == 0x2028 || n == 0x2029 || n == 0x202F || n == 0x205F || n == 0x3000
  }

  predicate AllSpace(s: string) {
    forall i :: 0 <= i < |s| ==> IsSpace(s[i])
  }

  predicate NoSpace(s: string) {
    forall i :: 0 <= i < |s| ==> !IsSpace(s[i])
  }

  function WordLength(s: string): (n: nat)
    ensures n <= |s| && (s != [] && !IsSpace(s[0]) ==> n > 0)
  {
    if s == [] || IsSpace(s[0]) then 0 else 1 + WordLength(s[1..])
  }

  /** `split_whitespace`. */
  function SplitWhitespace(s: string): seq<string>
    decreases |s|
  {
    if s == [] then []
    else if IsSpace(s[0]) then SplitWhitespace(s[1..])
    else
      var n := WordLength(s);
      [s[..n]] + SplitWhitespace(s[n..])
  }

  lemma {:induction false} SpacesAreSkipped(gap: string, s: string)
    requires AllSpace(gap)
    ensures SplitWhitespace(gap + s) == SplitWhitespace(s)
  {
    if gap == [] {
      assert gap + s == s;
    } else {
      assert (gap + s)[1..] == gap[1..] + s;
      SpacesAreSkipped(gap[1..], s);
    }
  }

  lemma {:induction false} WordEnds(word: string, s: string)
    requires NoSpace(word) && (s == [] || IsSpace(s[0]))
    ensures WordLength(word + s) == |word|
  {
    if word == [] {
      assert word + s == s;
    } else {
      assert (word + s)[1..] == word[1..] + s;
      WordEnds(word[1..], s);
    }
  }

  /** Words with whitespace before, between and after them. */
  ghost predicate Spacing(words: seq<string>, gaps: seq<string>) {
    && |gaps| == |words| + 1
    && (forall i :: 0 <= i < |gaps| ==> AllSpace(gaps[i]))
    && (forall i :: 0 < i < |words| ==> gaps[i] != [])
    && (forall i :: 0 <= i < |words| ==> words[i] != [] && NoSpace(words[i]))
  }

  function Spaced(words: seq<string>, gaps: seq<string>): string
    requires |gaps| == |words| + 1
  {
    if words == [] then gaps[0] else gaps[0] + (words[0] + Spaced(words[1..], gaps[1..]))
  }

  /** However the words are spaced, the same words are found. */
  lemma {:induction false} SplitFindsWords(words: seq<string>, gaps: seq<string>)
    requires Spacing(words, gaps)
    ensures SplitWhitespace(Spaced(words, gaps)) == words
    decreases |words|
  {
    if words == [] {
      SpacesAreSkipped(gaps[0], []);
      assert gaps[0] + [] == gaps[0];
    } else {
      var rest := Spaced(words[1..], gaps[1..]);
      SpacesAreSkipped(gaps[0], words[0] + rest);
      SplitFindsWords(words[1..], gaps[1..]);
      if rest != [] { RestStartsWithSpace(words[1..], gaps[1..]); }
      WordEnds(words[0], rest);
      var s := words[0] + rest;
      assert s[0] == words[0][0] && s[..|words[0]|] == words[0] && s[|words[0]|..] == rest;
      assert words == [words[0]] + words[1..];
    }
  }

  lemma RestStartsWithSpace(words: seq<string>, gaps: seq<string>)
    requires |gaps| == |words| + 1 && AllSpace(gaps[0]) && (words != [] ==> gaps[0] != [])
    requires Spaced(words, gaps) != []
    ensures IsSpace(Spaced(words, gaps)[0])
  {
    assert Spaced(words, gaps)[0] == gaps[0][0];
  }

  // ------------------------------------------------------------ the publication date

  /** `parse_pub_date` on the text. */
  function ParsePubDateText(text: string): Parsed {
    ParsePubDate(SplitWhitespace(text))
  }

  lemma {:induction false} DigitsHaveNoSpace(s: string)
    requires AllDigits(s)
    ensures NoSpace(s)
  {
  }

  lemma NoSpaceConcat(a: string, b: string)
    requires NoSpace(a) && NoSpace(b)
    ensures NoSpace(a + b)
  {
  }

  lemma MonthDays(d: Date)
    requires IsDate(d)
    ensures 1 <= d.month <= 12 && 1 <= d.day <= 31
  {
  }

  lemma FieldsAreWords(weekday: seq<string>, s: Stamp, zone: Zone)
    requires zone.Valid() && WeekdayField(weekday) && IsStamp(s)
    requires forall i :: 0 <= i < |weekday| ==> NoSpace(weekday[i])
    ensures forall i :: 0 <= i < |Rfc822Fields(weekday, s, zone)| ==>
              Rfc822Fields(weekday, s, zone)[i] != [] && NoSpace(Rfc822Fields(weekday, s, zone)[i])
  {
    hide Decimal, Signed, PrintClock, NoSpace, DaysInMonth;
    MonthDays(s.date);
    DecimalParses(s.date.day);
    DigitsHaveNoSpace(Decimal(s.date.day));
    MonthHasNoSpace(s.date.month);
    SignedHasNoSpace(s.date.year);
    ClockHasNoSpace(s);
    ZoneHasNoSpace(zone);
  }

  lemma MonthHasNoSpace(m: int)
    requires 1 <= m <= 12
    ensures MONTH_NAMES[m - 1] != [] && NoSpace(MONTH_NAMES[m - 1])
  {
    var name := MONTH_NAMES[m - 1];
    assert |name| == 3;
    assert forall i :: 0 <= i < 3 ==> 'A' <= name[i] <= 'z';
  }

  lemma SignedHasNoSpace(n: int)
    ensures Signed(n) != [] && NoSpace(Signed(n))
  {
    var digits := Decimal(if n < 0 then -n else n);
    DecimalParses(if n < 0 then -n else n);
    DigitsHaveNoSpace(digits);
    if n < 0 { NoSpaceConcat("-", digits); }
  }

  lemma TwoDigitsHaveNoSpace(n: int)
    requires 0 <= n <= 99
    ensures NoSpace(TwoDigits(n))
  {
  }

  lemma ClockHasNoSpace(s: Stamp)
    requires IsStamp(s)
    ensures PrintClock(s) != [] && NoSpace(PrintClock(s))
  {
    hide TwoDigits, NoSpace;
    TwoDigitsHaveNoSpace(s.hour);
    TwoDigitsHaveNoSpace(s.minute);
    TwoDigitsHaveNoSpace(s.second);
    ColonIsNoSpace();
    NoSpaceConcat(TwoDigits(s.hour), ":");
    NoSpaceConcat(TwoDigits(s.hour) + ":", TwoDigits(s.minute));
    NoSpaceConcat(TwoDigits(s.hour) + ":" + TwoDigits(s.minute), ":");
    NoSpaceConcat(TwoDigits(s.hour) + ":" + TwoDigits(s.minute) + ":", TwoDigits(s.second));
  }

  lemma ColonIsNoSpace()
    ensures NoSpace(":")
  {
  }

  lemma ZoneHasNoSpace(zone: Zone)
    requires zone.Valid()
    ensures zone.Print() != [] && NoSpace(zone.Print())
  {
    hide TwoDigits;
    TwoDigitsHaveNoSpace(zone.hours);
    TwoDigitsHaveNoSpace(zone.minutes);
    var sign := [if zone.negative then '-' else '+'];
    NoSpaceConcat(sign, TwoDigits(zone.hours));
    NoSpaceConcat(sign + TwoDigits(zone.hours), TwoDigits(zone.minutes));
  }

  /** Whitespace of any kind and length, with some between every two of the words. */
  ghost predicate Gaps(gaps: seq<string>, words: nat) {
    && |gaps| == words + 1
    && (forall i :: 0 <= i < |gaps| ==> AllSpace(gaps[i]))
    && (forall i :: 0 < i < words ==> gaps[i] != [])
  }

  lemma AnyWhitespaceSpaces(weekday: seq<string>, at: int, zone: Zone, gaps: seq<string>)
    requires zone.Valid() && WeekdayField(weekday) && forall i :: 0 <= i < |weekday| ==> NoSpace(weekday[i])
    requires Gaps(gaps, |weekday| + 5)
    ensures IsStamp(ChronoLite(at)) && Spacing(Rfc822Fields(weekday, ChronoLite(at), zone), gaps)
  {
    hide ChronoLite, IsStamp, NoSpace, AllSpace;
    StampRoundTrip(at);
    FieldsAreWords(weekday, ChronoLite(at), zone);
  }

  /** Any 64-bit timestamp, negative ones included, written as section 5 of RFC 822 says in any zone, with or
      without a weekday and with any whitespace between its fields, parses back to itself exactly if its day in
      that zone starts, and the time there lies, within 64 bits; else the final sum overflows. */
  lemma PubDateTextRoundTrip(weekday: seq<string>, unix: int, zone: Zone, gaps: seq<string>)
    requires zone.Valid() && WeekdayField(weekday) && forall i :: 0 <= i < |weekday| ==> NoSpace(weekday[i])
    requires Gaps(gaps, |weekday| + 5) && I64_MIN <= unix <= I64_MAX
    ensures var at := unix + zone.Seconds();
            && IsStamp(ChronoLite(at))
            && ParsePubDateText(Spaced(Rfc822Fields(weekday, ChronoLite(at), zone), gaps)) ==
               if DayFits(at) then Unix(unix) else Overflows
  {
    hide ParsePubDate, Rfc822Fields, ChronoLite, IsStamp, NoSpace, AllSpace;
    var at := unix + zone.Seconds();
    AnyWhitespaceSpaces(weekday, at, zone, gaps);
    PubDateRoundTrip(weekday, unix, zone);
    SplitFindsWords(Rfc822Fields(weekday, ChronoLite(at), zone), gaps);
  }

  // ------------------------------------------------------------ the printed stamp

  function Zeros(n: nat): (s: string)
    ensures |s| == n
  {
    if n == 0 then [] else Zeros(n - 1) + ['0']
  }

  /** Decimal digits, at least `width` of them. */
  function Padded(n: nat, width: nat): string {
    var digits := Decimal(n);
    Zeros(if |digits| < width then width - |digits| else 0) + digits
  }

  /** The `{:04}` of a signed number: the sign counts. */
  function PaddedYear(n: int): string {
    if n < 0 then ['-'] + Padded(-n, 3) else Padded(n, 4)
  }

  /** What `chrono_lite` prints. */
  function StampText(s: Stamp): string
    requires IsStamp(s)
  {
    PaddedYear(s.date.year)
      + (['-'] + TwoDigits(s.date.month) + ['-'] + TwoDigits(s.date.day)
         + [' '] + TwoDigits(s.hour) + [':'] + TwoDigits(s.minute) + [':'] + TwoDigits(s.second))
  }

  function Field(tail: string, i: nat): Option<int>
    requires i + 2 <= |tail|
  {
    ParseI64(tail[i..i + 2])
  }

  /** Reading a stamp: the last fifteen characters are fixed, the rest is the year. */
  function ReadStamp(text: string): Option<Stamp> {
    if |text| < 15 then None
    else
      var n := |text| - 15;
      var tail := text[n..];
      if tail[0] != '-' || tail[3] != '-' || tail[6] != ' ' || tail[9] != ':' || tail[12] != ':' then None
      else
        match (ParseI64(text[..n]), Field(tail, 1), Field(tail, 4))
        case (Some(year), Some(month), Some(day)) =>
          (match (Field(tail, 7), Field(tail, 10), Field(tail, 13))
           case (Some(hour), Some(minute), Some(second)) => Some(Stamp(Date(year, month, day), hour, minute, second))
           case _ => None)
        case _ => None
  }

  lemma {:induction false} ValueOfZeros(n: nat, digits: string)
    requires AllDigits(digits)
    ensures AllDigits(Zeros(n) + digits) && Value(Zeros(n) + digits) == Value(digits)
    decreases n + |digits|
  {
    var s := Zeros(n) + digits;
    if digits != [] {
      ValueOfZeros(n, digits[..|digits| - 1]);
      assert s[..|s| - 1] == Zeros(n) + digits[..|digits| - 1];
    } else if n > 0 {
      ValueOfZeros(n - 1, []);
      assert Zeros(n - 1) + [] == Zeros(n - 1);
      assert s[..|s| - 1] == Zeros(n - 1);
    }
  }

  lemma PaddedParses(n: nat, width: nat)
    ensures Padded(n, width) != [] && AllDigits(Padded(n, width)) && Value(Padded(n, width)) == n
  {
    DecimalParses(n);
    var digits := Decimal(n);
    ValueOfZeros(if |digits| < width then width - |digits| else 0, digits);
  }

  lemma PaddedYearParses(n: int)
    requires I64_MIN <= n <= I64_MAX
    ensures ParseI64(PaddedYear(n)) == Some(n)
  {
    hide Padded, Value;
    if n < 0 {
      PaddedParses(-n, 3);
      assert PaddedYear(n)[1..] == Padded(-n, 3);
    } else {
      PaddedParses(n, 4);
      assert IsDigit(PaddedYear(n)[0]);
    }
  }

  lemma Layout(year: string, month: string, day: string, hour: string, minute: string, second: string)
    requires |month| == |day| == |hour| == |minute| == |second| == 2
    ensures var rest := ['-'] + month + ['-'] + day + [' '] + hour + [':'] + minute + [':'] + second;
            var text := year + rest;
            && |text| == |year| + 15 && text[..|year|] == year && text[|year|..] == rest
            && rest[0] == '-' && rest[3] == '-' && rest[6] == ' ' && rest[9] == ':' && rest[12] == ':'
            && rest[1..3] == month && rest[4..6] == day && rest[7..9] == hour && rest[10..12] == minute
            && rest[13..15] == second
  {
  }

  /** The printed text of any valid stamp reads back as that stamp: nothing is lost in the padding. */
  lemma StampTextReadsBack(s: Stamp)
    requires IsStamp(s) && I64_MIN <= s.date.year <= I64_MAX
    ensures ReadStamp(StampText(s)) == Some(s)
  {
    hide TwoDigits, ParseI64, PaddedYear, DaysInMonth;
    var year := PaddedYear(s.date.year);
    MonthDays(s.date);
    TwoLong(s.date.month);
    TwoLong(s.date.day);
    TwoLong(s.hour);
    TwoLong(s.minute);
    TwoLong(s.second);
    Layout(year, TwoDigits(s.date.month), TwoDigits(s.date.day), TwoDigits(s.hour), TwoDigits(s.minute),
           TwoDigits(s.second));
    PaddedYearParses(s.date.year);
    TwoDigitsParse(s.date.month);
    TwoDigitsParse(s.date.day);
    TwoDigitsParse(s.hour);
    TwoDigitsParse(s.minute);
    TwoDigitsParse(s.second);
  }

  lemma TwoLong(n: int)
    requires 0 <= n <= 99
    ensures |TwoDigits(n)| == 2
  {
  }

  /** So the text that `chrono_lite` prints for any 64-bit timestamp, before 1970 too, determines it. */
  lemma PrintedStampDeterminesTime(unix: int)
    requires I64_MIN <= unix <= I64_MAX
    ensures IsStamp(ChronoLite(unix))
    ensures match ReadStamp(StampText(ChronoLite(unix)))
            case None => false
            case Some(s) => StampSeconds(s) == unix
  {
    hide ChronoLite, IsStamp, StampText, ReadStamp;
    StampRoundTrip(unix);
    YearFits(unix);
    StampTextReadsBack(ChronoLite(unix));
  }
}
