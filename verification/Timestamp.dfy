/**
 GitHub timestamps: the string format, the day-counting loops, and the proleptic Gregorian calendar
 they are measured against (the leap rule of appendix C of RFC 3339).
 */
module Timestamp {
  import opened Common
  import opened Text

  datatype Civil = Civil(year: nat, month: nat, day: nat, hour: nat, minute: nat, second: nat)

  predicate IsLeapYear(y: int) {
    (y % 4 == 0 && y % 100 != 0) || y % 400 == 0
  }

  function YearLength(y: int): nat {
    if IsLeapYear(y) then 366 else 365
  }

  function MonthLength(y: int, m: nat): nat
    requires 1 <= m <= 12
  {
    if m == 2 then (if IsLeapYear(y) then 29 else 28)
    else if m == 4 || m == 6 || m == 9 || m == 11 then 30
    else 31
  }

  /** What the parser accepts: it does not look at the month when checking the day. */
  predicate InRange(c: Civil) {
    1 <= c.month <= 12 && 1 <= c.day <= 31 && c.hour <= 23 && c.minute <= 59 && c.second <= 59
  }

  /** A date and time that exists. */
  predicate Exists(c: Civil) {
    InRange(c) && c.day <= MonthLength(c.year, c.month)
  }

  // ----- The reference calendar, in closed form -----

  /** Days from the day before 1 January of year 1 (the fixed day number of a Gregorian date). */
  function FixedDay(y: int, m: nat, d: nat): int
    requires 1 <= m <= 12
  {
    365 * (y - 1) + (y - 1) / 4 - (y - 1) / 100 + (y - 1) / 400
    + (367 * m - 362) / 12 + (if m <= 2 then 0 else if IsLeapYear(y) then -1 else -2)
    + d
  }

  const EPOCH_DAY := 719163

  /** Seconds from 1970-01-01T00:00:00Z, negative before it. */
  function UnixSeconds(c: Civil): int
    requires 1 <= c.month <= 12
  {
    (FixedDay(c.year, c.month, c.day) - EPOCH_DAY) * 86400 + c.hour * 3600 + c.minute * 60 + c.second
  }

  lemma EpochDay()
    ensures FixedDay(1970, 1, 1) == EPOCH_DAY
  {
  }

  lemma MonthStart(y: int, m: nat, d: nat)
    requires 1 <= m <= 12
    ensures FixedDay(y, m, d) == FixedDay(y, m, 1) + d - 1
  {
  }

  /** How often a division by a constant steps up. */
  lemma Quotients(y: int)
    ensures y / 4 == (y - 1) / 4 + (if y % 4 == 0 then 1 else 0)
    ensures y / 100 == (y - 1) / 100 + (if y % 100 == 0 then 1 else 0)
    ensures y / 400 == (y - 1) / 400 + (if y % 400 == 0 then 1 else 0)
  {
  }

  lemma NoRemainder(y: int, k: int, q: int, r: int)
    requires y == 100 * k && y == 4 * q + r && 0 <= r < 4
    ensures r == 0
  {
  }

  lemma NoLongRemainder(y: int, k: int, q: int, r: int)
    requires y == 400 * k && y == 100 * q + r && 0 <= r < 100
    ensures r == 0
  {
  }

  lemma Multiples(y: int)
    ensures y % 400 == 0 ==> y % 100 == 0
    ensures y % 100 == 0 ==> y % 4 == 0
  {
    if y % 400 == 0 {
      NoLongRemainder(y, y / 400, y / 100, y % 100);
    }
    if y % 100 == 0 {
      NoRemainder(y, y / 100, y / 4, y % 4);
    }
  }

  lemma NextYear(y: int)
    ensures FixedDay(y + 1, 1, 1) == FixedDay(y, 1, 1) + YearLength(y)
  {
    Quotients(y);
    Multiples(y);
    var a, b, c := y / 4, y / 100, y / 400;
    var a', b', c' := (y - 1) / 4, (y - 1) / 100, (y - 1) / 400;
    assert FixedDay(y + 1, 1, 1) == 365 * y + a - b + c + 1;
    assert FixedDay(y, 1, 1) == 365 * (y - 1) + a' - b' + c' + 1;
    assert a - a' - (b - b') + (c - c') == if IsLeapYear(y) then 1 else 0;
  }

  lemma NextMonth(y: int, m: nat)
    requires 1 <= m < 12
    ensures FixedDay(y, m + 1, 1) == FixedDay(y, m, 1) + MonthLength(y, m)
  {
  }

  lemma YearEnds(y: int)
    ensures FixedDay(y, 12, 31) == FixedDay(y, 1, 1) + YearLength(y) - 1
  {
  }

  lemma {:induction false} LaterYears(a: int, b: int)
    requires a <= b
    ensures FixedDay(a, 1, 1) + 365 * (b - a) <= FixedDay(b, 1, 1)
    decreases b - a
  {
    if a >= b {
    } else {
      LaterYears(a, b - 1);
      NextYear(b - 1);
    }
  }

  lemma {:induction false} LaterMonths(y: int, a: nat, b: nat)
    requires 1 <= a < b <= 12
    ensures FixedDay(y, a, 1) + MonthLength(y, a) <= FixedDay(y, b, 1)
    decreases b - a
  {
    NextMonth(y, b - 1);
    if a >= b - 1 {
    } else {
      LaterMonths(y, a, b - 1);
    }
  }

  lemma DayInYear(c: Civil)
    requires Exists(c)
    ensures FixedDay(c.year, 1, 1) <= FixedDay(c.year, c.month, c.day) < FixedDay(c.year, 1, 1) + YearLength(c.year)
  {
    if c.month > 1 {
      LaterMonths(c.year, 1, c.month);
    }
    if c.month < 12 {
      LaterMonths(c.year, c.month, 12);
    }
    YearEnds(c.year);
  }

  // ----- The parser -----

  /** The six numbers of a string of the right shape; anything may follow the seconds up to the Z. */
  function ParseFields(text: string): Option<Civil> {
    var s := Trim(text);
    if |s| < 20 || s[|s| - 1] != 'Z' then None
    else if s[4] != '-' || s[7] != '-' || s[10] != 'T' || s[13] != ':' || s[16] != ':' then None
    else
      var year, month, day := ParseUnsigned(s[0..4]), ParseUnsigned(s[5..7]), ParseUnsigned(s[8..10]);
      var hour, minute, second := ParseUnsigned(s[11..13]), ParseUnsigned(s[14..16]), ParseUnsigned(s[17..19]);
      if year.None? || month.None? || day.None? || hour.None? || minute.None? || second.None? then None
      else Some(Civil(year.value, month.value, day.value, hour.value, minute.value, second.value))
  }

  /** Two-digit fields behind a four-digit year, in the layout of section 5.6 of RFC 3339; `more` may
      stand between the seconds and the Z. */
  predicate HasLayout(s: string, y: string, mo: string, d: string, h: string, mi: string, sec: string, more: string) {
    && s == y + "-" + mo + "-" + d + "T" + h + ":" + mi + ":" + (sec + more + "Z")
    && |y| == 4 && |mo| == |d| == |h| == |mi| == |sec| == 2
  }

  ghost predicate HasFields(s: string, c: Civil) {
    exists y, mo, d, h, mi, sec, more ::
      && HasLayout(s, y, mo, d, h, mi, sec, more)
      && ParseUnsigned(y) == Some(c.year) && ParseUnsigned(mo) == Some(c.month) && ParseUnsigned(d) == Some(c.day)
      && ParseUnsigned(h) == Some(c.hour) && ParseUnsigned(mi) == Some(c.minute) && ParseUnsigned(sec) == Some(c.second)
  }

  /** Cutting a text in the layout at its fixed places. */
  lemma LayoutCuts(s: string, y: string, mo: string, d: string, h: string, mi: string, sec: string, more: string)
    requires HasLayout(s, y, mo, d, h, mi, sec, more)
    ensures |s| >= 20 && s[|s| - 1] == 'Z'
    ensures s[4] == '-' && s[7] == '-' && s[10] == 'T' && s[13] == ':' && s[16] == ':'
    ensures s[0..4] == y && s[5..7] == mo && s[8..10] == d && s[11..13] == h && s[14..16] == mi && s[17..19] == sec
  {
    var date := y + "-" + mo + "-" + d;
    var time := date + "T" + h + ":" + mi;
    var tail := sec + more + "Z";
    assert |date| == 10 && |time| == 16;
    assert s == time + ":" + tail;
    assert time[..10] == date && s[..16] == time;
    assert s[17..] == tail && tail[..2] == sec;
    assert date[0..4] == y && date[5..7] == mo && date[8..10] == d;
    assert time[11..13] == h && time[14..16] == mi;
    assert s[0..4] == date[0..4] && s[5..7] == date[5..7] && s[8..10] == date[8..10];
    assert s[11..13] == time[11..13] && s[14..16] == time[14..16] && s[17..19] == s[17..][..2];
    assert s[4] == date[4] && s[7] == date[7] && s[10] == time[10] && s[13] == time[13] && s[16] == ':';
  }

  lemma CutsLayOut(s: string)
    requires |s| >= 20 && s[|s| - 1] == 'Z'
    requires s[4] == '-' && s[7] == '-' && s[10] == 'T' && s[13] == ':' && s[16] == ':'
    ensures HasLayout(s, s[0..4], s[5..7], s[8..10], s[11..13], s[14..16], s[17..19], s[19..|s| - 1])
  {
    var head := s[0..4] + "-" + s[5..7] + "-" + s[8..10];
    var time := head + "T" + s[11..13] + ":" + s[14..16];
    assert head == s[..10];
    assert time == s[..16];
    assert s[17..19] + s[19..|s| - 1] + "Z" == s[17..];
    assert s == s[..16] + ":" + s[17..];
  }

  /** Exactly which texts are read, and as what: the layout with a number in each field, inside white
      space. */
  lemma FieldsReadIff(text: string, c: Civil)
    ensures ParseFields(text) == Some(c) <==> HasFields(Trim(text), c)
  {
    hide ParseUnsigned, Trim, HasLayout;
    var s := Trim(text);
    if ParseFields(text) == Some(c) {
      CutsLayOut(s);
    }
    if y, mo, d, h, mi, sec, more :|
      && HasLayout(s, y, mo, d, h, mi, sec, more)
      && ParseUnsigned(y) == Some(c.year) && ParseUnsigned(mo) == Some(c.month) && ParseUnsigned(d) == Some(c.day)
      && ParseUnsigned(h) == Some(c.hour) && ParseUnsigned(mi) == Some(c.minute) && ParseUnsigned(sec) == Some(c.second)
    {
      LayoutCuts(s, y, mo, d, h, mi, sec, more);
    }
  }

  /** Days the year loop leaves out because it starts at 1970. */
  function MissedDays(year: nat): nat {
    var gap := FixedDay(1970, 1, 1) - FixedDay(year, 1, 1);
    if gap > 0 then gap else 0
  }

  function TimestampOf(text: string): Option<int> {
    var c := ParseFields(text);
    if c.None? || !InRange(c.value) then None
    else Some(UnixSeconds(c.value) + 86400 * MissedDays(c.value.year))
  }

  /** The year and month loops count the closed form's days, from 1970 on. */
  method ParseGithubTimestamp(text: string) returns (r: Option<int>)
    ensures r == TimestampOf(text)
    ensures r.Some? ==> r.value >= 0
  {
    hide FixedDay, ParseFields, IsLeapYear;
    var fields := ParseFields(text);
    if fields.None? || !InRange(fields.value) {
      return None;
    }
    var c := fields.value;
    var days := 0;
    var y := 1970;
    assert FixedDay(1970, 1, 1) == EPOCH_DAY by { EpochDay(); }
    while y < c.year
      invariant y <= c.year || (y == 1970 && c.year < 1970)
      invariant days == FixedDay(y, 1, 1) - EPOCH_DAY
      invariant days >= 0
    {
      NextYear(y);
      days := days + (if IsLeapYear(y) then 366 else 365);
      y := y + 1;
    }
    if c.year >= 1970 {
      LaterYears(1970, c.year);
    } else {
      LaterYears(c.year, 1970);
    }
    var monthDays := [31, 28, 31, 30, 31, 30, 31, 31, 30, 31, 30, 31];
    ghost var start := days;
    for m := 1 to c.month
      invariant days == start + FixedDay(c.year, m, 1) - FixedDay(c.year, 1, 1)
      invariant days >= 0
    {
      NextMonth(c.year, m);
      days := days + monthDays[m - 1];
      if m == 2 && IsLeapYear(c.year) {
        days := days + 1;
      }
    }
    days := days + c.day - 1;
    MonthStart(c.year, c.month, c.day);
    r := Some(days * 86400 + c.hour * 3600 + c.minute * 60 + c.second);
  }

  // ----- When the result is right -----

  /** For dates that exist the result is the true Unix time exactly from 1970 on. */
  lemma RightExactlyFrom1970(text: string, c: Civil)
    requires ParseFields(text) == Some(c) && Exists(c)
    ensures TimestampOf(text).Some?
    ensures TimestampOf(text).value == UnixSeconds(c) <==> c.year >= 1970
  {
    if c.year < 1970 {
      LaterYears(c.year, 1970);
    } else {
      LaterYears(1970, c.year);
    }
  }

  /** The date that an accepted day past the end of its month runs over into. */
  function NextMonthDay(c: Civil): Civil
    requires InRange(c) && !Exists(c)
  {
    c.(month := c.month + 1, day := c.day - MonthLength(c.year, c.month))
  }

  /** Every accepted day that does not exist has the seconds of one that does, early in the next month. */
  lemma NonexistentDayCollides(c: Civil)
    requires InRange(c) && !Exists(c)
    ensures var d := NextMonthDay(c);
      Exists(d) && d != c && d.day <= 3 && d.year == c.year && UnixSeconds(d) == UnixSeconds(c)
  {
    hide FixedDay;
    var d := NextMonthDay(c);
    NextMonth(c.year, c.month);
    MonthStart(c.year, c.month, c.day);
    MonthStart(d.year, d.month, d.day);
  }

  // ----- Order -----

  predicate Before(a: Civil, b: Civil) {
    || a.year < b.year
    || (a.year == b.year && a.month < b.month)
    || (a.year == b.year && a.month == b.month && a.day < b.day)
    || (a.year == b.year && a.month == b.month && a.day == b.day
        && a.hour * 3600 + a.minute * 60 + a.second < b.hour * 3600 + b.minute * 60 + b.second)
  }

  lemma EarlierDay(a: Civil, b: Civil)
    requires Exists(a) && Exists(b)
    requires a.year < b.year || (a.year == b.year && a.month < b.month)
    ensures FixedDay(a.year, a.month, a.day) < FixedDay(b.year, b.month, b.day)
  {
    if a.year < b.year {
      DayInYear(a);
      DayInYear(b);
      NextYear(a.year);
      LaterYears(a.year + 1, b.year);
    } else {
      LaterMonths(a.year, a.month, b.month);
    }
  }

  /** Seconds are strictly increasing in (year, month, day, time of day), on dates that exist. */
  lemma StrictlyIncreasing(a: Civil, b: Civil)
    requires Exists(a) && Exists(b)
    ensures UnixSeconds(a) < UnixSeconds(b) <==> Before(a, b)
  {
    if a.year != b.year || a.month != b.month {
      if a.year < b.year || (a.year == b.year && a.month < b.month) {
        EarlierDay(a, b);
      } else {
        EarlierDay(b, a);
      }
    }
  }

  // ----- The inverse -----

  /** Year and day of year of the day `days` after 1 January of `y`. */
  function YearOf(days: nat, y: nat): (nat, nat)
    decreases days
  {
    if days < YearLength(y) then (y, days) else YearOf(days - YearLength(y), y + 1)
  }

  function MonthOf(days: nat, y: nat, m: nat): (nat, nat)
    requires 1 <= m <= 12
    decreases 12 - m
  {
    if m == 12 || days < MonthLength(y, m) then (m, days) else MonthOf(days - MonthLength(y, m), y, m + 1)
  }

  function CivilOf(seconds: nat): Civil {
    var (year, dayOfYear) := YearOf(seconds / 86400, 1970);
    var (month, day) := MonthOf(dayOfYear, year, 1);
    var rest := seconds % 86400;
    Civil(year, month, day + 1, rest / 3600, rest % 3600 / 60, rest % 60)
  }

  lemma {:induction false} YearOfFinds(days: nat, y: nat)
    ensures var (year, rest) := YearOf(days, y);
      && year >= y && rest < YearLength(year)
      && FixedDay(year, 1, 1) + rest == FixedDay(y, 1, 1) + days
    decreases days
  {
    if days < YearLength(y) {
    } else {
      NextYear(y);
      YearOfFinds(days - YearLength(y), y + 1);
    }
  }

  lemma {:induction false} MonthOfFinds(days: nat, y: nat, m: nat)
    requires 1 <= m <= 12 && FixedDay(y, m, 1) + days < FixedDay(y, 1, 1) + YearLength(y)
    ensures var (month, rest) := MonthOf(days, y, m);
      && m <= month <= 12 && rest < MonthLength(y, month)
      && FixedDay(y, month, 1) + rest == FixedDay(y, m, 1) + days
    decreases 12 - m
  {
    if m == 12 {
      YearEnds(y);
    } else if days >= MonthLength(y, m) {
      NextMonth(y, m);
      MonthOfFinds(days - MonthLength(y, m), y, m + 1);
    }
  }

  lemma TimeOfDay(rest: nat)
    requires rest < 86400
    ensures rest / 3600 * 3600 + rest % 3600 / 60 * 60 + rest % 60 == rest
    ensures rest / 3600 <= 23 && rest % 3600 / 60 <= 59 && rest % 60 <= 59
  {
    assert rest == rest / 3600 * 3600 + rest % 3600;
    assert rest % 3600 % 60 == rest % 60 by {
      assert rest % 3600 == rest - 60 * (60 * (rest / 3600));
    }
  }

  /** Every second from the epoch on is the time of an existing date. */
  lemma CivilOfIsRight(seconds: nat)
    ensures Exists(CivilOf(seconds)) && CivilOf(seconds).year >= 1970
    ensures UnixSeconds(CivilOf(seconds)) == seconds
  {
    hide FixedDay, IsLeapYear;
    var (year, dayOfYear) := YearOf(seconds / 86400, 1970);
    YearOfFinds(seconds / 86400, 1970);
    var (month, day) := MonthOf(dayOfYear, year, 1);
    MonthOfFinds(dayOfYear, year, 1);
    TimeOfDay(seconds % 86400);
    EpochDay();
    MonthStart(year, month, day + 1);
  }

  /** ... and of no other from 1970 on. */
  lemma CivilOfUndoes(c: Civil)
    requires Exists(c) && c.year >= 1970
    ensures UnixSeconds(c) >= 0 && CivilOf(UnixSeconds(c)) == c
  {
    DayInYear(c);
    LaterYears(1970, c.year);
    var d := CivilOf(UnixSeconds(c));
    CivilOfIsRight(UnixSeconds(c));
    StrictlyIncreasing(c, d);
    StrictlyIncreasing(d, c);
    SameTimeOfDay(c, d);
  }

  lemma SameTimeOfDay(a: Civil, b: Civil)
    requires InRange(a) && InRange(b)
    requires a.hour * 3600 + a.minute * 60 + a.second == b.hour * 3600 + b.minute * 60 + b.second
    ensures a.hour == b.hour && a.minute == b.minute && a.second == b.second
  {
  }

  // ----- Printing -----

  function TwoDigits(n: nat): string
    requires n < 100
  {
    [Digit(n / 10), Digit(n % 10)]
  }

  function FourDigits(n: nat): string
    requires n < 10000
  {
    TwoDigits(n / 100) + TwoDigits(n % 100)
  }

  /** The date and time layout of section 5.6 of RFC 3339, in UTC. */
  function Format(c: Civil): string
    requires InRange(c) && c.year < 10000
  {
    FourDigits(c.year) + "-" + TwoDigits(c.month) + "-" + TwoDigits(c.day)
    + "T" + TwoDigits(c.hour) + ":" + TwoDigits(c.minute) + ":" + TwoDigits(c.second) + "Z"
  }

  lemma TwoDigitsParse(n: nat)
    requires n < 100
    ensures ParseUnsigned(TwoDigits(n)) == Some(n)
  {
    hide DigitsValue, DigitValue, IsDigit;
    NoDigits();
    AppendTwoDigits("", n);
    DigitRoundTrip(n / 10);
    assert "" + TwoDigits(n) == TwoDigits(n);
  }

  lemma FourDigitsParse(n: nat)
    requires n < 10000
    ensures ParseUnsigned(FourDigits(n)) == Some(n)
  {
    hide DigitsValue, TwoDigits;
    NoDigits();
    AppendTwoDigits("", n / 100);
    assert "" + TwoDigits(n / 100) == TwoDigits(n / 100);
    AppendTwoDigits(TwoDigits(n / 100), n % 100);
    assert FourDigits(n)[0] == TwoDigits(n / 100)[0];
  }

  lemma AppendTwoDigits(s: string, m: nat)
    requires AllDigits(s) && m < 100
    ensures var t := s + TwoDigits(m);
      AllDigits(t) && DigitsValue(t) == 100 * DigitsValue(s) + m && |TwoDigits(m)| == 2 && IsDigit(TwoDigits(m)[0])
  {
    hide DigitsValue, DigitValue, IsDigit;
    DigitRoundTrip(m / 10);
    DigitRoundTrip(m % 10);
    OneMoreDigit(s, Digit(m / 10));
    OneMoreDigit(s + [Digit(m / 10)], Digit(m % 10));
    assert s + TwoDigits(m) == s + [Digit(m / 10)] + [Digit(m % 10)];
  }

  lemma DigitRoundTrip(d: nat)
    requires d < 10
    ensures IsDigit(Digit(d)) && DigitValue(Digit(d)) == d && Digit(d) != '+'
  {
  }

  lemma NoDigits()
    ensures DigitsValue("") == 0
  {
  }

  lemma OneMoreDigit(s: string, c: char)
    requires AllDigits(s) && IsDigit(c)
    ensures AllDigits(s + [c]) && DigitsValue(s + [c]) == 10 * DigitsValue(s) + DigitValue(c)
  {
    assert (s + [c])[..|s|] == s;
  }

  lemma DigitGroups(c: Civil)
    requires InRange(c) && c.year < 10000
    ensures |FourDigits(c.year)| == 4 && IsDigit(FourDigits(c.year)[0])
    ensures |TwoDigits(c.month)| == |TwoDigits(c.day)| == |TwoDigits(c.hour)| == 2
    ensures |TwoDigits(c.minute)| == |TwoDigits(c.second)| == 2
  {
    DigitRoundTrip(c.year / 1000);
  }

  lemma FormatShape(c: Civil)
    requires InRange(c) && c.year < 10000
    ensures var s := Format(c);
      && |s| >= 20 && s[|s| - 1] == 'Z' && Trimmed(s)
      && s[4] == '-' && s[7] == '-' && s[10] == 'T' && s[13] == ':' && s[16] == ':'
      && s[0..4] == FourDigits(c.year) && s[5..7] == TwoDigits(c.month) && s[8..10] == TwoDigits(c.day)
      && s[11..13] == TwoDigits(c.hour) && s[14..16] == TwoDigits(c.minute) && s[17..19] == TwoDigits(c.second)
  {
    hide Digit, FourDigits, TwoDigits;
    DigitGroups(c);
    var sec := TwoDigits(c.second);
    assert sec + "" + "Z" == sec + "Z";
    LayoutCuts(Format(c), FourDigits(c.year), TwoDigits(c.month), TwoDigits(c.day),
               TwoDigits(c.hour), TwoDigits(c.minute), sec, "");
    assert Format(c)[0..4][0] == Format(c)[0];
  }

  lemma FieldsOfFormat(c: Civil)
    requires InRange(c) && c.year < 10000
    ensures ParseFields(Format(c)) == Some(c)
  {
    hide DigitsValue, FourDigits, TwoDigits, Trim, ParseUnsigned, Format;
    var s := Format(c);
    FormatShape(c);
    assert Trim(s) == s by { TrimOfTrimmed(s); }
    FourDigitsParse(c.year);
    TwoDigitsParse(c.month);
    TwoDigitsParse(c.day);
    TwoDigitsParse(c.hour);
    TwoDigitsParse(c.minute);
    TwoDigitsParse(c.second);
  }

  /** Printing then parsing gives the fields back, and the Unix time exactly from 1970 on. */
  lemma FormatParses(c: Civil)
    requires Exists(c) && c.year < 10000
    ensures ParseFields(Format(c)) == Some(c)
    ensures TimestampOf(Format(c)) == Some(UnixSeconds(c)) <==> c.year >= 1970
  {
    hide FixedDay, Format, ParseFields;
    FieldsOfFormat(c);
    RightExactlyFrom1970(Format(c), c);
  }

  // ----- When the result is a date's own -----

  lemma ResultIsNatural(c: Civil)
    requires InRange(c)
    ensures UnixSeconds(c) + 86400 * MissedDays(c.year) >= 0
  {
    hide FixedDay;
    var d := if Exists(c) then c else NextMonthDay(c);
    if !Exists(c) {
      NonexistentDayCollides(c);
    }
    DayInYear(d);
    EpochDay();
    if c.year >= 1970 {
      LaterYears(1970, c.year);
    }
  }

  /** The result is the time of the text's own date exactly when the year is at least 1970 and the day
      is within its month. */
  lemma OwnDateIff(text: string, c: Civil)
    requires ParseFields(text) == Some(c) && InRange(c)
    ensures TimestampOf(text).Some? && TimestampOf(text).value >= 0
    ensures CivilOf(TimestampOf(text).value) == c
      <==> c.year >= 1970 && c.day <= MonthLength(c.year, c.month)
  {
    hide FixedDay, ParseFields, CivilOf;
    ResultIsNatural(c);
    CivilOfIsRight(TimestampOf(text).value);
    if c.year >= 1970 {
      LaterYears(1970, c.year);
      if Exists(c) {
        CivilOfUndoes(c);
      }
    }
  }

  /** Two texts that differ, one of them for a day that does not exist, with one result. */
  lemma NonexistentTextCollides(c: Civil)
    requires InRange(c) && !Exists(c) && 1970 <= c.year < 10000
    ensures var d := NextMonthDay(c);
      && Format(c) != Format(d)
      && TimestampOf(Format(c)) == TimestampOf(Format(d)) == Some(UnixSeconds(d))
  {
    hide FixedDay, ParseFields, Format;
    var d := NextMonthDay(c);
    NonexistentDayCollides(c);
    FieldsOfFormat(c);
    FieldsOfFormat(d);
    LaterYears(1970, c.year);
  }

  lemma MidnightText(month: nat, day: nat)
    requires 1 <= month <= 12 && 1 <= day <= 31
    ensures Format(Civil(2026, month, day, 0, 0, 0))
      == "2026-" + TwoDigits(month) + "-" + TwoDigits(day) + "T00:00:00Z"
  {
    hide TwoDigits;
    assert TwoDigits(0) == "00" by { SmallNumbers(); }
    assert FourDigits(2026) == "2026" by { SmallNumbers(); }
  }

  lemma SmallNumbers()
    ensures TwoDigits(0) == "00" && FourDigits(2026) == "2026"
    ensures TwoDigits(2) == "02" && TwoDigits(3) == "03" && TwoDigits(31) == "31"
  {
  }

  lemma ExampleTexts()
    ensures Format(Civil(2026, 2, 31, 0, 0, 0)) == "2026-02-31T00:00:00Z"
    ensures Format(Civil(2026, 3, 3, 0, 0, 0)) == "2026-03-03T00:00:00Z"
  {
    hide Format, TwoDigits;
    MidnightText(2, 31);
    MidnightText(3, 3);
    SmallNumbers();
  }

  lemma February31IsMarch3()
    ensures TimestampOf("2026-02-31T00:00:00Z").Some?
    ensures TimestampOf("2026-02-31T00:00:00Z") == TimestampOf("2026-03-03T00:00:00Z")
  {
    hide TimestampOf, UnixSeconds, Format, TwoDigits;
    var c := Civil(2026, 2, 31, 0, 0, 0);
    NonexistentTextCollides(c);
    assert NextMonthDay(c) == Civil(2026, 3, 3, 0, 0, 0);
    ExampleTexts();
  }
}
