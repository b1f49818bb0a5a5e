// The calendar that times are reckoned by: day numbers follow it day by day, and
// an expiry is compared with the clock as a date and a time of day.
module Calendar {
  import opened Text
  import opened Asn1Time
  import opened Table

  // --------------------------------------------------------------- day numbers

  // The day after the last one of a month is the first one of the next month.
  lemma NextMonth(y: int, m: int)
    requires 1 <= m <= 11
    ensures JulianDay(y, m, MonthDays(y, m)) + 1 == JulianDay(y, m + 1, 1)
  {
    if m == 2 { February(y); } else { OtherMonths(y, m); }
  }

  lemma February(y: int)
    ensures JulianDay(y, 2, MonthDays(y, 2)) + 1 == JulianDay(y, 3, 1)
  {
    YearDaysGrow(y);
    MarchFirst(y, MonthDays(y, 2));
  }

  // Day numbers come from the years, reckoned from March to February, and from
  // the months behind March.
  lemma MarchFirst(y: int, d: int)
    ensures JulianDay(y, 2, d) == YearDays(y + 4799) + 367 + d - 32075
    ensures JulianDay(y, 3, 1) == YearDays(y + 4800) + 30 + 1 - 32075
    ensures JulianDay(y, 1, 1) == YearDays(y + 4799) + 336 + 1 - 32075
  {
  }

  lemma YearDaysGrow(y: int)
    ensures YearDays(y + 4800) - YearDays(y + 4799) == if LeapYear(y) then 366 else 365
  {
    FourYears(y);
    Centuries(y);
    LeapYears(y);
  }

  // A year is a leap year when its number is divisible by four, except for those
  // full centuries whose number is not divisible by four hundred.
  lemma LeapYears(y: int)
    ensures LeapYear(y) <==> y % 4 == 0 && (y % 100 == 0 ==> y % 400 == 0)
    ensures y % 100 == 0 ==> y % 4 == 0
    ensures LeapYear(2000) && !LeapYear(1900) && LeapYear(2024) && !LeapYear(2023)
  {
    assert y % 100 == 0 ==> y == 4 * (25 * (y / 100));
    assert y % 400 == 0 ==> y == 100 * (4 * (y / 400));
  }

  lemma OtherMonths(y: int, m: int)
    requires 1 <= m <= 11 && m != 2
    ensures JulianDay(y, m, MonthDays(y, m)) + 1 == JulianDay(y, m + 1, 1)
  {
    MonthLengths(m);
  }

  lemma MonthLengths(m: int)
    requires 1 <= m <= 11 && m != 2
    ensures m == 1 ==> 367 * (m + 11) / 12 - 367 * (m + 10) / 12 == 31
    ensures m > 2 ==> 367 * (m - 1) / 12 - 367 * (m - 2) / 12 == if m in {4, 6, 9, 11} then 30 else 31
  {
  }

  // And the day after 31 December that of the next year.
  lemma NextYear(y: int)
    ensures JulianDay(y, 12, 31) + 1 == JulianDay(y + 1, 1, 1)
  {
  }

  lemma FourYears(y: int)
    ensures 1461 * (y + 4800) / 4 - 1461 * (y + 4799) / 4 == if y % 4 == 0 then 366 else 365
  {
    var q, r := y / 4 + 1200, y % 4;
    assert y + 4800 == 4 * q + r && 1461 * (y + 4800) == 4 * (1461 * q) + 1461 * r;
    Quarters(1461 * q, r);
  }

  lemma Quarters(a: int, r: int)
    requires 0 <= r < 4
    ensures (4 * a + 1461 * r) / 4 - (4 * a + 1461 * r - 1461) / 4 == if r == 0 then 366 else 365
  {
  }

  lemma Centuries(y: int)
    ensures var c, b := (y + 4900) / 100, (y + 4899) / 100;
      3 * c / 4 - 3 * b / 4 == if y % 100 == 0 && y % 400 != 0 then 1 else 0
  {
    var k := y / 100;
    FullCenturies(y, k);
    FourCenturies(k + 49);
  }

  lemma FullCenturies(y: int, k: int)
    requires k == y / 100
    ensures (y + 4900) / 100 == k + 49
    ensures (y + 4899) / 100 == if y % 100 == 0 then k + 48 else k + 49
    ensures y % 100 == 0 ==> (y % 400 == 0 <==> (k + 49) % 4 == 1)
  {
    assert y == 100 * k + y % 100;
    if y % 100 == 0 { CenturyOf(k); }
  }

  lemma CenturyOf(k: int)
    ensures 100 * k % 400 == 0 <==> (k + 49) % 4 == 1
  {
    assert 100 * k == 400 * (k / 4) + 100 * (k % 4);
  }

  lemma FourCenturies(c: int)
    ensures 3 * c / 4 - 3 * (c - 1) / 4 == if c % 4 == 1 then 0 else 1
  {
  }

  // Day numbers are counted so that 1970 began with day 2440588, and the years
  // have the days of their months.
  lemma DayNumbers(y: int)
    ensures JulianDay(1970, 1, 1) == 2440588
    ensures JulianDay(y + 1, 1, 1) - JulianDay(y, 1, 1) == if LeapYear(y) then 366 else 365
  {
    MarchFirst(y, 1);
    YearDaysGrow(y);
    JanuaryFirst(y + 1);
  }

  lemma JanuaryFirst(y: int)
    ensures JulianDay(y, 1, 1) == YearDays(y + 4799) + 336 + 1 - 32075
  {
  }

  // ------------------------------------------------------------------- instants

  // One reading of the clock is before another one, as date and time of day.
  predicate Before(a: Tm, b: Tm) {
    if a.year != b.year then a.year < b.year
    else if a.mon != b.mon then a.mon < b.mon
    else if a.day != b.day then a.day < b.day
    else if a.hour != b.hour then a.hour < b.hour
    else if a.min != b.min then a.min < b.min
    else a.sec < b.sec
  }

  // The same without the time of day.
  predicate DayBefore(a: Tm, b: Tm) {
    a.year < b.year || (a.year == b.year && (a.mon < b.mon || (a.mon == b.mon && a.day < b.day)))
  }

  // The last day of the month before.
  function MonthBack(t: Tm): Tm {
    if 1 < t.mon <= 12 then t.(mon := t.mon - 1, day := MonthDays(t.year, t.mon - 1))
    else t.(year := t.year - 1, mon := 12, day := 31)
  }

  lemma MonthBackIsEarlier(t: Tm)
    requires ValidTm(t)
    ensures JulianDay(MonthBack(t).year, MonthBack(t).mon, MonthBack(t).day) < JulianDay(t.year, t.mon, t.day)
  {
    if t.mon > 1 { NextMonth(t.year, t.mon - 1); } else { NextYear(t.year - 1); }
    DayOfMonth(t);
  }

  lemma DayOfMonth(t: Tm)
    ensures JulianDay(t.year, t.mon, t.day) == JulianDay(t.year, t.mon, 1) + t.day - 1
  {
  }

  lemma DaysGrow(a: Tm, b: Tm)
    requires ValidTm(a) && ValidTm(b) && DayBefore(a, b)
    ensures JulianDay(a.year, a.mon, a.day) < JulianDay(b.year, b.mon, b.day)
  {
    forall t | ValidTm(t) ensures DayOf(MonthBack(t)) < DayOf(t) { MonthBackIsEarlier(t); }
    forall t, u | SameMonth(t, u)
      ensures (t.day < u.day ==> DayOf(t) < DayOf(u)) && (t.day == u.day ==> DayOf(t) == DayOf(u))
    {
      DayOfMonth(t);
      DayOfMonth(u);
    }
    NumbersGrow(DayOf, a, b);
  }

  function DayOf(t: Tm): int { JulianDay(t.year, t.mon, t.day) }

  predicate SameMonth(t: Tm, u: Tm) { t.year == u.year && t.mon == u.mon }

  // Whatever numbers grow within each month, and from one month to the next, grow.
  lemma {:induction false} NumbersGrow(n: Tm -> int, a: Tm, b: Tm)
    requires forall t :: ValidTm(t) ==> n(MonthBack(t)) < n(t)
    requires forall t, u :: SameMonth(t, u) ==> (t.day < u.day ==> n(t) < n(u)) && (t.day == u.day ==> n(t) == n(u))
    requires ValidTm(a) && ValidTm(b) && DayBefore(a, b)
    ensures n(a) < n(b)
    decreases 12 * b.year + b.mon - 12 * a.year - a.mon
  {
    if !SameMonth(a, b) {
      var p := MonthBack(b);
      if DayBefore(a, p) { NumbersGrow(n, a, p); }
    }
  }

  // Seconds are counted in the order of the calendar.
  lemma SecondsFollowCalendar(a: Tm, b: Tm)
    requires ValidTm(a) && ValidTm(b)
    ensures Seconds(a) < Seconds(b) <==> Before(a, b)
  {
    if DayBefore(a, b) { DaysGrow(a, b); }
    if DayBefore(b, a) { DaysGrow(b, a); }
  }

  // What the clock shows a second later.
  function NextSecond(t: Tm): Tm
    requires ValidTm(t)
  {
    if t.sec < 59 then t.(sec := t.sec + 1)
    else if t.min < 59 then t.(min := t.min + 1, sec := 0)
    else if t.hour < 23 then t.(hour := t.hour + 1, min := 0, sec := 0)
    else if t.day < MonthDays(t.year, t.mon) then t.(day := t.day + 1, hour := 0, min := 0, sec := 0)
    else if t.mon < 12 then Tm(t.year, t.mon + 1, 1, 0, 0, 0)
    else Tm(t.year + 1, 1, 1, 0, 0, 0)
  }

  // None is left out and none is counted twice.
  lemma SecondsTick(t: Tm)
    requires ValidTm(t)
    ensures ValidTm(NextSecond(t)) && Seconds(NextSecond(t)) == Seconds(t) + 1
  {
    if t.hour == 23 && t.min == 59 && t.sec == 59 { DaysTick(t); }
  }

  lemma DaysTick(t: Tm)
    requires ValidTm(t) && t.hour == 23 && t.min == 59 && t.sec == 59
    ensures var u := NextSecond(t);
      JulianDay(u.year, u.mon, u.day) == JulianDay(t.year, t.mon, t.day) + 1
  {
    if t.day < MonthDays(t.year, t.mon) {
      NextDay(t.year, t.mon, t.day);
    } else if t.mon < 12 {
      NextMonth(t.year, t.mon);
    } else {
      NextYear(t.year);
    }
  }

  lemma NextDay(y: int, m: int, d: int)
    ensures JulianDay(y, m, d) + 1 == JulianDay(y, m, d + 1)
  {
  }

  // ------------------------------------------------------------------ spellings

  // Everything behind the year.
  function Behind(t: Tm): string {
    Dec2(t.mon) + Dec2(t.day) + Dec2(t.hour) + Dec2(t.min) + Dec2(t.sec) + "Z"
  }

  // The text says t with a two-digit or a four-digit year, and a Z at the end.
  predicate Says(s: string, t: Tm) {
    && ValidTm(t) && 0 <= t.year <= 9999
    && (|| (1950 <= t.year < 2050 && s == Dec2(t.year % 100) + Behind(t))
        || s == Dec2(t.year / 100) + Dec2(t.year % 100) + Behind(t))
  }

  // What the clock is written as says what it shows, digit by digit.
  lemma ClockSays(t: Tm)
    requires ValidTm(t) && 0 <= t.year <= 9999
    ensures Says(Format(t), t)
  {
  }

  lemma SaidDigits()
    ensures Format(Tm(2034, 5, 16, 7, 18, 29)) == "340516071829Z"
    ensures Format(Tm(2054, 5, 16, 7, 18, 29)) == "20540516071829Z"
  {
    SaidRest();
    assert Dec2(34) == "34" && Dec2(20) + Dec2(54) == "2054";
  }

  lemma SaidRest()
    ensures Dec2(5) + Dec2(16) + Dec2(7) + Dec2(18) + Dec2(29) + "Z" == "0516071829Z"
  {
    assert Dec2(5) + Dec2(16) == "0516" && Dec2(7) + Dec2(18) == "0718";
  }

  lemma SaidIsRead(s: string, t: Tm)
    requires Says(s, t)
    ensures AnyTime(s) == Some(Moment(Seconds(t), 0))
  {
    if 1950 <= t.year < 2050 && s == Dec2(t.year % 100) + Behind(t) {
      ClockIsUtc(t);
      assert s == Format(t);
    } else {
      FourDigitYear(s, t);
      FourDigitsNotUtc(s, t);
    }
  }

  lemma FourDigitYear(s: string, t: Tm)
    requires ValidTm(t) && 0 <= t.year <= 9999 && s == Dec2(t.year / 100) + Dec2(t.year % 100) + Behind(t)
    ensures Parse(s, Generalized) == Some(Moment(Seconds(t), 0))
  {
    YearPairs(s, t.year / 100, t.year % 100, Behind(t));
    AfterFourDigits(s, t, t.year / 100, t.year % 100);
  }

  lemma AfterFourDigits(s: string, t: Tm, cc: nat, yy: nat)
    requires ValidTm(t) && cc <= 99 && yy <= 99 && t.year == 100 * cc + yy
    requires |s| == 15 && s[4..] == Behind(t) && DigitPair(s, 0) == cc && DigitPair(s, 2) == yy
    ensures Parse(s, Generalized) == Some(Moment(Seconds(t), 0))
  {
    ClockAfterYear(t, s, Generalized, 2);
    GeneralizedParts(s, cc, yy, Some(Moment(Seconds(t), 0)));
  }

  lemma YearPairs(s: string, cc: nat, yy: nat, rest: string)
    requires s == Dec2(cc) + Dec2(yy) + rest && cc <= 99 && yy <= 99
    ensures |s| == 4 + |rest| && s[4..] == rest && DigitPair(s, 0) == cc && DigitPair(s, 2) == yy
  {
    Dec2Pair(cc, s, 0);
    Dec2Pair(yy, s, 2);
  }

  lemma GeneralizedParts(s: string, cc: nat, yy: nat, m: Option<Moment>)
    requires |s| >= 15 && DigitPair(s, 0) == cc && DigitPair(s, 2) == yy && cc <= 99 && yy <= 99
    requires AfterYear(s, Generalized, 2, 100 * cc + yy) == m
    ensures Parse(s, Generalized) == m
  {
  }

  lemma FourDigitsNotUtc(s: string, t: Tm)
    requires ValidTm(t) && s == Dec2(t.year / 100) + Dec2(t.year % 100) + Behind(t)
    ensures !UtcOk(s)
  {
    var m, c := Dec2(t.min), Dec2(t.sec);
    assert |s| == 15 && s[10] == m[0] && s[12] == c[0];
    Dec2Pair(t.min, m, 0);
    Dec2Pair(t.sec, c, 0);
  }

  // A fraction of a second is dropped, seconds may be left out where a zone makes
  // up for their length, and a zone is subtracted.
  lemma Fraction()
    ensures AnyTime("20300102030405.678+0130") == Some(Moment(Seconds(Tm(2030, 1, 2, 3, 4, 5)), -5400))
  {
    var s := "20300102030405.678+0130";
    assert DigitPair(s, 0) == 20 && DigitPair(s, 2) == 30 && DigitPair(s, 4) == 1 && DigitPair(s, 6) == 2;
    assert DigitPair(s, 8) == 3 && DigitPair(s, 10) == 4 && DigitPair(s, 12) == 5;
    assert SkipDigits(s, 15) == 18 && DigitPair(s, 19) == 1 && DigitPair(s, 21) == 30;
  }

  lemma NoSeconds()
    ensures AnyTime("3001020304-0130") == Some(Moment(Seconds(Tm(2030, 1, 2, 3, 4, 0)), 5400))
  {
    var s := "3001020304-0130";
    assert DigitPair(s, 0) == 30 && DigitPair(s, 2) == 1 && DigitPair(s, 4) == 2 && DigitPair(s, 6) == 3;
    assert DigitPair(s, 8) == 4 && DigitPair(s, 11) == 1 && DigitPair(s, 13) == 30;
  }

  // A zone has at most twelve hours and fifty-nine minutes, and ends the text.
  lemma ZoneIsRead(s: string, o: nat, secs: int, h: nat, m: nat)
    requires h <= 99 && m <= 99 && |s| == o + 5 && s[o + 1..] == Dec2(h) + Dec2(m)
    ensures s[o] == '+' ==>
      Zone(s, o, secs) == if h <= 12 && m <= 59 then Some(Moment(secs, -60 * (60 * h + m))) else None
    ensures s[o] == '-' ==>
      Zone(s, o, secs) == if h <= 12 && m <= 59 then Some(Moment(secs, 60 * (60 * h + m))) else None
    ensures s[o] != '+' && s[o] != '-' ==> Zone(s, o, secs).None?
  {
    var z := s[o + 1..];
    assert s[o + 1] == z[0] && s[o + 2] == z[1] && s[o + 3] == z[2] && s[o + 4] == z[3];
    Dec2Pair(h, s, o + 1);
    Dec2Pair(m, s, o + 3);
  }

  // A fraction needs a digit and has no place in a UTCTime; nothing may follow the
  // Z, and without seconds it comes too early.
  lemma RejectedTimes()
    ensures !GeneralizedOk("20300101000000.Z") && !UtcOk("300101000000.5Z")
    ensures !UtcOk("300101000000ZZ") && !UtcOk("3001010000Z") && !GeneralizedOk("203001010000Z")
  {
    NoDigit();
    assert |"300101000000.5Z"| == 15 && "300101000000.5Z"[12] == '.';
    assert |"300101000000ZZ"| == 14 && "300101000000ZZ"[12] == 'Z';
  }

  lemma NoDigit()
    ensures !GeneralizedOk("20300101000000.Z")
  {
    var s := "20300101000000.Z";
    assert |s| == 16 && s[12] == '0' && s[14] == '.' && s[15] == 'Z';
    assert SkipDigits(s, 15) == 15;
  }

  // Of all texts of that form only those of days that exist, and of times of day,
  // are accepted.
  lemma OnlyValidTimes(t: Tm)
    requires 1950 <= t.year < 2050 && 0 <= t.mon <= 99 && 0 <= t.day <= 99
    requires 0 <= t.hour <= 99 && 0 <= t.min <= 99 && 0 <= t.sec <= 99
    ensures UtcOk(Format(t)) <==> ValidTm(t)
  {
    var s, yy := Format(t), t.year % 100;
    Dec2Pair(yy, s, 0);
    FormatPairs(t);
    PairsDecide(s, t, yy);
  }

  lemma PairsDecide(s: string, t: Tm, yy: nat)
    requires |s| == 13 && s[12] == 'Z' && IsDigit(s[10]) && DigitPair(s, 0) == yy <= 99
    requires DigitPair(s, 2) == t.mon >= 0 && DigitPair(s, 4) == t.day >= 0
    requires DigitPair(s, 6) == t.hour >= 0 && DigitPair(s, 8) == t.min >= 0 && DigitPair(s, 10) == t.sec >= 0
    requires t.year == if yy < 50 then 2000 + yy else 1900 + yy
    ensures UtcOk(s) <==> ValidTm(t)
  {
  }

  lemma FormatPairs(t: Tm)
    requires 1950 <= t.year < 2050 && 0 <= t.mon <= 99 && 0 <= t.day <= 99
    requires 0 <= t.hour <= 99 && 0 <= t.min <= 99 && 0 <= t.sec <= 99
    ensures var s := Format(t);
      && |s| == 13 && s[12] == 'Z' && IsDigit(s[10])
      && DigitPair(s, 2) == t.mon && DigitPair(s, 4) == t.day
      && DigitPair(s, 6) == t.hour && DigitPair(s, 8) == t.min && DigitPair(s, 10) == t.sec
  {
    var s := Format(t);
    Dec2Pair(t.mon, s, 2);
    Dec2Pair(t.day, s, 4);
    Dec2Pair(t.hour, s, 6);
    Dec2Pair(t.min, s, 8);
    Dec2Pair(t.sec, s, 10);
  }

  // --------------------------------------------------------------------- expiry

  // A valid row expires when the clock has reached the date and time of day that
  // its expiry says.
  lemma ExpiresByCalendar(r: Row, t: Tm, now: Tm)
    requires Says(r.exp, t) && ValidTm(now)
    ensures Expires(r, Seconds(now)) <==> r.Type() == 'V' && !Before(now, t)
  {
    SaidIsRead(r.exp, t);
    SecondsFollowCalendar(now, t);
  }

  // So every row of an updated table whose expiry says a time is what it was,
  // or has been marked, as the calendar wants it.
  ghost predicate MarkedByCalendar(rows: seq<Row>, marked: seq<Row>, now: Tm) {
    && |marked| == |rows|
    && forall i, t :: 0 <= i < |rows| && Says(rows[i].exp, t) ==>
      marked[i] == if rows[i].Type() == 'V' && !Before(now, t) then rows[i].(kind := "E") else rows[i]
  }

  lemma UpdateMarks(rows: seq<Row>, now: Tm)
    requires ValidTm(now)
    ensures MarkedByCalendar(rows, ExpireRows(rows, Seconds(now)), now)
  {
    forall i, t | 0 <= i < |rows| && Says(rows[i].exp, t)
      ensures ExpireRows(rows, Seconds(now))[i] ==
        if rows[i].Type() == 'V' && !Before(now, t) then rows[i].(kind := "E") else rows[i]
    {
      ExpiresByCalendar(rows[i], t, now);
    }
  }

  // The row of a certificate is on record with its number and name, and expires
  // when the certificate does.
  lemma IssuedRowExpires(c: Cert, t: Tm, now: Tm)
    requires Says(c.notAfter, t) && ValidTm(now)
    ensures Expire(RowFor(c), Seconds(now)) ==
      Row(if Before(now, t) then "V" else "E", c.notAfter, "", SerialText(c.serial), "unknown",
          if c.subject == "" then SerialText(c.serial) else c.subject)
  {
    ExpiresByCalendar(RowFor(c), t, now);
  }
}
