// The two ASN.1 time spellings the database stores: how the library parses
// them, how the current time is written, and what instant they denote.
module Asn1Time {
  import opened Text

  // Calendar time in UTC.
  datatype Tm = Tm(year: int, mon: int, day: int, hour: int, min: int, sec: int)

  datatype Kind = Utc | Generalized

  predicate LeapYear(y: int) { y % 400 == 0 || (y % 100 != 0 && y % 4 == 0) }

  function MonthDays(y: int, m: int): (d: int)
    requires 1 <= m <= 12
    ensures 28 <= d <= 31
  {
    if m == 2 then (if LeapYear(y) then 29 else 28)
    else if m == 4 || m == 6 || m == 9 || m == 11 then 30
    else 31
  }

  predicate ValidTm(t: Tm) {
    && 1 <= t.mon <= 12 && 1 <= t.day <= MonthDays(t.year, t.mon)
    && 0 <= t.hour <= 23 && 0 <= t.min <= 59 && 0 <= t.sec <= 59
  }

  // Fliegel and Van Flandern's day number.
  function JulianDay(y: int, m: int, d: int): int {
    var a := if m <= 2 then -1 else 0;
    1461 * (y + 4800 + a) / 4 + 367 * (m - 2 - 12 * a) / 12
      - 3 * ((y + 4900 + a) / 100) / 4 + d - 32075
  }

  function Seconds(t: Tm): int {
    86400 * JulianDay(t.year, t.mon, t.day) + 3600 * t.hour + 60 * t.min + t.sec
  }

  // ---------------------------------------------------------------- parsing

  function DigitPair(s: string, o: nat): (n: int)
    requires o + 1 < |s|
    ensures n >= 0 ==> IsDigit(s[o]) && IsDigit(s[o + 1])
  {
    if IsDigit(s[o]) && IsDigit(s[o + 1])
    then 10 * (s[o] as int - '0' as int) + (s[o + 1] as int - '0' as int)
    else -1
  }

  // Two digits in the range lo..hi with at least one more character behind them.
  function Field(s: string, o: nat, lo: nat, hi: nat): (n: int)
    ensures n >= 0 ==> o + 2 < |s| && IsDigit(s[o]) && IsDigit(s[o + 1]) && lo <= n <= hi
  {
    if o + 2 < |s| && lo <= DigitPair(s, o) <= hi then DigitPair(s, o) else -1
  }

  predicate IsZoneMark(c: char) { c == 'Z' || c == '+' || c == '-' }

  // A time as it is written, in seconds, and how far its zone moves it.
  datatype Moment = Moment(written: int, shift: int)
  {
    function Instant(): int { written + shift }

    // A shift must not lead out of the years 1900 to 9999. That is not looked
    // at when a time is merely accepted, only when it is used.
    predicate Computable() { shift == 0 || InCalendar(Instant()) }
  }

  predicate InCalendar(secs: int) {
    FirstSecond(1900) <= secs < FirstSecond(10000)
  }

  function FirstSecond(year: int): int { 86400 * JulianDay(year, 1, 1) }

  // The zone suffix at o must end the text.
  function Zone(s: string, o: nat, secs: int): (r: Option<Moment>)
    requires o < |s|
  {
    if s[o] == 'Z' then
      if o + 1 == |s| then Some(Moment(secs, 0)) else None
    else if s[o] == '+' || s[o] == '-' then
      if o + 5 != |s| then None
      else
        var h, m := DigitPair(s, o + 1), DigitPair(s, o + 3);
        if !(0 <= h <= 12 && 0 <= m <= 59) then None
        else
          var offset := 3600 * h + 60 * m;
          Some(Moment(secs, if s[o] == '-' then offset else -offset))
    else None
  }

  function SkipDigits(s: string, o: nat): (e: nat)
    requires o <= |s|
    ensures o <= e <= |s|
    ensures forall i :: o <= i < e ==> IsDigit(s[i])
    decreases |s| - o
  {
    if o < |s| && IsDigit(s[o]) then SkipDigits(s, o + 1) else o
  }

  // After the seconds: GeneralizedTime may carry a decimal fraction.
  function Tail(s: string, k: Kind, o: nat, secs: int): (r: Option<Moment>)
    requires o < |s|
  {
    if k.Generalized? && s[o] == '.' then
      var e := SkipDigits(s, o + 1);
      if e == o + 1 || e == |s| then None else Zone(s, e, secs)
    else Zone(s, o, secs)
  }

  // Month to zone of a time text, for a year that has been read already.
  function AfterYear(s: string, k: Kind, b: nat, year: int): (r: Option<Moment>) {
    var mo, dd := Field(s, b + 2, 1, 12), Field(s, b + 4, 1, 31);
    var hh, mi := Field(s, b + 6, 0, 23), Field(s, b + 8, 0, 59);
    if mo < 0 || dd < 0 || hh < 0 || mi < 0 || dd > MonthDays(year, mo) then None
    else if IsZoneMark(s[b + 10]) then
      Zone(s, b + 10, Seconds(Tm(year, mo, dd, hh, mi, 0)))
    else
      var ss := Field(s, b + 10, 0, 59);
      if ss < 0 then None
      else Tail(s, k, b + 12, Seconds(Tm(year, mo, dd, hh, mi, ss)))
  }

  // What a time text says, or None when the library rejects it. Two-digit years
  // mean 1950 to 2049.
  function Parse(s: string, k: Kind): (r: Option<Moment>) {
    if k.Utc? then
      var yy := Field(s, 0, 0, 99);
      if |s| < 13 || yy < 0 then None
      else AfterYear(s, k, 0, if yy < 50 then 2000 + yy else 1900 + yy)
    else
      var cc, yy := Field(s, 0, 0, 99), Field(s, 2, 0, 99);
      if |s| < 15 || cc < 0 || yy < 0 then None
      else AfterYear(s, k, 2, 100 * cc + yy)
  }

  predicate UtcOk(s: string) { Parse(s, Utc).Some? }

  predicate GeneralizedOk(s: string) { Parse(s, Generalized).Some? }

  // ASN1_TIME_set_string: UTCTime first, then GeneralizedTime.
  function AnyTime(s: string): (r: Option<Moment>) {
    if UtcOk(s) then Parse(s, Utc) else Parse(s, Generalized)
  }

  // ASN1_TIME_compare with the present: 1, 0 or -1, or -2 for a time that cannot
  // be computed.
  function Compare(m: Moment, now: int): (c: int)
    ensures c > 0 <==> m.Computable() && m.Instant() > now
  {
    if !m.Computable() then -2
    else if m.Instant() > now then 1
    else if m.Instant() < now then -1
    else 0
  }

  // ---------------------------------------------------------------- writing

  function Dec2(n: int): (s: string)
    ensures |s| == 2
  {
    [('0' as int + n / 10 % 10) as char, ('0' as int + n % 10) as char]
  }

  // How the current time is spelled: UTCTime for the years it can express,
  // GeneralizedTime otherwise.
  function Format(t: Tm): (s: string) {
    var rest := Dec2(t.mon) + Dec2(t.day) + Dec2(t.hour) + Dec2(t.min) + Dec2(t.sec) + "Z";
    if 1950 <= t.year < 2050 then Dec2(t.year % 100) + rest
    else Dec2(t.year / 100) + Dec2(t.year % 100) + rest
  }

  // ------------------------------------------------------------------ facts

  lemma Dec2Pair(n: int, s: string, o: nat)
    requires 0 <= n <= 99 && o + 1 < |s| && s[o] == Dec2(n)[0] && s[o + 1] == Dec2(n)[1]
    ensures DigitPair(s, o) == n
  {
    assert n == 10 * (n / 10) + n % 10 && n / 10 % 10 == n / 10;
  }

  // The text of month to second, put behind a year that ends at b + 2, parses back.
  lemma ClockAfterYear(t: Tm, s: string, k: Kind, b: nat)
    requires ValidTm(t) && |s| == b + 13
    requires s[b + 2..] == Dec2(t.mon) + Dec2(t.day) + Dec2(t.hour) + Dec2(t.min) + Dec2(t.sec) + "Z"
    ensures AfterYear(s, k, b, t.year) == Some(Moment(Seconds(t), 0))
  {
    var r := s[b + 2..];
    assert forall i :: 0 <= i < 11 ==> s[b + 2 + i] == r[i];
    Dec2Pair(t.mon, s, b + 2);
    Dec2Pair(t.day, s, b + 4);
    Dec2Pair(t.hour, s, b + 6);
    Dec2Pair(t.min, s, b + 8);
    Dec2Pair(t.sec, s, b + 10);
    assert IsDigit(s[b + 10]) && s[b + 12] == 'Z';
  }

  // The clock text is accepted as a UTCTime, and denotes the clock's instant,
  // exactly in the years 1950 to 2049; from 2050 on it is a GeneralizedTime.
  lemma ClockIsUtc(t: Tm)
    requires ValidTm(t) && 1950 <= t.year < 2050
    ensures Parse(Format(t), Utc) == Some(Moment(Seconds(t), 0))
  {
    var s := Format(t);
    var yy := t.year % 100;
    assert t.year == if yy < 50 then 2000 + yy else 1900 + yy;
    Dec2Pair(yy, s, 0);
    assert Field(s, 0, 0, 99) == yy;
    ClockAfterYear(t, s, Utc, 0) by {
      assert s[2..] == Dec2(t.mon) + Dec2(t.day) + Dec2(t.hour) + Dec2(t.min) + Dec2(t.sec) + "Z";
    }
  }

  lemma ClockIsNotUtc(t: Tm)
    requires ValidTm(t) && 2050 <= t.year <= 9999
    ensures !UtcOk(Format(t))
  {
    var s := Format(t);
    assert |s| == 15;
    var h, m, c := Dec2(t.hour), Dec2(t.min), Dec2(t.sec);
    assert s[10] == m[0] && s[12] == c[0];
    Dec2Pair(t.min, m, 0);
    Dec2Pair(t.sec, c, 0);
    assert IsDigit(s[10]) && IsDigit(s[12]);
  }

  lemma ClockIsGeneralized(t: Tm)
    requires ValidTm(t) && 2050 <= t.year <= 9999
    ensures Parse(Format(t), Generalized) == Some(Moment(Seconds(t), 0))
  {
    var s := Format(t);
    Dec2Pair(t.year / 100, s, 0);
    Dec2Pair(t.year % 100, s, 2);
    ClockAfterYear(t, s, Generalized, 2);
  }

  // A clock reading lies in the calendar that shifted times must not leave.
  lemma ClockInCalendar(t: Tm)
    requires ValidTm(t) && 1900 <= t.year <= 9999
    ensures InCalendar(Seconds(t))
  {
    var y := t.year + 4800 - (if t.mon <= 2 then 1 else 0);
    YearsGrow(6699, y);
    YearsGrow(y, 14799);
    assert 6699 <= y <= 14799 && (t.mon > 2 ==> 6700 <= y) && (t.mon <= 2 ==> y <= 14798);
    assert JulianDay(1900, 1, 1) == YearDays(6699) + 336 + 1 - 32075;
    assert JulianDay(10000, 1, 1) == YearDays(14799) + 336 + 1 - 32075;
    MonthStarts(t.mon);
    if t.mon > 2 { YearsGrow(6700, y); YearStep(6699); } else { YearsGrow(y, 14798); YearStep(14798); }
  }

  // The part of the day number that comes from the years, March to February.
  function YearDays(y: int): int { 1461 * y / 4 - 3 * ((y + 100) / 100) / 4 }

  lemma YearStep(y: nat)
    ensures YearDays(y) + 364 <= YearDays(y + 1)
  {
  }

  lemma {:induction false} YearsGrow(y: nat, z: nat)
    requires y <= z
    ensures YearDays(y) <= YearDays(z)
    decreases z - y
  {
    if y < z {
      YearStep(y);
      YearsGrow(y + 1, z);
    }
  }

  lemma MonthStarts(m: int)
    requires 1 <= m <= 12
    ensures m <= 2 ==> 336 <= 367 * (m - 2 + 12) / 12 <= 367
    ensures m > 2 ==> 30 <= 367 * (m - 2) / 12 <= 305
  {
  }

  // The only characters an accepted time text can hold.
  predicate TimeChar(c: char) { IsDigit(c) || IsZoneMark(c) || c == '.' }

  predicate TimeChars(s: string) { forall i :: 0 <= i < |s| ==> TimeChar(s[i]) }

  lemma ZoneChars(s: string, o: nat, secs: int)
    requires o < |s| && Zone(s, o, secs).Some?
    ensures forall i :: o <= i < |s| ==> TimeChar(s[i])
  {
    if s[o] != 'Z' {
      assert |s| == o + 5;
      assert TimeChar(s[o]) && TimeChar(s[o + 1]) && TimeChar(s[o + 2]) && TimeChar(s[o + 3]) && TimeChar(s[o + 4]);
    }
  }

  lemma TailChars(s: string, k: Kind, o: nat, secs: int)
    requires o < |s| && Tail(s, k, o, secs).Some?
    ensures forall i :: o <= i < |s| ==> TimeChar(s[i])
  {
    if k.Generalized? && s[o] == '.' {
      ZoneChars(s, SkipDigits(s, o + 1), secs);
    } else {
      ZoneChars(s, o, secs);
    }
  }

  lemma AfterYearChars(s: string, k: Kind, b: nat, year: int)
    requires AfterYear(s, k, b, year).Some?
    ensures forall i :: b + 2 <= i < |s| ==> TimeChar(s[i])
  {
    var mo, dd := Field(s, b + 2, 1, 12), Field(s, b + 4, 1, 31);
    var hh, mi := Field(s, b + 6, 0, 23), Field(s, b + 8, 0, 59);
    if IsZoneMark(s[b + 10]) {
      ZoneChars(s, b + 10, Seconds(Tm(year, mo, dd, hh, mi, 0)));
    } else {
      TailChars(s, k, b + 12, Seconds(Tm(year, mo, dd, hh, mi, Field(s, b + 10, 0, 59))));
    }
  }

  // An accepted time text is long enough and never holds a comma, a tab, a
  // line feed or a backslash.
  lemma TimeTextChars(s: string, k: Kind)
    requires Parse(s, k).Some?
    ensures |s| >= 13 && TimeChars(s)
  {
    if k.Utc? {
      var yy := Field(s, 0, 0, 99);
      AfterYearChars(s, k, 0, if yy < 50 then 2000 + yy else 1900 + yy);
    } else {
      AfterYearChars(s, k, 2, 100 * Field(s, 0, 0, 99) + Field(s, 2, 0, 99));
    }
  }
}
