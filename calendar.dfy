/** Civil date-times as the backend stores them (naive Python datetimes), the
    Gregorian month lengths that calendar.monthrange reports, the chronological
    order of date-times, and the "%Y-%m-%d" day keys the dashboard groups by. */
module Calendar {
  import opened Text

  /** A naive date-time with whole seconds. */
  datatype DateTime = DateTime(year: int, month: int, day: int, hour: int, minute: int, second: int)

  /** Gregorian leap-year rule. */
  predicate IsLeapYear(y: int)
  {
    y % 4 == 0 && (y % 100 != 0 || y % 400 == 0)
  }

  /** The number of days in month m of year y (calendar.monthrange(y, m)[1]). */
  function DaysInMonth(y: int, m: int): (d: int)
    requires 1 <= m <= 12
    ensures d == 31 <==> m in {1, 3, 5, 7, 8, 10, 12}
    ensures d == 30 <==> m in {4, 6, 9, 11}
    ensures m == 2 ==> (d == 29 <==> IsLeapYear(y)) && (d == 28 <==> !IsLeapYear(y))
    ensures 28 <= d <= 31
  {
    var lengths := [31, if IsLeapYear(y) then 29 else 28, 31, 30, 31, 30, 31, 31, 30, 31, 30, 31];
    lengths[m - 1]
  }

  /** Number of days in the first k months of year y. */
  function DaysBeforeMonth(y: int, k: nat): int
    requires k <= 12
  {
    if k == 0 then 0 else DaysBeforeMonth(y, k - 1) + DaysInMonth(y, k)
  }

  /** The twelve month lengths add up to the length of the Gregorian year. */
  lemma YearLength(y: int)
    ensures DaysBeforeMonth(y, 12) == if IsLeapYear(y) then 366 else 365
  {
    var feb := if IsLeapYear(y) then 29 else 28;
    assert DaysInMonth(y, 2) == feb;
    assert DaysBeforeMonth(y, 1) == 31;
    assert DaysBeforeMonth(y, 2) == 31 + feb;
    assert DaysBeforeMonth(y, 3) == 62 + feb;
    assert DaysBeforeMonth(y, 4) == 92 + feb;
    assert DaysBeforeMonth(y, 5) == 123 + feb;
    assert DaysBeforeMonth(y, 6) == 153 + feb;
    assert DaysBeforeMonth(y, 7) == 184 + feb;
    assert DaysBeforeMonth(y, 8) == 215 + feb;
    assert DaysBeforeMonth(y, 9) == 245 + feb;
    assert DaysBeforeMonth(y, 10) == 276 + feb;
    assert DaysBeforeMonth(y, 11) == 306 + feb;
  }

  /** The range Python's datetime accepts, with whole seconds. */
  predicate ValidDateTime(t: DateTime)
  {
    && 1 <= t.year <= 9999
    && 1 <= t.month <= 12
    && 1 <= t.day <= DaysInMonth(t.year, t.month)
    && 0 <= t.hour < 24
    && 0 <= t.minute < 60
    && 0 <= t.second < 60
  }

  /** A number that orders date-times chronologically (see OrdinalIsChronological). */
  function Ordinal(t: DateTime): int
  {
    t.year * 35942400 + t.month * 2764800 + t.day * 86400 + t.hour * 3600 + t.minute * 60 + t.second
  }

  /** Field-by-field comparison, which is how Python compares datetimes. */
  predicate Before(a: DateTime, b: DateTime)
  {
    || a.year < b.year
    || (a.year == b.year && a.month < b.month)
    || (a.year == b.year && a.month == b.month && a.day < b.day)
    || (a.year == b.year && a.month == b.month && a.day == b.day && a.hour < b.hour)
    || (a.year == b.year && a.month == b.month && a.day == b.day && a.hour == b.hour && a.minute < b.minute)
    || (a.year == b.year && a.month == b.month && a.day == b.day && a.hour == b.hour && a.minute == b.minute
        && a.second < b.second)
  }

  /** Comparing ordinals is comparing date-times chronologically. */
  lemma OrdinalIsChronological(a: DateTime, b: DateTime)
    requires ValidDateTime(a) && ValidDateTime(b)
    ensures Ordinal(a) < Ordinal(b) <==> Before(a, b)
    ensures Ordinal(a) == Ordinal(b) <==> a == b
  {
    var ra := a.month * 2764800 + a.day * 86400 + a.hour * 3600 + a.minute * 60 + a.second;
    var rb := b.month * 2764800 + b.day * 86400 + b.hour * 3600 + b.minute * 60 + b.second;
    assert 0 < ra < 35942400 && 0 < rb < 35942400;
    var da := a.day * 86400 + a.hour * 3600 + a.minute * 60 + a.second;
    var db := b.day * 86400 + b.hour * 3600 + b.minute * 60 + b.second;
    assert 0 < da < 2764800 && 0 < db < 2764800;
    var ha := a.hour * 3600 + a.minute * 60 + a.second;
    var hb := b.hour * 3600 + b.minute * 60 + b.second;
    assert 0 <= ha < 86400 && 0 <= hb < 86400;
  }

  /** Midnight on the first day of t's month (`now.replace(day=1, hour=0, ...)`). */
  function FirstOfMonth(t: DateTime): DateTime
  {
    DateTime(t.year, t.month, 1, 0, 0, 0)
  }

  /** A date-time is at or after the first instant of a month exactly when its
      (year, month) is that month or a later one. */
  lemma AtOrAfterFirstOfMonth(t: DateTime, now: DateTime)
    requires ValidDateTime(t) && ValidDateTime(now)
    ensures Ordinal(t) >= Ordinal(FirstOfMonth(now)) <==>
            t.year > now.year || (t.year == now.year && t.month >= now.month)
  {
    var f := FirstOfMonth(now);
    assert ValidDateTime(f);
    OrdinalIsChronological(t, f);
  }

  /** The "YYYY-MM-DD" key of a day: unpadded year (as both `strftime("%Y")` on
      glibc and `f"{year}"` print it), month and day padded to two digits. */
  function DateKey(y: int, m: int, d: int): (k: string)
    ensures 0 <= y && 0 <= m < 100 && 0 <= d < 100 ==> k == Decimal(y) + "-" + Pad2(m) + "-" + Pad2(d)
  {
    assert 0 <= m < 100 ==> PadStart2(IntToString(m)) == Pad2(m) by {
      if 0 <= m < 100 { PadStartIsPad2(m); }
    }
    assert 0 <= d < 100 ==> PadStart2(IntToString(d)) == Pad2(d) by {
      if 0 <= d < 100 { PadStartIsPad2(d); }
    }
    IntToString(y) + "-" + PadStart2(IntToString(m)) + "-" + PadStart2(IntToString(d))
  }

  /** Two keys built from fields of the same widths are equal only field by field. */
  lemma KeyFieldsEqual(a1: string, b1: string, c1: string, a2: string, b2: string, c2: string)
    requires |b1| == |c1| == |b2| == |c2| == 2
    requires a1 + "-" + b1 + "-" + c1 == a2 + "-" + b2 + "-" + c2
    ensures a1 == a2 && b1 == b2 && c1 == c2
  {
    var k := a1 + "-" + b1 + "-" + c1;
    var n := |a1|;
    assert |a2| == n;
    assert k[..n] == a1;
    assert (a2 + "-" + b2 + "-" + c2)[..n] == a2;
    assert k[n + 1..n + 3] == b1;
    assert (a2 + "-" + b2 + "-" + c2)[n + 1..n + 3] == b2;
    assert k[n + 4..] == c1;
    assert (a2 + "-" + b2 + "-" + c2)[n + 4..] == c2;
  }

  /** Distinct days have distinct keys. */
  lemma DateKeyInjective(y1: int, m1: int, d1: int, y2: int, m2: int, d2: int)
    requires 0 <= y1 && 0 <= m1 < 100 && 0 <= d1 < 100
    requires 0 <= y2 && 0 <= m2 < 100 && 0 <= d2 < 100
    requires DateKey(y1, m1, d1) == DateKey(y2, m2, d2)
    ensures y1 == y2 && m1 == m2 && d1 == d2
  {
    KeyFieldsEqual(Decimal(y1), Pad2(m1), Pad2(d1), Decimal(y2), Pad2(m2), Pad2(d2));
    DecimalInjective(y1, y2);
    Pad2RoundTrip(m1);
    Pad2RoundTrip(m2);
    Pad2RoundTrip(d1);
    Pad2RoundTrip(d2);
  }

  /** The key of the day a date-time falls on (`start_time.strftime("%Y-%m-%d")`). */
  function DayKeyOf(t: DateTime): (k: string)
    ensures ValidDateTime(t) ==> k == Decimal(t.year) + "-" + Pad2(t.month) + "-" + Pad2(t.day)
  {
    DateKey(t.year, t.month, t.day)
  }
}
