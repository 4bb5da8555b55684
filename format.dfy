/** frontend-ts/lib/utils/format.ts, and the local formatTime and formatPace of
    frontend/src/pages/ActivityDetail.jsx, which are the same expressions: clock and
    pace strings, the fixed nine-hour shift to Korean time, the time of day of an
    instant, and the TCX file-name test. JavaScript numbers are reals here, and an
    instant is an integer count of milliseconds since 1970-01-01T00:00:00Z. */
module Format {
  import opened Common
  import opened Text

  /** Math.trunc: drops the fraction, rounding toward zero. */
  function Trunc(x: real): (n: int)
    ensures x >= 0.0 ==> n == x.Floor
    ensures x < 0.0 ==> n == -((-x).Floor)
  {
    if x >= 0.0 then x.Floor else -((-x).Floor)
  }

  /** JavaScript's x % b for b > 0: the remainder of truncating division, which
      keeps the sign of x. */
  function JsRem(x: real, b: real): real
    requires b > 0.0
  {
    x - Trunc(x / b) as real * b
  }

  /** The h, m and s of formatTime: Math.floor(seconds / 3600),
      Math.floor((seconds % 3600) / 60) and Math.floor(seconds % 60). For a
      non-negative duration they are the whole hours, minutes and seconds of its
      whole part. */
  function ClockFields(seconds: real): (f: (int, int, int))
    ensures seconds >= 0.0 ==> 0 <= f.0 && 0 <= f.1 < 60 && 0 <= f.2 < 60
    ensures seconds >= 0.0 ==> f.0 * 3600 + f.1 * 60 + f.2 == seconds.Floor
    ensures seconds < 0.0 ==> f.0 < 0 && f.1 <= 0 && f.2 <= 0
  {
    var h := (seconds / 3600.0).Floor;
    var r1 := JsRem(seconds, 3600.0);
    var m := (r1 / 60.0).Floor;
    var r2 := JsRem(seconds, 60.0);
    assert seconds >= 0.0 ==> 0.0 <= r2 < 60.0 && seconds == (h * 3600 + m * 60) as real + r2 by {
      if seconds >= 0.0 {
        var f := r1 - m as real * 60.0;
        assert 0.0 <= f < 60.0;
        assert seconds == (h * 60 + m) as real * 60.0 + f;
        assert (seconds / 60.0).Floor == h * 60 + m;
        assert r2 == f;
      }
    }
    assert seconds < 0.0 ==> r1 <= 0.0 && r2 <= 0.0;
    (h, m, r2.Floor)
  }

  /** formatTime: "h:mm:ss" from one hour on, "mm:ss" below it. */
  function FormatTime(seconds: real): (r: string)
  {
    var f := ClockFields(seconds);
    ClockText(f.0, f.1, f.2)
  }

  /** The template string of formatTime: the hour and a colon only when the hour
      is positive, then minutes and seconds padded to two characters. */
  function ClockText(h: int, m: int, s: int): string
  {
    (if h > 0 then IntToString(h) + ":" else "") + PadStart2(IntToString(m)) + ":" + PadStart2(IntToString(s))
  }

  /** The m and s of formatPace: Math.floor(p / 60) and Math.floor(p % 60). */
  function PaceFields(p: real): (f: (int, int))
    ensures p >= 0.0 ==> 0 <= f.0 && 0 <= f.1 < 60 && f.0 * 60 + f.1 == p.Floor
  {
    var m := (p / 60.0).Floor;
    var r := JsRem(p, 60.0);
    assert p >= 0.0 ==> p == m as real * 60.0 + r;
    (m, r.Floor)
  }

  /** formatPace: unpadded minutes, a colon, two-digit seconds. */
  function FormatPace(secondsPerKm: real): (r: string)
  {
    var (m, s) := PaceFields(secondsPerKm);
    IntToString(m) + ":" + PadStart2(IntToString(s))
  }

  /** The seconds a list of clock fields stands for: hours, minutes and seconds, or
      minutes and seconds, every field made of digits; anything else does not read. */
  function ReadFields(parts: seq<string>): Option<int>
  {
    if |parts| == 2 then ReadMinutes(parts[0], parts[1])
    else if |parts| == 3 then ReadHours(parts[0], parts[1], parts[2])
    else None
  }

  /** "m:ss" of digit fields, as seconds. */
  function ReadMinutes(m: string, s: string): Option<int>
  {
    if AllDigits(m) && AllDigits(s) then Some(ParseDigits(m) * 60 + ParseDigits(s)) else None
  }

  /** "h:mm:ss" of digit fields, as seconds. */
  function ReadHours(h: string, m: string, s: string): Option<int>
  {
    if AllDigits(h) && AllDigits(m) && AllDigits(s) then
      Some(ParseDigits(h) * 3600 + ParseDigits(m) * 60 + ParseDigits(s))
    else None
  }

  /** Reads a clock string, "h:mm:ss" or "m:ss", back into seconds. */
  function ParseClock(r: string): Option<int>
  {
    ReadFields(Split(r, ':'))
  }

  /** Splitting "a:b" when neither field holds a colon. */
  lemma SplitTwo(a: string, b: string)
    requires ':' !in a && ':' !in b
    ensures Split(a + ":" + b, ':') == [a, b]
  {
    assert Split(b, ':') == [b];
    SplitCons(a, ':', b);
  }

  /** Splitting "a:b:c" when no field holds a colon. */
  lemma SplitThree(a: string, b: string, c: string)
    requires ':' !in a && ':' !in b && ':' !in c
    ensures Split(a + ":" + b + ":" + c, ':') == [a, b, c]
  {
    SplitTwo(b, c);
    assert a + ":" + b + ":" + c == a + [':'] + (b + ":" + c);
    SplitCons(a, ':', b + ":" + c);
  }

  /** A string of digits holds no colon. */
  lemma DigitsHaveNoColon(s: string)
    requires AllDigits(s)
    ensures ':' !in s
  {
    assert forall i :: 0 <= i < |s| ==> s[i] != ':';
  }

  lemma ReadTwoFields(a: string, b: string)
    requires AllDigits(a) && AllDigits(b)
    ensures ReadFields([a, b]) == Some(ParseDigits(a) * 60 + ParseDigits(b))
  {
  }

  lemma ReadThreeFields(a: string, b: string, c: string)
    requires AllDigits(a) && AllDigits(b) && AllDigits(c)
    ensures ReadFields([a, b, c]) == Some(ParseDigits(a) * 3600 + ParseDigits(b) * 60 + ParseDigits(c))
  {
    var parts := [a, b, c];
    assert |parts| == 3 && parts[0] == a && parts[1] == b && parts[2] == c;
    assert ReadFields(parts) == ReadHours(a, b, c);
  }

  /** A two-field clock string of digits reads as its minutes and seconds. */
  lemma ReadClock2(a: string, b: string)
    requires AllDigits(a) && AllDigits(b)
    ensures Split(a + ":" + b, ':') == [a, b]
    ensures ParseClock(a + ":" + b) == Some(ParseDigits(a) * 60 + ParseDigits(b))
  {
    DigitsHaveNoColon(a);
    DigitsHaveNoColon(b);
    SplitTwo(a, b);
    ReadTwoFields(a, b);
  }

  /** A three-field clock string of digits reads as its hours, minutes and seconds. */
  lemma ReadClock3(a: string, b: string, c: string)
    requires AllDigits(a) && AllDigits(b) && AllDigits(c)
    ensures Split(a + ":" + b + ":" + c, ':') == [a, b, c]
    ensures ParseClock(a + ":" + b + ":" + c) == Some(ParseDigits(a) * 3600 + ParseDigits(b) * 60 + ParseDigits(c))
  {
    DigitsHaveNoColon(a);
    DigitsHaveNoColon(b);
    DigitsHaveNoColon(c);
    SplitThree(a, b, c);
    ReadThreeFields(a, b, c);
  }

  /** "mm:ss" of two-digit fields reads back as its seconds. */
  lemma ShortClockReadsBack(mm: string, ss: string, m: nat, s: nat)
    requires m < 60 && s < 60 && mm == Pad2(m) && ss == Pad2(s)
    ensures Split(mm + ":" + ss, ':') == [mm, ss]
    ensures ParseClock(mm + ":" + ss) == Some(m * 60 + s)
  {
    Pad2RoundTrip(m);
    Pad2RoundTrip(s);
    ReadClock2(mm, ss);
  }

  /** "h:mm:ss" of an unpadded hour and two-digit fields reads back as its seconds. */
  lemma LongClockReadsBack(hh: string, mm: string, ss: string, h: nat, m: nat, s: nat)
    requires m < 60 && s < 60 && hh == Decimal(h) && mm == Pad2(m) && ss == Pad2(s)
    ensures Split(hh + ":" + mm + ":" + ss, ':') == [hh, mm, ss]
    ensures ParseClock(hh + ":" + mm + ":" + ss) == Some(h * 3600 + m * 60 + s)
  {
    Pad2RoundTrip(m);
    Pad2RoundTrip(s);
    DecimalRoundTrip(h);
    ReadClock3(hh, mm, ss);
  }

  /** The hour field is written exactly from one hour on, the minutes and seconds
      are padded to two characters, and for a non-negative duration the string
      reads back as its whole seconds. */
  lemma FormatTimeRoundTrip(seconds: real)
    requires seconds >= 0.0
    ensures |Split(FormatTime(seconds), ':')| == if seconds >= 3600.0 then 3 else 2
    ensures var parts := Split(FormatTime(seconds), ':');
      |parts[|parts| - 2]| == 2 && |parts[|parts| - 1]| == 2
    ensures ParseClock(FormatTime(seconds)) == Some(seconds.Floor)
  {
    FormatTimeFieldCount(seconds);
    FormatTimePadded(seconds);
    FormatTimeReadsBack(seconds);
  }

  /** formatTime writes the hour field exactly from one hour on. */
  lemma FormatTimeFieldCount(seconds: real)
    requires seconds >= 0.0
    ensures |Split(FormatTime(seconds), ':')| == if seconds >= 3600.0 then 3 else 2
  {
    var f := ClockFields(seconds);
    ClockTextFieldCount(f.0, f.1, f.2);
    ClockHourPositive(seconds);
  }

  /** formatTime of a non-negative duration reads back as its whole seconds. */
  lemma FormatTimeReadsBack(seconds: real)
    requires seconds >= 0.0
    ensures ParseClock(FormatTime(seconds)) == Some(seconds.Floor)
  {
    var h, m, s := FormatTimeFields(seconds);
    ClockTextReadsBackAs(FormatTime(seconds), seconds.Floor, h, m, s);
  }

  /** Any text equal to the template string of h, m, s reads back as their total. */
  lemma ClockTextReadsBackAs(text: string, total: int, h: nat, m: nat, s: nat)
    requires m < 60 && s < 60 && text == ClockText(h, m, s) && total == h * 3600 + m * 60 + s
    ensures ParseClock(text) == Some(total)
  {
    ClockTextReadsBack(h, m, s);
    assert ParseClock(text) == ParseClock(ClockText(h, m, s));
  }

  /** The fields formatTime writes, as whole numbers that add back up to the
      whole seconds. */
  lemma FormatTimeFields(seconds: real) returns (h: nat, m: nat, s: nat)
    requires seconds >= 0.0
    ensures m < 60 && s < 60 && h * 3600 + m * 60 + s == seconds.Floor
    ensures FormatTime(seconds) == ClockText(h, m, s)
  {
    var f := ClockFields(seconds);
    h, m, s := f.0, f.1, f.2;
  }

  /** The hour of a non-negative duration is positive exactly from one hour on. */
  lemma ClockHourPositive(seconds: real)
    requires seconds >= 0.0
    ensures ClockFields(seconds).0 > 0 <==> seconds >= 3600.0
  {
  }

  /** For a non-negative duration the minute and second fields are padded to two
      characters (padStart(2, "0")). */
  lemma FormatTimePadded(seconds: real)
    requires seconds >= 0.0
    ensures var parts := Split(FormatTime(seconds), ':');
      |parts| >= 2 && |parts[|parts| - 2]| == 2 && |parts[|parts| - 1]| == 2
  {
    var (h, m, s) := ClockFields(seconds);
    var parts := Split(FormatTime(seconds), ':');
    assert parts == Split(ClockText(h, m, s), ':');
    ClockTextPadded(h, m, s);
    if h > 0 {
      assert parts == [Decimal(h), Pad2(m), Pad2(s)];
    } else {
      assert parts == [Pad2(m), Pad2(s)];
    }
  }

  /** The template string has three fields when the hour is positive and two
      otherwise. */
  lemma ClockTextFieldCount(h: nat, m: nat, s: nat)
    requires m < 60 && s < 60
    ensures |Split(ClockText(h, m, s), ':')| == if h > 0 then 3 else 2
  {
    var mm, ss := Pad2(m), Pad2(s);
    if h > 0 {
      ClockTextLong(h, m, s);
      LongClockReadsBack(Decimal(h), mm, ss, h, m, s);
    } else {
      ClockTextShort(m, s);
      ShortClockReadsBack(mm, ss, m, s);
    }
  }

  /** The clock text of fields in range has an hour field exactly when the hour is
      positive, and reads back as the fields' seconds. */
  lemma ClockTextReadsBack(h: nat, m: nat, s: nat)
    requires m < 60 && s < 60
    ensures ParseClock(ClockText(h, m, s)) == Some(h * 3600 + m * 60 + s)
  {
    var mm, ss := Pad2(m), Pad2(s);
    if h > 0 {
      ClockTextLong(h, m, s);
      LongClockReadsBack(Decimal(h), mm, ss, h, m, s);
    } else {
      ClockTextShort(m, s);
      ShortClockReadsBack(mm, ss, m, s);
    }
  }

  /** The fields of the clock text: the unpadded hour when it is positive, then the
      minutes and seconds as two digits each. */
  lemma ClockTextPadded(h: nat, m: nat, s: nat)
    requires m < 60 && s < 60
    ensures h > 0 ==> Split(ClockText(h, m, s), ':') == [Decimal(h), Pad2(m), Pad2(s)]
    ensures h == 0 ==> Split(ClockText(h, m, s), ':') == [Pad2(m), Pad2(s)]
  {
    var mm, ss := Pad2(m), Pad2(s);
    DigitsHaveNoColon(mm);
    DigitsHaveNoColon(ss);
    if h > 0 {
      ClockTextLong(h, m, s);
      DigitsHaveNoColon(Decimal(h));
      SplitThree(Decimal(h), mm, ss);
    } else {
      ClockTextShort(m, s);
      SplitTwo(mm, ss);
    }
  }

  /** From one hour on the clock text is the hour, then two-digit minutes and seconds. */
  lemma ClockTextLong(h: nat, m: nat, s: nat)
    requires h > 0 && m < 60 && s < 60
    ensures ClockText(h, m, s) == Decimal(h) + ":" + Pad2(m) + ":" + Pad2(s)
  {
    PadStartIsPad2(m);
    PadStartIsPad2(s);
  }

  /** Below one hour the clock text is two-digit minutes and seconds. */
  lemma ClockTextShort(m: nat, s: nat)
    requires m < 60 && s < 60
    ensures ClockText(0, m, s) == Pad2(m) + ":" + Pad2(s)
  {
    PadStartIsPad2(m);
    PadStartIsPad2(s);
  }

  /** For a non-negative pace the string has two fields and reads back as the
      pace's whole seconds. */
  lemma FormatPaceRoundTrip(secondsPerKm: real)
    requires secondsPerKm >= 0.0
    ensures |Split(FormatPace(secondsPerKm), ':')| == 2
    ensures |Split(FormatPace(secondsPerKm), ':')[1]| == 2
    ensures ParseClock(FormatPace(secondsPerKm)) == Some(secondsPerKm.Floor)
  {
    var (m, s) := PaceFields(secondsPerKm);
    var mm, ss := IntToString(m), PadStart2(IntToString(s));
    PadStartIsPad2(s);
    assert FormatPace(secondsPerKm) == mm + ":" + ss;
    PaceTextReadsBack(mm, ss, m, s);
  }

  /** "m:ss" of unpadded minutes and two-digit seconds reads back as its seconds. */
  lemma PaceTextReadsBack(mm: string, ss: string, m: nat, s: nat)
    requires s < 60 && mm == Decimal(m) && ss == Pad2(s)
    ensures Split(mm + ":" + ss, ':') == [mm, ss]
    ensures ParseClock(mm + ":" + ss) == Some(m * 60 + s)
  {
    DecimalRoundTrip(m);
    Pad2RoundTrip(s);
    ReadClock2(mm, ss);
  }

  /** The offset toKST adds: nine hours in milliseconds. */
  const KstOffsetMs: int := 9 * 60 * 60 * 1000

  /** The second of the UTC day an instant falls in. JavaScript's Date splits a
      time value into days by flooring, so instants before 1970 count back from
      the next midnight. */
  function TimeOfDay(ms: int): (sec: int)
    ensures 0 <= sec < 86400
  {
    (ms / 1000) % 86400
  }

  /** toKST: the instant nine hours later, whose UTC clock reads nine hours later,
      modulo a day. */
  function ToKst(ms: int): (r: int)
    ensures r - ms == KstOffsetMs
    ensures TimeOfDay(r) == (TimeOfDay(ms) + 9 * 3600) % 86400
  {
    var r := ms + KstOffsetMs;
    assert r / 1000 == ms / 1000 + 9 * 3600;
    r
  }

  /** The first and last instants whose ISO 8601 string has a four-digit year
      (0000-01-01T00:00:00.000Z and 9999-12-31T23:59:59.999Z). */
  const MinIsoMs: int := -62167219200000
  const MaxIsoMs: int := 253402300799999

  /** A second of the day splits into hours below 24, minutes and seconds below 60. */
  lemma SplitDaySecond(sec: int)
    requires 0 <= sec < 86400
    ensures 0 <= sec / 3600 < 24 && 0 <= sec % 3600 / 60 < 60 && 0 <= sec % 60 < 60
    ensures (sec / 3600) * 3600 + (sec % 3600 / 60) * 60 + sec % 60 == sec
  {
  }

  /** A clock reading of a day: three two-digit fields, an hour below 24 and a
      minute and a second below 60. */
  predicate DayClock(r: string)
  {
    var parts := Split(r, ':');
    && |parts| == 3
    && |parts[0]| == 2 && |parts[1]| == 2 && |parts[2]| == 2
    && AllDigits(parts[0]) && AllDigits(parts[1]) && AllDigits(parts[2])
    && ParseDigits(parts[0]) < 24 && ParseDigits(parts[1]) < 60 && ParseDigits(parts[2]) < 60
  }

  /** The "HH:MM:SS" string of two-digit fields splits into those fields and reads
      back as their seconds. */
  lemma ClockOfFields(h: nat, m: nat, s: nat)
    requires h < 100 && m < 100 && s < 100
    ensures var r := Pad2(h) + ":" + Pad2(m) + ":" + Pad2(s);
      |r| == 8 && r[2] == ':' && r[5] == ':' && ParseClock(r) == Some(h * 3600 + m * 60 + s)
    ensures Split(Pad2(h) + ":" + Pad2(m) + ":" + Pad2(s), ':') == [Pad2(h), Pad2(m), Pad2(s)]
    ensures ParseDigits(Pad2(h)) == h && ParseDigits(Pad2(m)) == m && ParseDigits(Pad2(s)) == s
  {
    Pad2RoundTrip(h);
    Pad2RoundTrip(m);
    Pad2RoundTrip(s);
    ReadClock3(Pad2(h), Pad2(m), Pad2(s));
  }

  /** formatTimeFromSeconds: characters 11 to 18 of the ISO string of the instant
      totalSeconds after the epoch (new Date truncates the milliseconds to an
      integer), which is its "HH:MM:SS" time of day: the hour wraps modulo 24. */
  function FormatTimeFromSeconds(totalSeconds: real): (r: string)
    requires MinIsoMs <= Trunc(totalSeconds * 1000.0) <= MaxIsoMs
    ensures |r| == 8 && r[2] == ':' && r[5] == ':'
    ensures DayClock(r)
    ensures ParseClock(r) == Some(TimeOfDay(Trunc(totalSeconds * 1000.0)))
  {
    var sec := TimeOfDay(Trunc(totalSeconds * 1000.0));
    var h, m, s := sec / 3600, sec % 3600 / 60, sec % 60;
    SplitDaySecond(sec);
    ClockOfFields(h, m, s);
    DayClockOfFields(h, m, s);
    Pad2(h) + ":" + Pad2(m) + ":" + Pad2(s)
  }

  /** Two-digit fields of an hour below 24 and a minute and second below 60 make a
      clock reading of a day. */
  lemma DayClockOfFields(h: nat, m: nat, s: nat)
    requires h < 24 && m < 60 && s < 60
    ensures DayClock(Pad2(h) + ":" + Pad2(m) + ":" + Pad2(s))
  {
    var parts := Split(Pad2(h) + ":" + Pad2(m) + ":" + Pad2(s), ':');
    ClockOfFields(h, m, s);
    assert parts[0] == Pad2(h) && parts[1] == Pad2(m) && parts[2] == Pad2(s);
  }

  /** The hours wrap modulo 24: a non-negative duration one day longer gives the
      same string. */
  lemma FormatTimeFromSecondsWraps(totalSeconds: real)
    requires 0.0 <= totalSeconds
    requires Trunc((totalSeconds + 86400.0) * 1000.0) <= MaxIsoMs
    ensures Trunc(totalSeconds * 1000.0) <= MaxIsoMs
    ensures FormatTimeFromSeconds(totalSeconds + 86400.0) == FormatTimeFromSeconds(totalSeconds)
  {
    var ms := Trunc(totalSeconds * 1000.0);
    assert (totalSeconds + 86400.0) * 1000.0 == totalSeconds * 1000.0 + 86400000.0;
    assert Trunc((totalSeconds + 86400.0) * 1000.0) == ms + 86400000;
    NextDaySameTime(ms);
  }

  /** An instant one day later has the same time of day. */
  lemma NextDaySameTime(ms: int)
    ensures TimeOfDay(ms + 86400000) == TimeOfDay(ms)
  {
    assert (ms + 86400000) / 1000 == ms / 1000 + 86400;
  }

  /** A duration under a day comes out as its own whole seconds. */
  lemma FormatTimeFromSecondsOfDuration(totalSeconds: real)
    requires 0.0 <= totalSeconds < 86400.0
    ensures Trunc(totalSeconds * 1000.0) <= MaxIsoMs
    ensures ParseClock(FormatTimeFromSeconds(totalSeconds)) == Some(totalSeconds.Floor)
  {
    var ms := Trunc(totalSeconds * 1000.0);
    assert ms / 1000 == totalSeconds.Floor;
    assert TimeOfDay(ms) == totalSeconds.Floor;
  }

  /** ASCII lower-casing of one character. */
  function LowerChar(c: char): char
  {
    if 'A' <= c <= 'Z' then (c as int + 32) as char else c
  }

  /** validateTCXFile: the lower-cased name ends in ".tcx", so the extension is
      accepted in any mix of cases. */
  function ValidateTcxFile(name: string): (ok: bool)
    ensures ok <==> |name| >= 4 && TcxSuffix(name[|name| - 4..])
  {
    var lower := ToLowerAscii(name);
    assert EndsWith(lower, ".tcx") <==> |name| >= 4 && TcxSuffix(name[|name| - 4..]) by {
      if |name| >= 4 {
        LowerSuffix(name);
      }
    }
    EndsWith(lower, ".tcx")
  }

  /** Four characters spelling ".tcx" in any mix of cases. */
  predicate TcxSuffix(s: string)
  {
    && |s| == 4 && s[0] == '.'
    && (s[1] == 't' || s[1] == 'T')
    && (s[2] == 'c' || s[2] == 'C')
    && (s[3] == 'x' || s[3] == 'X')
  }

  /** Only the letter itself and its capital lower-case to a lower-case letter. */
  lemma LowerCharIs(c: char, lo: char)
    requires 'a' <= lo <= 'z'
    ensures LowerChar(c) == lo <==> c == lo || c as int == lo as int - 32
  {
  }

  /** Only a dot lower-cases to a dot. */
  lemma LowerCharDot(c: char)
    ensures LowerChar(c) == '.' <==> c == '.'
  {
  }

  /** A string of four characters is the one spelled by those four characters. */
  lemma FourChars(s: string, a: char, b: char, c: char, d: char)
    requires |s| == 4
    ensures s == [a, b, c, d] <==> s[0] == a && s[1] == b && s[2] == c && s[3] == d
  {
    if s[0] == a && s[1] == b && s[2] == c && s[3] == d {
      assert s == [s[0], s[1], s[2], s[3]];
    }
  }

  /** One character of a lower-cased string. */
  function LowerAt(s: string, i: nat): (c: char)
    requires i < |s|
    ensures c == ToLowerAscii(s)[i] == LowerChar(s[i])
  {
    ToLowerAscii(s)[i]
  }

  /** The last four characters lower-case to ".tcx" exactly when they spell it in
      any mix of cases. */
  lemma LowerSuffix(name: string)
    requires |name| >= 4
    ensures EndsWith(ToLowerAscii(name), ".tcx") <==> TcxSuffix(name[|name| - 4..])
  {
    var n := |name|;
    var tail := ToLowerAscii(name)[n - 4..];
    var suf := name[n - 4..];
    assert tail[0] == LowerChar(suf[0]) by { var _ := LowerAt(name, n - 4); }
    assert tail[1] == LowerChar(suf[1]) by { var _ := LowerAt(name, n - 3); }
    assert tail[2] == LowerChar(suf[2]) by { var _ := LowerAt(name, n - 2); }
    assert tail[3] == LowerChar(suf[3]) by { var _ := LowerAt(name, n - 1); }
    FourChars(tail, '.', 't', 'c', 'x');
    assert ".tcx" == ['.', 't', 'c', 'x'];
    LowerCharDot(suf[0]);
    LowerCharIs(suf[1], 't');
    LowerCharIs(suf[2], 'c');
    LowerCharIs(suf[3], 'x');
  }

  /** Math.round: the nearest integer, halves rounded up. */
  function JsRound(x: real): (n: int)
    ensures x - 0.5 < n as real <= x + 0.5
  {
    (x + 0.5).Floor
  }

  /** The average and maximum heart rate and cadence cells: "-" when the value is
      missing or zero (both falsy), the rounded value otherwise. */
  function DisplayRounded(v: Option<real>): (r: string)
    ensures r == "-" <==> v.None? || v.value == 0.0
    ensures v.Some? && v.value != 0.0 ==> r == IntToString(JsRound(v.value))
  {
    if v.None? || v.value == 0.0 then "-" else IntToString(JsRound(v.value))
  }
}
