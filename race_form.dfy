/** frontend-ts/components/race/RaceForm.tsx: the form's fields are set up from the
    race being edited (the target time split into hours, minutes and seconds, the
    custom distance shown in km), edited field by field, and recombined into the
    payload on submit. */
module RaceForm {
  import opened Common
  import opened Text
  import opened Format
  import opened Store

  /** The optional fields of the race the form starts from (`initialData`). */
  datatype InitialRace = InitialRace(
    raceName: Option<string>,
    raceDate: string,
    location: Option<string>,
    distanceType: Option<DistanceType>,
    distanceCustom: Option<real>,
    targetTime: Option<int>)

  /** The custom-distance field: empty, or a number of kilometres. */
  datatype KmField = Blank | Km(km: real)

  /** What handleSubmit passes on. */
  datatype RaceFormData = RaceFormData(
    raceName: string,
    raceDate: string,
    location: string,
    distanceType: DistanceType,
    distanceCustom: Option<real>,
    targetTime: Option<int>)

  /** The longest prefix of s made of digits. */
  function LeadingDigits(s: string): (d: string)
    ensures AllDigits(d) && |d| <= |s| && d == s[..|d|]
    ensures |d| < |s| ==> !IsDigit(s[|d|])
  {
    if s == [] || !IsDigit(s[0]) then [] else [s[0]] + LeadingDigits(s[1..])
  }

  /** `parseInt(s) || 0`: an optional sign and the digits after it, up to the first
      other character; 0 when there are no digits (parseInt's NaN is falsy). */
  function ParseIntOrZero(s: string): (n: int)
  {
    var unsigned := if |s| > 0 && (s[0] == '-' || s[0] == '+') then s[1..] else s;
    var digits := LeadingDigits(unsigned);
    if digits == [] then 0
    else if s[0] == '-' then -(ParseDigits(digits) as int)
    else ParseDigits(digits)
  }

  /** A string of digits is its own leading digits. */
  lemma {:induction false} LeadingDigitsOfDigits(s: string)
    requires AllDigits(s)
    ensures LeadingDigits(s) == s
  {
    if s != [] {
      LeadingDigitsOfDigits(s[1..]);
    }
  }

  /** The digits before a non-digit are the leading digits. */
  lemma {:induction false} LeadingDigitsStop(d: string, rest: string)
    requires AllDigits(d)
    requires rest != [] && !IsDigit(rest[0])
    ensures LeadingDigits(d + rest) == d
  {
    if d == [] {
      assert d + rest == rest;
    } else {
      assert (d + rest)[1..] == d[1..] + rest;
      LeadingDigitsStop(d[1..], rest);
    }
  }

  /** parseInt reads back what String() wrote for any integer. */
  lemma ParseIntOfString(n: int)
    ensures ParseIntOrZero(IntToString(n)) == n
  {
    var k := if n < 0 then -n else n;
    LeadingDigitsOfDigits(Decimal(k));
    DecimalRoundTrip(k);
    if n < 0 {
      assert IntToString(n)[1..] == Decimal(k);
      assert IntToString(n)[0] == '-';
    } else {
      assert IsDigit(Decimal(k)[0]);
    }
  }

  /** A number input holding a decimal fraction contributes its whole part. */
  lemma ParseIntStopsAtPoint(n: nat, fraction: string)
    ensures ParseIntOrZero(Decimal(n) + "." + fraction) == n
  {
    var s := Decimal(n) + "." + fraction;
    assert s == Decimal(n) + ("." + fraction);
    LeadingDigitsStop(Decimal(n), "." + fraction);
    DecimalRoundTrip(n);
    assert IsDigit(Decimal(n)[0]);
    assert s[0] == Decimal(n)[0];
  }

  /** The target time handleSubmit sends: h·3600 + m·60 + s, or null unless that
      total is positive. Three blank fields send null; what written fields send is
      CombineWrittenFields. */
  function CombineTargetTime(targetH: string, targetM: string, targetS: string): (t: Option<int>)
    ensures t.Some? ==> t.value > 0
    ensures targetH == "" && targetM == "" && targetS == "" ==> t == None
    ensures targetH == "" && targetM == "" && ParseIntOrZero(targetS) > 0 ==> t == Some(ParseIntOrZero(targetS))
  {
    var total := ParseIntOrZero(targetH) * 3600 + ParseIntOrZero(targetM) * 60 + ParseIntOrZero(targetS);
    if total > 0 then Some(total) else None
  }

  /** The initial hour, minute and second fields: blank unless the target time is
      truthy (present and not 0), otherwise the three fields of formatTime. */
  function SplitTargetTime(targetTime: Option<int>): (fields: (string, string, string))
    ensures targetTime.None? || targetTime.value == 0 ==> fields == ("", "", "")
  {
    if targetTime.None? || targetTime.value == 0 then ("", "", "")
    else
      var (h, m, s) := ClockFields(targetTime.value as real);
      (IntToString(h), IntToString(m), IntToString(s))
  }

  /** Fields written with String() recombine to the total they stand for. */
  lemma CombineWrittenFields(h: int, m: int, s: int)
    ensures var total := h * 3600 + m * 60 + s;
      CombineTargetTime(IntToString(h), IntToString(m), IntToString(s)) == if total > 0 then Some(total) else None
  {
    ParseIntOfString(h);
    ParseIntOfString(m);
    ParseIntOfString(s);
  }

  /** Submitting an untouched target time gives it back when it is positive, and
      null otherwise (absent, 0, or negative). */
  lemma TargetTimeRoundTrip(targetTime: Option<int>)
    ensures var (h, m, s) := SplitTargetTime(targetTime);
      CombineTargetTime(h, m, s) == if targetTime.Some? && targetTime.value > 0 then targetTime else None
  {
    if targetTime.Some? && targetTime.value != 0 {
      var t := targetTime.value;
      var f := ClockFields(t as real);
      CombineWrittenFields(f.0, f.1, f.2);
      assert (t as real).Floor == t;
      var total := f.0 * 3600 + f.1 * 60 + f.2;
      assert t > 0 ==> total == t;
      assert t < 0 ==> total < 0;
    }
  }

  /** The initial custom-distance field: the stored metres in km when truthy. */
  function InitialKm(distanceCustom: Option<real>): (f: KmField)
    ensures f.Km? <==> distanceCustom.Some? && distanceCustom.value != 0.0
    ensures f.Km? ==> f.km * 1000.0 == distanceCustom.value
  {
    if distanceCustom.Some? && distanceCustom.value != 0.0 then Km(distanceCustom.value / 1000.0) else Blank
  }

  /** The distance_custom handleSubmit sends: the km field in metres for a custom
      race, null for any other distance type. An empty field parses to NaN, which
      the JSON body carries as null. */
  function SubmittedDistance(distanceType: DistanceType, field: KmField): (d: Option<real>)
    ensures distanceType != Custom ==> d == None
    ensures distanceType == Custom && field.Km? ==> d == Some(field.km * 1000.0)
    ensures field.Blank? ==> d == None
  {
    if distanceType == Custom && field.Km? then Some(field.km * 1000.0) else None
  }

  /** An untouched custom distance is sent back as it was stored (a stored 0 comes
      back as null); a non-custom race sends null whatever was stored. */
  lemma CustomDistanceRoundTrip(distanceType: DistanceType, distanceCustom: Option<real>)
    ensures SubmittedDistance(distanceType, InitialKm(distanceCustom)) ==
      if distanceType == Custom && distanceCustom.Some? && distanceCustom.value != 0.0 then distanceCustom else None
  {
  }

  /** The form's state: one field per input. */
  class RaceFormState {
    var raceName: string
    var raceDate: string
    var location: string
    var distanceType: DistanceType
    var distanceCustomKm: KmField
    var targetH: string
    var targetM: string
    var targetS: string

    /** The initial state: missing text fields are empty, a missing distance type
        is the half marathon, and the distance and target time are split for
        editing. The date field holds the stored date already converted for the
        date input; that conversion is not part of this model. */
    constructor (initial: InitialRace)
      ensures raceName == (if initial.raceName.Some? then initial.raceName.value else "")
      ensures raceDate == initial.raceDate
      ensures location == (if initial.location.Some? then initial.location.value else "")
      ensures distanceType == (if initial.distanceType.Some? then initial.distanceType.value else Half)
      ensures distanceCustomKm == InitialKm(initial.distanceCustom)
      ensures (targetH, targetM, targetS) == SplitTargetTime(initial.targetTime)
    {
      raceName := if initial.raceName.Some? then initial.raceName.value else "";
      raceDate := initial.raceDate;
      location := if initial.location.Some? then initial.location.value else "";
      distanceType := if initial.distanceType.Some? then initial.distanceType.value else Half;
      distanceCustomKm := InitialKm(initial.distanceCustom);
      var fields := SplitTargetTime(initial.targetTime);
      targetH, targetM, targetS := fields.0, fields.1, fields.2;
    }

    /** The race name input. */
    method SetRaceName(v: string)
      modifies this
      ensures raceName == v
      ensures raceDate == old(raceDate) && location == old(location)
      ensures distanceType == old(distanceType) && distanceCustomKm == old(distanceCustomKm)
      ensures targetH == old(targetH) && targetM == old(targetM) && targetS == old(targetS)
    {
      raceName := v;
    }

    /** The race date input. */
    method SetRaceDate(v: string)
      modifies this
      ensures raceDate == v
      ensures raceName == old(raceName) && location == old(location)
      ensures distanceType == old(distanceType) && distanceCustomKm == old(distanceCustomKm)
      ensures targetH == old(targetH) && targetM == old(targetM) && targetS == old(targetS)
    {
      raceDate := v;
    }

    /** The location input. */
    method SetLocation(v: string)
      modifies this
      ensures location == v
      ensures raceName == old(raceName) && raceDate == old(raceDate)
      ensures distanceType == old(distanceType) && distanceCustomKm == old(distanceCustomKm)
      ensures targetH == old(targetH) && targetM == old(targetM) && targetS == old(targetS)
    {
      location := v;
    }

    /** The distance select. */
    method SetDistanceType(t: DistanceType)
      modifies this
      ensures distanceType == t
      ensures raceName == old(raceName) && raceDate == old(raceDate) && location == old(location)
      ensures distanceCustomKm == old(distanceCustomKm)
      ensures targetH == old(targetH) && targetM == old(targetM) && targetS == old(targetS)
    {
      distanceType := t;
    }

    /** The custom distance input. */
    method SetDistanceCustomKm(f: KmField)
      modifies this
      ensures distanceCustomKm == f
      ensures raceName == old(raceName) && raceDate == old(raceDate) && location == old(location)
      ensures distanceType == old(distanceType)
      ensures targetH == old(targetH) && targetM == old(targetM) && targetS == old(targetS)
    {
      distanceCustomKm := f;
    }

    /** The hours input of the target time. */
    method SetTargetH(v: string)
      modifies this
      ensures targetH == v
      ensures raceName == old(raceName) && raceDate == old(raceDate) && location == old(location)
      ensures distanceType == old(distanceType) && distanceCustomKm == old(distanceCustomKm)
      ensures targetM == old(targetM) && targetS == old(targetS)
    {
      targetH := v;
    }

    /** The minutes input of the target time. */
    method SetTargetM(v: string)
      modifies this
      ensures targetM == v
      ensures raceName == old(raceName) && raceDate == old(raceDate) && location == old(location)
      ensures distanceType == old(distanceType) && distanceCustomKm == old(distanceCustomKm)
      ensures targetH == old(targetH) && targetS == old(targetS)
    {
      targetM := v;
    }

    /** The seconds input of the target time. */
    method SetTargetS(v: string)
      modifies this
      ensures targetS == v
      ensures raceName == old(raceName) && raceDate == old(raceDate) && location == old(location)
      ensures distanceType == old(distanceType) && distanceCustomKm == old(distanceCustomKm)
      ensures targetH == old(targetH) && targetM == old(targetM)
    {
      targetS := v;
    }

    /** handleSubmit: the text fields as typed, the custom distance in metres for a
        custom race only, and the recombined target time, null unless positive. */
    method Submit() returns (data: RaceFormData)
      ensures data.raceName == raceName && data.raceDate == raceDate && data.location == location
      ensures data.distanceType == distanceType
      ensures data.distanceCustom == SubmittedDistance(distanceType, distanceCustomKm)
      ensures data.targetTime == CombineTargetTime(targetH, targetM, targetS)
      ensures data.distanceCustom.Some? ==> distanceType == Custom
      ensures data.targetTime.Some? ==> data.targetTime.value > 0
    {
      var h := ParseIntOrZero(targetH);
      var m := ParseIntOrZero(targetM);
      var s := ParseIntOrZero(targetS);
      var total := h * 3600 + m * 60 + s;
      var custom := if distanceType == Custom && distanceCustomKm.Km? then Some(distanceCustomKm.km * 1000.0) else None;
      data := RaceFormData(raceName, raceDate, location, distanceType, custom, if total > 0 then Some(total) else None);
    }
  }
}
