/** The aggregation half of backend/tcx_parser.py: once each <Activity> element has
    been read into a RawActivity (the text of its <Id> element, the instant that
    text denotes, and one RawLap per <Lap> element in document order), parse_tcx
    numbers the laps, derives their paces, totals time and distance, and averages
    heart rate and cadence over the laps that report them. */
module TcxParser {
  import opened Common
  import opened Calendar

  /** The values read from one <Lap>: TotalTimeSeconds, DistanceMeters, the
      optional AverageHeartRateBpm and MaximumHeartRateBpm values, the optional
      standard <Cadence> and the optional extension <AvgRunCadence>. */
  datatype RawLap = RawLap(
    time: real,
    distance: real,
    avgHr: Option<real>,
    maxHr: Option<real>,
    cadence: Option<real>,
    extCadence: Option<real>)

  /** One <Activity>: idText is "" when the <Id> element is missing or empty. */
  datatype RawActivity = RawActivity(idText: string, startTime: DateTime, laps: seq<RawLap>)

  /** One entry of an activity's "laps" list. */
  datatype ParsedLap = ParsedLap(
    lapNumber: int,
    time: real,
    distance: real,
    pace: real,
    avgHr: Option<real>,
    maxHr: Option<real>,
    avgCadence: Option<real>)

  /** One entry of parse_tcx's result list. */
  datatype ParsedActivity = ParsedActivity(
    startTime: DateTime,
    totalTime: real,
    totalDistance: real,
    avgPace: real,
    avgHr: Option<real>,
    avgCadence: Option<real>,
    laps: seq<ParsedLap>)

  /** Seconds per kilometre, or 0 when the distance is not positive. */
  function Pace(time: real, distance: real): (p: real)
    ensures distance > 0.0 ==> p * distance == time * 1000.0
    ensures distance <= 0.0 ==> p == 0.0
  {
    if distance > 0.0 then time / (distance / 1000.0) else 0.0
  }

  function LapTimes(laps: seq<RawLap>): (r: seq<real>)
    ensures |r| == |laps|
  {
    seq(|laps|, i requires 0 <= i < |laps| => laps[i].time)
  }

  function LapDistances(laps: seq<RawLap>): (r: seq<real>)
    ensures |r| == |laps|
  {
    seq(|laps|, i requires 0 <= i < |laps| => laps[i].distance)
  }

  function LapHrs(laps: seq<ParsedLap>): (r: seq<Option<real>>)
    ensures |r| == |laps|
  {
    seq(|laps|, i requires 0 <= i < |laps| => laps[i].avgHr)
  }

  function LapCadences(laps: seq<ParsedLap>): (r: seq<Option<real>>)
    ensures |r| == |laps|
  {
    seq(|laps|, i requires 0 <= i < |laps| => laps[i].avgCadence)
  }

  /** p records the raw lap as lap number n: it copies time, distance and heart
      rates, derives its pace, and takes the standard cadence when there is one and
      the extension's AvgRunCadence only otherwise. */
  ghost predicate RecordsLap(p: ParsedLap, lap: RawLap, n: int)
  {
    && p.lapNumber == n
    && p.time == lap.time
    && p.distance == lap.distance
    && p.pace == Pace(lap.time, lap.distance)
    && p.avgHr == lap.avgHr
    && p.maxHr == lap.maxHr
    && p.avgCadence == (if lap.cadence.Some? then lap.cadence else lap.extCadence)
  }

  /** parsed records the raw laps in order, the i-th as lap number i + 1. */
  ghost predicate LapsRecorded(parsed: seq<ParsedLap>, laps: seq<RawLap>)
  {
    && |parsed| == |laps|
    && forall i :: 0 <= i < |laps| ==> RecordsLap(parsed[i], laps[i], i + 1)
  }

  /** p is what parse_tcx produces for the activity a. */
  ghost predicate IsSummaryOf(p: ParsedActivity, a: RawActivity)
  {
    && p.startTime == a.startTime
    && LapsRecorded(p.laps, a.laps)
    && p.totalTime == Sum(LapTimes(a.laps))
    && p.totalDistance == Sum(LapDistances(a.laps))
    && p.avgPace == Pace(p.totalTime, p.totalDistance)
    && p.avgHr == Mean(Present(LapHrs(p.laps)))
    && p.avgCadence == Mean(Present(LapCadences(p.laps)))
  }

  /** One more lap adds its time and its distance to the totals. */
  lemma LapTotalsStep(laps: seq<RawLap>, i: nat)
    requires i < |laps|
    ensures Sum(LapTimes(laps[..i + 1])) == Sum(LapTimes(laps[..i])) + laps[i].time
    ensures Sum(LapDistances(laps[..i + 1])) == Sum(LapDistances(laps[..i])) + laps[i].distance
  {
    assert LapTimes(laps[..i + 1]) == LapTimes(laps[..i]) + [laps[i].time];
    assert LapDistances(laps[..i + 1]) == LapDistances(laps[..i]) + [laps[i].distance];
  }

  /** The lap loop of parse_tcx: builds the lap records and accumulates the totals. */
  method ParseLaps(laps: seq<RawLap>) returns (parsed: seq<ParsedLap>, totalTime: real, totalDistance: real)
    ensures LapsRecorded(parsed, laps)
    ensures totalTime == Sum(LapTimes(laps))
    ensures totalDistance == Sum(LapDistances(laps))
  {
    parsed, totalTime, totalDistance := [], 0.0, 0.0;
    for i := 0 to |laps|
      invariant LapsRecorded(parsed, laps[..i])
      invariant totalTime == Sum(LapTimes(laps[..i]))
      invariant totalDistance == Sum(LapDistances(laps[..i]))
    {
      var lap := laps[i];
      var cadence := if lap.cadence.Some? then lap.cadence else lap.extCadence;
      var pace := Pace(lap.time, lap.distance);
      parsed := parsed + [ParsedLap(i + 1, lap.time, lap.distance, pace, lap.avgHr, lap.maxHr, cadence)];
      LapTotalsStep(laps, i);
      totalTime := totalTime + lap.time;
      totalDistance := totalDistance + lap.distance;
    }
    assert laps[..|laps|] == laps;
  }

  /** The body of parse_tcx's activity loop for an activity whose <Id> is present. */
  method SummarizeActivity(a: RawActivity) returns (p: ParsedActivity)
    ensures IsSummaryOf(p, a)
  {
    var laps, totalTime, totalDistance := ParseLaps(a.laps);
    var avgPace := if totalDistance > 0.0 then totalTime / (totalDistance / 1000.0) else 0.0;
    var hrs := Present(LapHrs(laps));
    var cadences := Present(LapCadences(laps));
    var avgHr := if hrs != [] then Some(Sum(hrs) / (|hrs| as real)) else None;
    var avgCadence := if cadences != [] then Some(Sum(cadences) / (|cadences| as real)) else None;
    p := ParsedActivity(a.startTime, totalTime, totalDistance, avgPace, avgHr, avgCadence, laps);
  }

  /** The activities parse_tcx keeps: those whose <Id> text is non-empty, in order. */
  function Kept(acts: seq<RawActivity>): (r: seq<RawActivity>)
    ensures |r| <= |acts|
    ensures forall i :: 0 <= i < |r| ==> r[i].idText != "" && r[i] in acts
  {
    if acts == [] then []
    else
      var init := Kept(acts[..|acts| - 1]);
      var last := acts[|acts| - 1];
      if last.idText == "" then init else init + [last]
  }

  /** parse_tcx: one summary per activity with an <Id>, in document order. */
  method ParseTcx(acts: seq<RawActivity>) returns (parsed: seq<ParsedActivity>)
    ensures |parsed| == |Kept(acts)| <= |acts|
    ensures forall i :: 0 <= i < |parsed| ==> IsSummaryOf(parsed[i], Kept(acts)[i])
  {
    parsed := [];
    for i := 0 to |acts|
      invariant |parsed| == |Kept(acts[..i])|
      invariant forall k :: 0 <= k < |parsed| ==> IsSummaryOf(parsed[k], Kept(acts[..i])[k])
    {
      assert acts[..i + 1][..i] == acts[..i];
      if acts[i].idText == "" {
        continue;
      }
      var p := SummarizeActivity(acts[i]);
      parsed := parsed + [p];
    }
    assert acts[..|acts|] == acts;
  }

  /** Keeping distributes over concatenation, so kept activities stay in document order. */
  lemma {:induction false} KeptAppend(xs: seq<RawActivity>, ys: seq<RawActivity>)
    ensures Kept(xs + ys) == Kept(xs) + Kept(ys)
    decreases |ys|
  {
    if ys != [] {
      var ys' := ys[..|ys| - 1];
      assert (xs + ys)[..|xs + ys| - 1] == xs + ys';
      KeptAppend(xs, ys');
    } else {
      assert xs + ys == xs;
    }
  }

  /** An activity is dropped exactly when its <Id> text is empty. */
  lemma {:induction false} KeptMembership(acts: seq<RawActivity>, a: RawActivity)
    ensures a in Kept(acts) <==> a in acts && a.idText != ""
  {
    if acts != [] {
      var init := acts[..|acts| - 1];
      KeptMembership(init, a);
      assert acts == init + [acts[|acts| - 1]];
    }
  }

  /** The activity's average heart rate is absent exactly when no lap reports one. */
  lemma AvgHrAbsentIffNoLapHr(p: ParsedActivity, a: RawActivity)
    requires IsSummaryOf(p, a)
    ensures p.avgHr.None? <==> forall i :: 0 <= i < |a.laps| ==> a.laps[i].avgHr.None?
  {
    PresentEmpty(LapHrs(p.laps));
    assert forall i :: 0 <= i < |a.laps| ==> LapHrs(p.laps)[i] == a.laps[i].avgHr;
  }

  /** The activity's average cadence is absent exactly when no lap reports either cadence. */
  lemma AvgCadenceAbsentIffNoLapCadence(p: ParsedActivity, a: RawActivity)
    requires IsSummaryOf(p, a)
    ensures p.avgCadence.None? <==>
            forall i :: 0 <= i < |a.laps| ==> a.laps[i].cadence.None? && a.laps[i].extCadence.None?
  {
    PresentEmpty(LapCadences(p.laps));
    assert forall i :: 0 <= i < |a.laps| ==> LapCadences(p.laps)[i] == p.laps[i].avgCadence;
  }

  /** The average heart rate lies within the range of the laps' average heart rates. */
  lemma AvgHrWithinLapRange(p: ParsedActivity, a: RawActivity, lo: real, hi: real)
    requires IsSummaryOf(p, a)
    requires forall i :: 0 <= i < |a.laps| && a.laps[i].avgHr.Some? ==> lo <= a.laps[i].avgHr.value <= hi
    ensures p.avgHr.Some? ==> lo <= p.avgHr.value <= hi
  {
    var hrs := Present(LapHrs(p.laps));
    if hrs != [] {
      forall k | 0 <= k < |hrs| ensures lo <= hrs[k] <= hi {
        PresentMembership(LapHrs(p.laps), hrs[k]);
        var i :| 0 <= i < |p.laps| && LapHrs(p.laps)[i] == Some(hrs[k]);
        assert a.laps[i].avgHr == Some(hrs[k]);
      }
      MeanBounds(hrs, lo, hi);
    }
  }

  /** With non-negative laps the totals are non-negative, and the average pace times
      the distance in kilometres gives back the total time. */
  lemma TotalsAndAvgPace(p: ParsedActivity, a: RawActivity)
    requires IsSummaryOf(p, a)
    requires forall i :: 0 <= i < |a.laps| ==> a.laps[i].time >= 0.0 && a.laps[i].distance >= 0.0
    ensures p.totalTime >= 0.0 && p.totalDistance >= 0.0
    ensures p.totalDistance > 0.0 ==> p.avgPace * (p.totalDistance / 1000.0) == p.totalTime
    ensures p.totalDistance == 0.0 ==> p.avgPace == 0.0
  {
    var ts, ds := LapTimes(a.laps), LapDistances(a.laps);
    NonNegativeSum(ts);
    NonNegativeSum(ds);
  }

  /** A sum of non-negative values is non-negative. */
  lemma {:induction false} NonNegativeSum(xs: seq<real>)
    requires forall i :: 0 <= i < |xs| ==> xs[i] >= 0.0
    ensures Sum(xs) >= 0.0
  {
    if xs != [] {
      var init := xs[..|xs| - 1];
      assert forall i :: 0 <= i < |init| ==> init[i] == xs[i];
      NonNegativeSum(init);
    }
  }
}
