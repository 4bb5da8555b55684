/** frontend/src/pages/ActivityDetail.jsx: the lap table of one activity. Each lap
    becomes a row of display cells; the time and pace cells use the same clock
    formatting as the shared helpers, and a heart-rate or cadence value that is
    missing or zero shows as "-". */
module ActivityDetail {
  import opened Common
  import opened Text
  import opened Format
  import opened Store
  import TcxParser

  /** The cells of one row of the lap table (the distance cell, a toFixed(2)
      rendering, is not part of this model). */
  datatype LapCells = LapCells(
    lapNumber: int,
    time: string,
    pace: string,
    avgHr: string,
    maxHr: string,
    cadence: string)

  /** The row rendered for one lap: its number, the time and pace formatted as
      clocks, and "-" for a heart rate or cadence that is missing or zero. */
  function CellsOf(lap: Lap): (c: LapCells)
    ensures c.lapNumber == lap.lapNumber
    ensures c.avgHr == "-" <==> lap.avgHr.None? || lap.avgHr.value == 0.0
    ensures c.maxHr == "-" <==> lap.maxHr.None? || lap.maxHr.value == 0.0
    ensures c.cadence == "-" <==> lap.avgCadence.None? || lap.avgCadence.value == 0.0
  {
    LapCells(lap.lapNumber, FormatTime(lap.time), FormatPace(lap.pace),
             DisplayRounded(lap.avgHr), DisplayRounded(lap.maxHr), DisplayRounded(lap.avgCadence))
  }

  /** The time and pace cells of a lap with non-negative values read back as their
      whole seconds. */
  lemma CellsReadBack(lap: Lap)
    requires lap.time >= 0.0 && lap.pace >= 0.0
    ensures ParseClock(CellsOf(lap).time) == Some(lap.time.Floor)
    ensures ParseClock(CellsOf(lap).pace) == Some(lap.pace.Floor)
  {
    FormatTimeRoundTrip(lap.time);
    FormatPaceRoundTrip(lap.pace);
  }

  /** `activity.laps.map(...)`: one row per lap, in the order the laps arrive. */
  function LapTable(laps: seq<Lap>): (rows: seq<LapCells>)
    ensures |rows| == |laps|
    ensures forall i :: 0 <= i < |laps| ==> rows[i] == CellsOf(laps[i])
  {
    seq(|laps|, i requires 0 <= i < |laps| => CellsOf(laps[i]))
  }

  /** The laps parse_tcx reads from an activity's raw laps, once stored, show the
      numbers 1..n down the table, one row per raw lap. */
  lemma LapNumbersDownTheTable(actId: int, firstId: int, laps: seq<TcxParser.ParsedLap>, raw: seq<TcxParser.RawLap>)
    requires TcxParser.LapsRecorded(laps, raw)
    ensures var rows := LapTable(LapRowsFor(actId, firstId, laps));
      |rows| == |raw| && forall j :: 0 <= j < |rows| ==> rows[j].lapNumber == j + 1
  {
  }
}
