/** The backend's tables (activities, laps, races, race images) as an in-memory
    store, the row shapes the routers read and write, and the errors the routers
    report. Row order is insertion order, which is the order the SQL queries
    without ORDER BY return. */
module Store {
  import opened Common
  import opened Calendar
  import opened TcxParser

  datatype Activity = Activity(
    id: int,
    userId: int,
    startTime: DateTime,
    totalDistance: real,
    totalTime: real,
    avgPace: real,
    avgHr: Option<real>,
    avgCadence: Option<real>)

  /** A lap row; activityId is None once its activity has been deleted. */
  datatype Lap = Lap(
    id: int,
    activityId: Option<int>,
    lapNumber: int,
    distance: real,
    time: real,
    pace: real,
    avgHr: Option<real>,
    maxHr: Option<real>,
    avgCadence: Option<real>)

  datatype DistanceType = Full | Half | TenKm | FiveKm | Custom

  /** The race states "예정" (upcoming), "완주" (finished), "DNS" and "DNF". */
  datatype RaceStatus = Upcoming | Finished | DidNotStart | DidNotFinish

  /** The stored value of each status. */
  function StatusName(s: RaceStatus): (name: string)
    ensures s == Upcoming <==> name == "예정"
  {
    match s
    case Upcoming => "예정"
    case Finished => "완주"
    case DidNotStart => "DNS"
    case DidNotFinish => "DNF"
  }

  datatype Race = Race(
    id: int,
    userId: int,
    raceName: string,
    raceDate: DateTime,
    location: Option<string>,
    distanceType: DistanceType,
    distanceCustom: Option<real>,
    targetTime: Option<int>,
    actualTime: Option<int>,
    status: RaceStatus,
    activityId: Option<int>,
    review: Option<string>)

  datatype RaceImage = RaceImage(id: int, raceId: int, filename: string, originalName: string, uploadedAt: DateTime)

  /** The HTTPExceptions the routers raise. */
  datatype ApiError =
    | ActivityNotFound
    | RaceNotFound
    | ImageNotFound
    | InvalidTcx
    | EmptyTcx
    | TooManyImages
    | UnsupportedImageType
    | ImageTooLarge

  function StatusCode(e: ApiError): int
  {
    match e
    case ActivityNotFound | RaceNotFound | ImageNotFound => 404
    case _ => 400
  }

  datatype Result<+T> = Ok(value: T) | Err(error: ApiError)

  /** The stored activity a carries the parsed activity's start, totals and
      averages unchanged. */
  predicate CopiesActivity(a: Activity, p: ParsedActivity)
  {
    && a.startTime == p.startTime
    && a.totalDistance == p.totalDistance && a.totalTime == p.totalTime
    && a.avgPace == p.avgPace && a.avgHr == p.avgHr && a.avgCadence == p.avgCadence
  }

  /** The stored lap row carries the parsed lap's number, distance, time, pace, heart
      rates and cadence unchanged. */
  predicate CopiesLap(row: Lap, lap: ParsedLap)
  {
    && row.lapNumber == lap.lapNumber
    && row.distance == lap.distance && row.time == lap.time && row.pace == lap.pace
    && row.avgHr == lap.avgHr && row.maxHr == lap.maxHr && row.avgCadence == lap.avgCadence
  }

  /** The row stored for a parsed activity. */
  function ActivityFrom(id: int, user: int, p: ParsedActivity): (a: Activity)
    ensures a.id == id && a.userId == user
    ensures CopiesActivity(a, p)
  {
    Activity(id, user, p.startTime, p.totalDistance, p.totalTime, p.avgPace, p.avgHr, p.avgCadence)
  }

  /** The lap rows stored for the parsed laps of activity actId, with ids from firstId on. */
  function LapRowsFor(actId: int, firstId: int, laps: seq<ParsedLap>): (rows: seq<Lap>)
    ensures |rows| == |laps|
    ensures forall j :: 0 <= j < |laps| ==>
      rows[j].activityId == Some(actId) && rows[j].id == firstId + j && CopiesLap(rows[j], laps[j])
  {
    seq(|laps|, j requires 0 <= j < |laps| =>
      Lap(firstId + j, Some(actId), laps[j].lapNumber, laps[j].distance, laps[j].time, laps[j].pace,
          laps[j].avgHr, laps[j].maxHr, laps[j].avgCadence))
  }

  /** Index of the first activity with this id owned by this user, as
      `query(Activity).filter(id == ..., user_id == ...).first()` finds it. */
  function FindActivity(rows: seq<Activity>, id: int, user: int): (r: Option<nat>)
    ensures r.Some? ==> r.value < |rows| && rows[r.value].id == id && rows[r.value].userId == user
    ensures r.Some? ==> forall k :: 0 <= k < r.value ==> !(rows[k].id == id && rows[k].userId == user)
    ensures r.None? ==> forall k :: 0 <= k < |rows| ==> !(rows[k].id == id && rows[k].userId == user)
  {
    if rows == [] then None
    else if rows[0].id == id && rows[0].userId == user then Some(0)
    else match FindActivity(rows[1..], id, user)
      case None => None
      case Some(k) => Some(k + 1)
  }

  /** Index of the first race with this id owned by this user. */
  function FindRace(rows: seq<Race>, id: int, user: int): (r: Option<nat>)
    ensures r.Some? ==> r.value < |rows| && rows[r.value].id == id && rows[r.value].userId == user
    ensures r.Some? ==> forall k :: 0 <= k < r.value ==> !(rows[k].id == id && rows[k].userId == user)
    ensures r.None? ==> forall k :: 0 <= k < |rows| ==> !(rows[k].id == id && rows[k].userId == user)
  {
    if rows == [] then None
    else if rows[0].id == id && rows[0].userId == user then Some(0)
    else match FindRace(rows[1..], id, user)
      case None => None
      case Some(k) => Some(k + 1)
  }

  /** Index of the first image with this id that belongs to this race. */
  function FindImage(rows: seq<RaceImage>, id: int, raceId: int): (r: Option<nat>)
    ensures r.Some? ==> r.value < |rows| && rows[r.value].id == id && rows[r.value].raceId == raceId
    ensures r.None? ==> forall k :: 0 <= k < |rows| ==> !(rows[k].id == id && rows[k].raceId == raceId)
  {
    if rows == [] then None
    else if rows[0].id == id && rows[0].raceId == raceId then Some(0)
    else match FindImage(rows[1..], id, raceId)
      case None => None
      case Some(k) => Some(k + 1)
  }

  /** s without its k-th element. */
  function RemoveAt<T>(s: seq<T>, k: nat): (r: seq<T>)
    requires k < |s|
    ensures |r| == |s| - 1
    ensures forall i :: 0 <= i < k ==> r[i] == s[i]
    ensures forall i :: k <= i < |r| ==> r[i] == s[i + 1]
  {
    s[..k] + s[k + 1..]
  }

  /** The activities owned by user, in table order. */
  function UserActivities(rows: seq<Activity>, user: int): (r: seq<Activity>)
    ensures |r| <= |rows|
    ensures forall a :: a in r <==> a in rows && a.userId == user
  {
    if rows == [] then []
    else
      var init := UserActivities(rows[..|rows| - 1], user);
      var last := rows[|rows| - 1];
      assert rows == rows[..|rows| - 1] + [last];
      if last.userId == user then init + [last] else init
  }

  /** Filtering by owner distributes over concatenation, so the owner's rows keep
      their table order. */
  lemma {:induction false} UserActivitiesAppend(xs: seq<Activity>, ys: seq<Activity>, user: int)
    ensures UserActivities(xs + ys, user) == UserActivities(xs, user) + UserActivities(ys, user)
    decreases |ys|
  {
    if ys == [] {
      assert xs + ys == xs;
    } else {
      var ys', last := ys[..|ys| - 1], ys[|ys| - 1];
      var zs := xs + ys;
      assert zs[..|zs| - 1] == xs + ys' && zs[|zs| - 1] == last;
      UserActivitiesAppend(xs, ys', user);
    }
  }

  /** The images of race raceId, in table order. */
  function ImagesOf(rows: seq<RaceImage>, raceId: int): (r: seq<RaceImage>)
    ensures |r| <= |rows|
    ensures forall m :: m in r <==> m in rows && m.raceId == raceId
  {
    if rows == [] then []
    else
      var init := ImagesOf(rows[..|rows| - 1], raceId);
      var last := rows[|rows| - 1];
      assert rows == rows[..|rows| - 1] + [last];
      if last.raceId == raceId then init + [last] else init
  }

  /** The images of every race except raceId, in table order. */
  function ImagesNotOf(rows: seq<RaceImage>, raceId: int): (r: seq<RaceImage>)
    ensures |r| <= |rows|
    ensures forall m :: m in r <==> m in rows && m.raceId != raceId
  {
    if rows == [] then []
    else
      var init := ImagesNotOf(rows[..|rows| - 1], raceId);
      var last := rows[|rows| - 1];
      assert rows == rows[..|rows| - 1] + [last];
      if last.raceId != raceId then init + [last] else init
  }

  /** A table's ids are positive, increase in table order (so they are unique) and
      stay below the table's next id. */
  predicate ActivityIdsOk(rows: seq<Activity>, next: int)
  {
    && 0 < next
    && (forall i, j :: 0 <= i < j < |rows| ==> rows[i].id < rows[j].id)
    && (forall i :: 0 <= i < |rows| ==> 0 < rows[i].id < next)
  }

  predicate LapIdsOk(rows: seq<Lap>, next: int)
  {
    && 0 < next
    && (forall i, j :: 0 <= i < j < |rows| ==> rows[i].id < rows[j].id)
    && (forall i :: 0 <= i < |rows| ==> 0 < rows[i].id < next)
  }

  predicate RaceIdsOk(rows: seq<Race>, next: int)
  {
    && 0 < next
    && (forall i, j :: 0 <= i < j < |rows| ==> rows[i].id < rows[j].id)
    && (forall i :: 0 <= i < |rows| ==> 0 < rows[i].id < next)
  }

  predicate ImageIdsOk(rows: seq<RaceImage>, next: int)
  {
    && 0 < next
    && (forall i, j :: 0 <= i < j < |rows| ==> rows[i].id < rows[j].id)
    && (forall i :: 0 <= i < |rows| ==> 0 < rows[i].id < next)
  }

  /** Appending a row with the next id keeps the image table's ids in order. */
  lemma ImageIdsGrow(rows: seq<RaceImage>, next: int, m: RaceImage)
    requires ImageIdsOk(rows, next) && m.id == next
    ensures ImageIdsOk(rows + [m], next + 1)
  {
  }

  /** The database: four tables in insertion order and the id each table assigns next. */
  class Db {
    var activities: seq<Activity>
    var laps: seq<Lap>
    var races: seq<Race>
    var images: seq<RaceImage>
    var nextActivityId: int
    var nextLapId: int
    var nextRaceId: int
    var nextImageId: int

    ghost predicate Valid()
      reads this
    {
      && ActivityIdsOk(activities, nextActivityId)
      && LapIdsOk(laps, nextLapId)
      && RaceIdsOk(races, nextRaceId)
      && ImageIdsOk(images, nextImageId)
    }

    constructor ()
      ensures Valid()
      ensures activities == [] && laps == [] && races == [] && images == []
      ensures nextActivityId == 1 && nextLapId == 1 && nextRaceId == 1 && nextImageId == 1
    {
      activities, laps, races, images := [], [], [], [];
      nextActivityId, nextLapId, nextRaceId, nextImageId := 1, 1, 1, 1;
    }
  }
}
