/** backend/routers/activities.py: upload a TCX file into activities and laps, list
    and read the current user's activities, and delete one. */
module ActivitiesRouter {
  import opened Common
  import opened TcxParser
  import opened Store

  /** What parse_tcx did with the uploaded bytes: raised, or returned its list. */
  datatype ParseOutcome = Unparsable | Parsed(activities: seq<ParsedActivity>)

  /** The activity rows an upload of ps stores, with ids from firstId on. */
  function NewActivities(firstId: int, user: int, ps: seq<ParsedActivity>): (rows: seq<Activity>)
    ensures |rows| == |ps|
    ensures forall i :: 0 <= i < |ps| ==>
      rows[i].id == firstId + i && rows[i].userId == user && CopiesActivity(rows[i], ps[i])
  {
    seq(|ps|, i requires 0 <= i < |ps| => ActivityFrom(firstId + i, user, ps[i]))
  }

  /** The number of laps in ps. */
  function LapCount(ps: seq<ParsedActivity>): (n: nat)
  {
    if ps == [] then 0 else LapCount(ps[..|ps| - 1]) + |ps[|ps| - 1].laps|
  }

  /** The parsed laps of ps, activity after activity. */
  function AllLaps(ps: seq<ParsedActivity>): (laps: seq<ParsedLap>)
    ensures |laps| == LapCount(ps)
  {
    if ps == [] then [] else AllLaps(ps[..|ps| - 1]) + ps[|ps| - 1].laps
  }

  /** The lap rows an upload of ps stores: the laps of each activity in turn, the
      activities numbered from firstAct and the laps from firstLap. Every row points
      at one of the new activities. */
  function NewLapRows(firstAct: int, firstLap: int, ps: seq<ParsedActivity>): (rows: seq<Lap>)
    ensures |rows| == LapCount(ps)
    ensures forall k :: 0 <= k < |rows| ==>
      rows[k].id == firstLap + k
      && rows[k].activityId.Some? && firstAct <= rows[k].activityId.value < firstAct + |ps|
  {
    if ps == [] then []
    else
      var init := ps[..|ps| - 1];
      NewLapRows(firstAct, firstLap, init)
      + LapRowsFor(firstAct + |init|, firstLap + LapCount(init), ps[|ps| - 1].laps)
  }

  /** The k-th stored lap row carries the k-th parsed lap of the upload. */
  lemma {:induction false} NewLapRowsCopyLaps(firstAct: int, firstLap: int, ps: seq<ParsedActivity>)
    ensures forall k :: 0 <= k < LapCount(ps) ==> CopiesLap(NewLapRows(firstAct, firstLap, ps)[k], AllLaps(ps)[k])
  {
    if ps != [] {
      var init := ps[..|ps| - 1];
      NewLapRowsCopyLaps(firstAct, firstLap, init);
      var front, back := NewLapRows(firstAct, firstLap, init), LapRowsFor(firstAct + |init|, firstLap + LapCount(init), ps[|ps| - 1].laps);
      var rows := NewLapRows(firstAct, firstLap, ps);
      assert rows == front + back;
      assert AllLaps(ps) == AllLaps(init) + ps[|ps| - 1].laps;
      forall k | 0 <= k < LapCount(ps) ensures CopiesLap(rows[k], AllLaps(ps)[k]) {
        if k >= |front| {
          assert rows[k] == back[k - |front|];
          assert AllLaps(ps)[k] == ps[|ps| - 1].laps[k - |front|];
        } else {
          assert rows[k] == front[k];
          assert AllLaps(ps)[k] == AllLaps(init)[k];
        }
      }
    }
  }

  /** One more parsed activity adds one activity row. */
  lemma NewActivitiesStep(firstId: int, user: int, ps: seq<ParsedActivity>, i: nat)
    requires i < |ps|
    ensures NewActivities(firstId, user, ps[..i + 1])
         == NewActivities(firstId, user, ps[..i]) + [ActivityFrom(firstId + i, user, ps[i])]
  {
  }

  /** One more parsed activity adds its laps, numbered on from the laps before it. */
  lemma NewLapRowsStep(firstAct: int, firstLap: int, ps: seq<ParsedActivity>, i: nat)
    requires i < |ps|
    ensures LapCount(ps[..i + 1]) == LapCount(ps[..i]) + |ps[i].laps|
    ensures NewLapRows(firstAct, firstLap, ps[..i + 1])
         == NewLapRows(firstAct, firstLap, ps[..i]) + LapRowsFor(firstAct + i, firstLap + LapCount(ps[..i]), ps[i].laps)
  {
    assert ps[..i + 1][..i] == ps[..i];
  }

  /** The lap loop shared by both uploads: stores the parsed laps of activity actId
      in order, with fresh ids. */
  method StoreLaps(db: Db, actId: int, laps: seq<ParsedLap>)
    requires db.Valid()
    modifies db
    ensures db.Valid()
    ensures db.laps == old(db.laps) + LapRowsFor(actId, old(db.nextLapId), laps)
    ensures db.nextLapId == old(db.nextLapId) + |laps|
    ensures db.activities == old(db.activities) && db.races == old(db.races) && db.images == old(db.images)
    ensures db.nextActivityId == old(db.nextActivityId)
    ensures db.nextRaceId == old(db.nextRaceId) && db.nextImageId == old(db.nextImageId)
  {
    for j := 0 to |laps|
      invariant db.Valid()
      invariant db.laps == old(db.laps) + LapRowsFor(actId, old(db.nextLapId), laps[..j])
      invariant db.nextLapId == old(db.nextLapId) + j
      invariant db.activities == old(db.activities) && db.races == old(db.races) && db.images == old(db.images)
      invariant db.nextActivityId == old(db.nextActivityId)
      invariant db.nextRaceId == old(db.nextRaceId) && db.nextImageId == old(db.nextImageId)
    {
      var lap := laps[j];
      var row := Lap(db.nextLapId, Some(actId), lap.lapNumber, lap.distance, lap.time, lap.pace,
                     lap.avgHr, lap.maxHr, lap.avgCadence);
      assert LapRowsFor(actId, old(db.nextLapId), laps[..j + 1])
          == LapRowsFor(actId, old(db.nextLapId), laps[..j]) + [row];
      db.laps := db.laps + [row];
      db.nextLapId := db.nextLapId + 1;
    }
    assert laps[..|laps|] == laps;
  }

  /** Stores one parsed activity for the user, then its laps. */
  method StoreActivity(db: Db, user: int, p: ParsedActivity) returns (act: Activity)
    requires db.Valid()
    modifies db
    ensures db.Valid()
    ensures act == ActivityFrom(old(db.nextActivityId), user, p)
    ensures db.activities == old(db.activities) + [act]
    ensures db.laps == old(db.laps) + LapRowsFor(act.id, old(db.nextLapId), p.laps)
    ensures db.nextActivityId == old(db.nextActivityId) + 1
    ensures db.nextLapId == old(db.nextLapId) + |p.laps|
    ensures db.races == old(db.races) && db.images == old(db.images)
    ensures db.nextRaceId == old(db.nextRaceId) && db.nextImageId == old(db.nextImageId)
  {
    act := ActivityFrom(db.nextActivityId, user, p);
    db.activities := db.activities + [act];
    db.nextActivityId := db.nextActivityId + 1;
    StoreLaps(db, act.id, p.laps);
  }

  /** Stores the i-th parsed activity after the first i: the database grows from
      the rows of ps[..i] to the rows of ps[..i + 1]. */
  method StoreNext(db: Db, user: int, ps: seq<ParsedActivity>, i: nat,
                   ghost acts0: seq<Activity>, ghost laps0: seq<Lap>, ghost a0: int, ghost l0: int)
      returns (act: Activity)
    requires i < |ps| && db.Valid()
    requires db.activities == acts0 + NewActivities(a0, user, ps[..i])
    requires db.laps == laps0 + NewLapRows(a0, l0, ps[..i])
    requires db.nextActivityId == a0 + i && db.nextLapId == l0 + LapCount(ps[..i])
    modifies db
    ensures db.Valid()
    ensures NewActivities(a0, user, ps[..i + 1]) == NewActivities(a0, user, ps[..i]) + [act]
    ensures db.activities == acts0 + NewActivities(a0, user, ps[..i + 1])
    ensures db.laps == laps0 + NewLapRows(a0, l0, ps[..i + 1])
    ensures db.nextActivityId == a0 + i + 1 && db.nextLapId == l0 + LapCount(ps[..i + 1])
    ensures db.races == old(db.races) && db.images == old(db.images)
    ensures db.nextRaceId == old(db.nextRaceId) && db.nextImageId == old(db.nextImageId)
  {
    NewActivitiesStep(a0, user, ps, i);
    NewLapRowsStep(a0, l0, ps, i);
    act := StoreActivity(db, user, ps[i]);
  }

  /** Stores every parsed activity in order, each followed by its laps. */
  method StoreAll(db: Db, user: int, ps: seq<ParsedActivity>) returns (saved: seq<Activity>)
    requires db.Valid()
    modifies db
    ensures db.Valid()
    ensures saved == NewActivities(old(db.nextActivityId), user, ps)
    ensures db.activities == old(db.activities) + saved
    ensures db.laps == old(db.laps) + NewLapRows(old(db.nextActivityId), old(db.nextLapId), ps)
    ensures db.nextActivityId == old(db.nextActivityId) + |ps|
    ensures db.nextLapId == old(db.nextLapId) + LapCount(ps)
    ensures db.races == old(db.races) && db.images == old(db.images)
    ensures db.nextRaceId == old(db.nextRaceId) && db.nextImageId == old(db.nextImageId)
  {
    ghost var a0, l0 := db.nextActivityId, db.nextLapId;
    ghost var acts0, laps0 := db.activities, db.laps;
    saved := [];
    for i := 0 to |ps|
      invariant db.Valid()
      invariant saved == NewActivities(a0, user, ps[..i])
      invariant db.activities == acts0 + saved
      invariant db.laps == laps0 + NewLapRows(a0, l0, ps[..i])
      invariant db.nextActivityId == a0 + i
      invariant db.nextLapId == l0 + LapCount(ps[..i])
      invariant db.races == old(db.races) && db.images == old(db.images)
      invariant db.nextRaceId == old(db.nextRaceId) && db.nextImageId == old(db.nextImageId)
    {
      var act := StoreNext(db, user, ps, i, acts0, laps0, a0, l0);
      saved := saved + [act];
    }
    assert ps[..|ps|] == ps;
  }

  /** upload_tcx: a parse failure is a 400 and stores nothing; otherwise every parsed
      activity is stored for the user, each followed by its laps, with no check for
      activities already stored. */
  method UploadTcx(db: Db, user: int, outcome: ParseOutcome) returns (r: Result<seq<Activity>>)
    requires db.Valid()
    modifies db
    ensures db.Valid()
    ensures outcome.Unparsable? ==> r == Err(InvalidTcx) && unchanged(db)
    ensures outcome.Parsed? ==>
      && r == Ok(NewActivities(old(db.nextActivityId), user, outcome.activities))
      && db.activities == old(db.activities) + r.value
      && db.laps == old(db.laps) + NewLapRows(old(db.nextActivityId), old(db.nextLapId), outcome.activities)
      && db.races == old(db.races) && db.images == old(db.images)
      && db.nextActivityId == old(db.nextActivityId) + |outcome.activities|
      && db.nextLapId == old(db.nextLapId) + LapCount(outcome.activities)
      && db.nextRaceId == old(db.nextRaceId) && db.nextImageId == old(db.nextImageId)
  {
    if outcome.Unparsable? {
      return Err(InvalidTcx);
    }
    var saved := StoreAll(db, user, outcome.activities);
    r := Ok(saved);
  }

  /** The rows an SQL `OFFSET skip LIMIT limit` keeps (SQLite: a negative offset
      counts as 0 and a negative limit means no limit). */
  function Page<T>(rows: seq<T>, skip: int, limit: int): (r: seq<T>)
    ensures var o := if skip < 0 then 0 else skip;
      && (forall i :: 0 <= i < |r| ==> o + i < |rows| && r[i] == rows[o + i])
      && (limit >= 0 ==> |r| <= limit)
      && (o + |r| < |rows| ==> limit >= 0 && |r| == limit)
  {
    var o := if skip < 0 then 0 else if skip > |rows| then |rows| else skip;
    var rest := rows[o..];
    if limit < 0 || limit >= |rest| then rest else rest[..limit]
  }

  /** Consecutive pages neither overlap nor leave gaps: the page after a page starts
      where it ended. */
  lemma PagesConcatenate<T>(rows: seq<T>, skip: nat, n: nat, m: nat)
    ensures Page(rows, skip, n) + Page(rows, skip + n, m) == Page(rows, skip, n + m)
  {
    var a, b, c := Page(rows, skip, n), Page(rows, skip + n, m), Page(rows, skip, n + m);
    if skip + n <= |rows| {
      assert |a| == n;
      assert |c| == if skip + n + m <= |rows| then n + m else |rows| - skip;
    } else {
      assert b == [];
    }
    assert |a + b| == |c|;
    forall i | 0 <= i < |c| ensures (a + b)[i] == c[i] {
      if i >= |a| {
        assert (a + b)[i] == b[i - |a|];
      }
    }
  }

  /** read_activities: the user's activities in table order, offset and limited. */
  function ReadActivities(db: Db, user: int, skip: int, limit: int): (r: seq<Activity>)
    reads db
    ensures forall a :: a in r ==> a in db.activities && a.userId == user
    ensures limit >= 0 ==> |r| <= limit
    ensures skip <= 0 && limit < 0 ==> forall a :: a in db.activities && a.userId == user ==> a in r
    ensures r == Page(UserActivities(db.activities, user), skip, limit)
  {
    var mine := UserActivities(db.activities, user);
    var r := Page(mine, skip, limit);
    assert forall a :: a in r ==> a in mine by {
      forall a | a in r ensures a in mine {
        var i :| 0 <= i < |r| && r[i] == a;
        assert mine[(if skip < 0 then 0 else skip) + i] == a;
      }
    }
    assert skip <= 0 && limit < 0 ==> r == mine;
    r
  }

  /** read_activity: the user's activity with this id, or 404 when there is none,
      including when the id belongs to another user's activity. */
  function ReadActivity(db: Db, user: int, id: int): (r: Result<Activity>)
    reads db
    ensures r.Ok? ==> r.value in db.activities && r.value.id == id && r.value.userId == user
    ensures r.Err? ==> r.error == ActivityNotFound && StatusCode(r.error) == 404
    ensures r.Err? <==> forall a :: a in db.activities ==> !(a.id == id && a.userId == user)
  {
    match FindActivity(db.activities, id, user)
    case None => Err(ActivityNotFound)
    case Some(k) => Ok(db.activities[k])
  }

  /** The laps with their link to activity id cleared, which is what deleting the
      activity does to them: Activity.laps has no delete cascade, so SQLAlchemy sets
      their activity_id to NULL. */
  function Orphaned(laps: seq<Lap>, id: int): (r: seq<Lap>)
    ensures |r| == |laps|
    ensures forall i :: 0 <= i < |laps| ==> r[i].activityId != Some(id)
    ensures forall i :: 0 <= i < |laps| ==>
      && (laps[i].activityId == Some(id) ==> r[i] == laps[i].(activityId := None))
      && (laps[i].activityId != Some(id) ==> r[i] == laps[i])
  {
    seq(|laps|, i requires 0 <= i < |laps| =>
      if laps[i].activityId == Some(id) then laps[i].(activityId := None) else laps[i])
  }

  /** delete_activity: 404 and no change unless the user owns an activity with this
      id; otherwise that row is removed, its laps lose their link, and races (even one
      linked to the activity) and images are left as they are. */
  method DeleteActivity(db: Db, user: int, id: int) returns (r: Result<()>)
    requires db.Valid()
    modifies db
    ensures db.Valid()
    ensures FindActivity(old(db.activities), id, user).None? ==> r == Err(ActivityNotFound) && unchanged(db)
    ensures FindActivity(old(db.activities), id, user).Some? ==>
      && r == Ok(())
      && db.activities == RemoveAt(old(db.activities), FindActivity(old(db.activities), id, user).value)
      && db.laps == Orphaned(old(db.laps), id)
      && db.races == old(db.races) && db.images == old(db.images)
      && db.nextActivityId == old(db.nextActivityId) && db.nextLapId == old(db.nextLapId)
      && db.nextRaceId == old(db.nextRaceId) && db.nextImageId == old(db.nextImageId)
    ensures forall a :: a in db.activities ==> a.id != id || a.userId != user
  {
    var found := FindActivity(db.activities, id, user);
    if found.None? {
      return Err(ActivityNotFound);
    }
    var k := found.value;
    db.activities := RemoveAt(db.activities, k);
    db.laps := Orphaned(db.laps, id);
    r := Ok(());
  }
}
