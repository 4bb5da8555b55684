/** backend/routers/races.py: race registration, listing, partial updates, linking a
    race to an activity through a TCX upload, deletion, and the race's images. */
module RacesRouter {
  import opened Common
  import opened Text
  import opened Calendar
  import opened Sorting
  import opened TcxParser
  import opened Store
  import opened ActivitiesRouter

  /** The fields a new race is registered with. */
  datatype RaceCreate = RaceCreate(
    raceName: string,
    raceDate: DateTime,
    location: Option<string>,
    distanceType: DistanceType,
    distanceCustom: Option<real>,
    targetTime: Option<int>)

  /** An edit of the registration fields; Keep is a field the request left unset. */
  datatype RaceUpdate = RaceUpdate(
    raceName: Patch<string>,
    raceDate: Patch<DateTime>,
    location: Patch<Option<string>>,
    distanceType: Patch<DistanceType>,
    distanceCustom: Patch<Option<real>>,
    targetTime: Patch<Option<int>>)

  /** An edit of the result fields; Keep is a field the request left unset. */
  datatype ResultUpdate = ResultUpdate(
    status: Patch<RaceStatus>,
    actualTime: Patch<Option<int>>,
    activityId: Patch<Option<int>>,
    review: Patch<Option<string>>)

  const MaxImagesPerRace: nat := 5
  const MaxImageSize: nat := 5 * 1024 * 1024

  /** The set fields of u replace the race's; every other field is kept. */
  function ApplyRaceUpdate(race: Race, u: RaceUpdate): (r: Race)
    ensures r.id == race.id && r.userId == race.userId
    ensures r.status == race.status && r.actualTime == race.actualTime
    ensures r.activityId == race.activityId && r.review == race.review
    ensures u.raceName.Put? ==> r.raceName == u.raceName.value
    ensures u.raceName.Keep? ==> r.raceName == race.raceName
    ensures u.raceDate.Put? ==> r.raceDate == u.raceDate.value
    ensures u.raceDate.Keep? ==> r.raceDate == race.raceDate
    ensures u.location.Put? ==> r.location == u.location.value
    ensures u.location.Keep? ==> r.location == race.location
    ensures u.distanceType.Put? ==> r.distanceType == u.distanceType.value
    ensures u.distanceType.Keep? ==> r.distanceType == race.distanceType
    ensures u.distanceCustom.Put? ==> r.distanceCustom == u.distanceCustom.value
    ensures u.distanceCustom.Keep? ==> r.distanceCustom == race.distanceCustom
    ensures u.targetTime.Put? ==> r.targetTime == u.targetTime.value
    ensures u.targetTime.Keep? ==> r.targetTime == race.targetTime
    ensures u == RaceUpdate(Keep, Keep, Keep, Keep, Keep, Keep) ==> r == race
  {
    race.(raceName := Apply(u.raceName, race.raceName),
          raceDate := Apply(u.raceDate, race.raceDate),
          location := Apply(u.location, race.location),
          distanceType := Apply(u.distanceType, race.distanceType),
          distanceCustom := Apply(u.distanceCustom, race.distanceCustom),
          targetTime := Apply(u.targetTime, race.targetTime))
  }

  /** The set fields of u replace the race's result fields; the registration is kept. */
  function ApplyResultUpdate(race: Race, u: ResultUpdate): (r: Race)
    ensures r.id == race.id && r.userId == race.userId && r.raceName == race.raceName
    ensures r.raceDate == race.raceDate && r.location == race.location
    ensures r.distanceType == race.distanceType && r.distanceCustom == race.distanceCustom
    ensures r.targetTime == race.targetTime
    ensures u.status.Put? ==> r.status == u.status.value
    ensures u.status.Keep? ==> r.status == race.status
    ensures u.actualTime.Put? ==> r.actualTime == u.actualTime.value
    ensures u.actualTime.Keep? ==> r.actualTime == race.actualTime
    ensures u.activityId.Put? ==> r.activityId == u.activityId.value
    ensures u.activityId.Keep? ==> r.activityId == race.activityId
    ensures u.review.Put? ==> r.review == u.review.value
    ensures u.review.Keep? ==> r.review == race.review
    ensures u == ResultUpdate(Keep, Keep, Keep, Keep) ==> r == race
  {
    race.(status := Apply(u.status, race.status),
          actualTime := Apply(u.actualTime, race.actualTime),
          activityId := Apply(u.activityId, race.activityId),
          review := Apply(u.review, race.review))
  }

  /** Applying the same edit twice is applying it once. */
  lemma UpdatesIdempotent(race: Race, u: RaceUpdate, v: ResultUpdate)
    ensures ApplyRaceUpdate(ApplyRaceUpdate(race, u), u) == ApplyRaceUpdate(race, u)
    ensures ApplyResultUpdate(ApplyResultUpdate(race, v), v) == ApplyResultUpdate(race, v)
  {
  }

  /** The two edits touch disjoint fields, so their order does not matter. */
  lemma UpdatesCommute(race: Race, u: RaceUpdate, v: ResultUpdate)
    ensures ApplyResultUpdate(ApplyRaceUpdate(race, u), v) == ApplyRaceUpdate(ApplyResultUpdate(race, v), u)
  {
  }

  /** create_race: a new race of the user's with the given fields, status 예정 and
      no result, link or review. */
  method CreateRace(db: Db, user: int, c: RaceCreate) returns (race: Race)
    requires db.Valid()
    modifies db
    ensures db.Valid()
    ensures race == Race(old(db.nextRaceId), user, c.raceName, c.raceDate, c.location, c.distanceType,
                         c.distanceCustom, c.targetTime, None, Upcoming, None, None)
    ensures db.races == old(db.races) + [race] && db.nextRaceId == old(db.nextRaceId) + 1
    ensures db.activities == old(db.activities) && db.laps == old(db.laps) && db.images == old(db.images)
    ensures db.nextActivityId == old(db.nextActivityId) && db.nextLapId == old(db.nextLapId)
    ensures db.nextImageId == old(db.nextImageId)
  {
    race := Race(db.nextRaceId, user, c.raceName, c.raceDate, c.location, c.distanceType,
                 c.distanceCustom, c.targetTime, None, Upcoming, None, None);
    db.races := db.races + [race];
    db.nextRaceId := db.nextRaceId + 1;
  }

  /** The status filter of list_races: absent or empty means every status. */
  predicate StatusMatches(race: Race, status: Option<string>)
  {
    status.None? || status.value == "" || StatusName(race.status) == status.value
  }

  /** The user's races that pass the status filter, in table order. */
  function RacesMatching(rows: seq<Race>, user: int, status: Option<string>): (r: seq<Race>)
    ensures |r| <= |rows|
    ensures forall x :: x in r <==> x in rows && x.userId == user && StatusMatches(x, status)
  {
    if rows == [] then []
    else
      var init := RacesMatching(rows[..|rows| - 1], user, status);
      var last := rows[|rows| - 1];
      assert rows == rows[..|rows| - 1] + [last];
      if last.userId == user && StatusMatches(last, status) then init + [last] else init
  }

  /** list_races: the user's races passing the status filter, latest race date first. */
  function ListRaces(db: Db, user: int, status: Option<string>): (r: seq<Race>)
    reads db
    ensures multiset(r) == multiset(RacesMatching(db.races, user, status))
    ensures forall x :: x in r <==> x in db.races && x.userId == user && StatusMatches(x, status)
    ensures forall i, j :: 0 <= i < j < |r| ==> Ordinal(r[i].raceDate) >= Ordinal(r[j].raceDate)
  {
    var r := SortDesc(RacesMatching(db.races, user, status), (x: Race) => Ordinal(x.raceDate));
    assert forall x :: x in r <==> x in multiset(r);
    r
  }

  /** get_race: the user's race with this id, or 404, also for another user's race. */
  function GetRace(db: Db, user: int, id: int): (r: Result<Race>)
    reads db
    ensures r.Ok? ==> r.value in db.races && r.value.id == id && r.value.userId == user
    ensures r.Err? ==> r.error == RaceNotFound && StatusCode(r.error) == 404
    ensures r.Err? <==> forall x :: x in db.races ==> !(x.id == id && x.userId == user)
  {
    match FindRace(db.races, id, user)
    case None => Err(RaceNotFound)
    case Some(k) => Ok(db.races[k])
  }

  /** update_race: 404 and no change unless the user owns the race; otherwise the
      edit is applied to that row alone. */
  method UpdateRace(db: Db, user: int, id: int, u: RaceUpdate) returns (r: Result<Race>)
    requires db.Valid()
    modifies db
    ensures db.Valid()
    ensures FindRace(old(db.races), id, user).None? ==> r == Err(RaceNotFound) && unchanged(db)
    ensures FindRace(old(db.races), id, user).Some? ==>
      var k := FindRace(old(db.races), id, user).value;
      && r == Ok(ApplyRaceUpdate(old(db.races)[k], u))
      && db.races == old(db.races)[k := r.value]
      && db.activities == old(db.activities) && db.laps == old(db.laps) && db.images == old(db.images)
      && db.nextActivityId == old(db.nextActivityId) && db.nextLapId == old(db.nextLapId)
      && db.nextRaceId == old(db.nextRaceId) && db.nextImageId == old(db.nextImageId)
  {
    var found := FindRace(db.races, id, user);
    if found.None? {
      return Err(RaceNotFound);
    }
    var k := found.value;
    var race := ApplyRaceUpdate(db.races[k], u);
    db.races := db.races[k := race];
    r := Ok(race);
  }

  /** update_race_result: 404 and no change unless the user owns the race; otherwise
      the result edit is applied to that row alone. The activity id is stored as sent,
      without checking that such an activity exists or belongs to the user. */
  method UpdateRaceResult(db: Db, user: int, id: int, u: ResultUpdate) returns (r: Result<Race>)
    requires db.Valid()
    modifies db
    ensures db.Valid()
    ensures FindRace(old(db.races), id, user).None? ==> r == Err(RaceNotFound) && unchanged(db)
    ensures FindRace(old(db.races), id, user).Some? ==>
      var k := FindRace(old(db.races), id, user).value;
      && r == Ok(ApplyResultUpdate(old(db.races)[k], u))
      && db.races == old(db.races)[k := r.value]
      && db.activities == old(db.activities) && db.laps == old(db.laps) && db.images == old(db.images)
      && db.nextActivityId == old(db.nextActivityId) && db.nextLapId == old(db.nextLapId)
      && db.nextRaceId == old(db.nextRaceId) && db.nextImageId == old(db.nextImageId)
  {
    var found := FindRace(db.races, id, user);
    if found.None? {
      return Err(RaceNotFound);
    }
    var k := found.value;
    var race := ApplyResultUpdate(db.races[k], u);
    db.races := db.races[k := race];
    r := Ok(race);
  }

  /** Index of the user's first activity (in table order) that starts at t. */
  function FindByStart(rows: seq<Activity>, user: int, t: DateTime): (r: Option<nat>)
    ensures r.Some? ==> r.value < |rows| && rows[r.value].userId == user && rows[r.value].startTime == t
    ensures r.Some? ==> forall k :: 0 <= k < r.value ==> !(rows[k].userId == user && rows[k].startTime == t)
    ensures r.None? ==> forall k :: 0 <= k < |rows| ==> !(rows[k].userId == user && rows[k].startTime == t)
  {
    if rows == [] then None
    else if rows[0].userId == user && rows[0].startTime == t then Some(0)
    else match FindByStart(rows[1..], user, t)
      case None => None
      case Some(k) => Some(k + 1)
  }

  /** upload_race_tcx, checked in order: the user's race (404), a parsable file (400),
      at least one activity in it (400). The race is then linked to the user's first
      stored activity with the same start time as the file's first activity; when
      there is none, that activity and its laps are stored first and the race linked
      to it. The race's other fields, and its previous link's activity, are kept. */
  method UploadRaceTcx(db: Db, user: int, raceId: int, outcome: ParseOutcome) returns (r: Result<Race>)
    requires db.Valid()
    modifies db
    ensures db.Valid()
    ensures FindRace(old(db.races), raceId, user).None? ==> r == Err(RaceNotFound) && unchanged(db)
    ensures FindRace(old(db.races), raceId, user).Some? && outcome.Unparsable? ==>
      r == Err(InvalidTcx) && unchanged(db)
    ensures FindRace(old(db.races), raceId, user).Some? && outcome == Parsed([]) ==>
      r == Err(EmptyTcx) && unchanged(db)
    ensures FindRace(old(db.races), raceId, user).Some? && outcome.Parsed? && outcome.activities != [] ==>
      var k := FindRace(old(db.races), raceId, user).value;
      var p := outcome.activities[0];
      var existing := FindByStart(old(db.activities), user, p.startTime);
      var linked := if existing.Some? then old(db.activities)[existing.value].id else old(db.nextActivityId);
      && r == Ok(old(db.races)[k].(activityId := Some(linked)))
      && db.races == old(db.races)[k := r.value]
      && db.images == old(db.images)
      && db.nextRaceId == old(db.nextRaceId) && db.nextImageId == old(db.nextImageId)
      && (existing.Some? ==>
            && db.activities == old(db.activities) && db.laps == old(db.laps)
            && db.nextActivityId == old(db.nextActivityId) && db.nextLapId == old(db.nextLapId))
      && (existing.None? ==>
            && db.activities == old(db.activities) + [ActivityFrom(linked, user, p)]
            && db.laps == old(db.laps) + LapRowsFor(linked, old(db.nextLapId), p.laps)
            && db.nextActivityId == old(db.nextActivityId) + 1
            && db.nextLapId == old(db.nextLapId) + |p.laps|)
    ensures r.Ok? ==> exists a :: a in db.activities && Some(a.id) == r.value.activityId && a.userId == user
  {
    var found := FindRace(db.races, raceId, user);
    if found.None? {
      return Err(RaceNotFound);
    }
    var k := found.value;
    if outcome.Unparsable? {
      return Err(InvalidTcx);
    }
    if outcome.activities == [] {
      return Err(EmptyTcx);
    }
    var p := outcome.activities[0];
    var existing := FindByStart(db.activities, user, p.startTime);
    var linked: int;
    if existing.Some? {
      linked := db.activities[existing.value].id;
      assert db.activities[existing.value] in db.activities;
    } else {
      var act := StoreActivity(db, user, p);
      linked := act.id;
      assert db.activities[|db.activities| - 1] == act;
    }
    var race := db.races[k].(activityId := Some(linked));
    db.races := db.races[k := race];
    r := Ok(race);
  }

  /** Dropping rows keeps a table's ids increasing and below its next id. */
  lemma {:induction false} ImagesNotOfKeepsIds(rows: seq<RaceImage>, raceId: int, next: int)
    requires ImageIdsOk(rows, next)
    ensures ImageIdsOk(ImagesNotOf(rows, raceId), next)
  {
    if rows != [] {
      var init := rows[..|rows| - 1];
      var last := rows[|rows| - 1];
      assert ImageIdsOk(init, next);
      ImagesNotOfKeepsIds(init, raceId, next);
      var kept := ImagesNotOf(init, raceId);
      forall m | m in kept ensures m.id < last.id {
        var i :| 0 <= i < |init| && init[i] == m;
      }
    }
  }

  /** delete_race: 404 and no change unless the user owns the race; otherwise the race
      and its image rows are removed, and its linked activity is kept. */
  method DeleteRace(db: Db, user: int, id: int) returns (r: Result<()>)
    requires db.Valid()
    modifies db
    ensures db.Valid()
    ensures FindRace(old(db.races), id, user).None? ==> r == Err(RaceNotFound) && unchanged(db)
    ensures FindRace(old(db.races), id, user).Some? ==>
      && r == Ok(())
      && db.races == RemoveAt(old(db.races), FindRace(old(db.races), id, user).value)
      && db.images == ImagesNotOf(old(db.images), id)
      && db.activities == old(db.activities) && db.laps == old(db.laps)
      && db.nextActivityId == old(db.nextActivityId) && db.nextLapId == old(db.nextLapId)
      && db.nextRaceId == old(db.nextRaceId) && db.nextImageId == old(db.nextImageId)
    ensures forall x :: x in db.races ==> x.id != id || x.userId != user
    ensures r.Ok? ==> forall m :: m in db.images ==> m.raceId != id
  {
    var found := FindRace(db.races, id, user);
    if found.None? {
      return Err(RaceNotFound);
    }
    ImagesNotOfKeepsIds(db.images, id, db.nextImageId);
    db.races := RemoveAt(db.races, found.value);
    db.images := ImagesNotOf(db.images, id);
    r := Ok(());
  }

  /** Index of the last occurrence of c in s, or -1 (Python's str.rfind). */
  function RFind(s: string, c: char): (i: int)
    ensures -1 <= i < |s|
    ensures i >= 0 ==> s[i] == c
    ensures forall k :: i < k < |s| ==> s[k] != c
  {
    if s == [] then -1
    else if s[|s| - 1] == c then |s| - 1
    else RFind(s[..|s| - 1], c)
  }

  /** Index of the last character of s other than c, or -1. */
  function RFindOther(s: string, c: char): (i: int)
    ensures -1 <= i < |s|
    ensures i >= 0 ==> s[i] != c
    ensures forall k :: i < k < |s| ==> s[k] == c
  {
    if s == [] then -1
    else if s[|s| - 1] != c then |s| - 1
    else RFindOther(s[..|s| - 1], c)
  }

  /** The extension os.path.splitext returns on POSIX: from the last '.' of the last
      path component, unless every character before that '.' in the component is a
      '.' too (".png" and "..png" have no extension). */
  function Extension(path: string): (ext: string)
    ensures ext == "" || (ext[0] == '.' && EndsWith(path, ext))
    ensures forall k :: 0 <= k < |ext| ==> ext[k] != '/' && (k > 0 ==> ext[k] != '.')
    ensures '.' !in path ==> ext == ""
  {
    var sep := RFind(path, '/');
    var dot := RFind(path, '.');
    if dot > sep && RFindOther(path[..dot], '.') > sep then path[dot..] else ""
  }

  /** A plain file name "stem.e", whose stem holds a character other than '.' and
      whose e holds no '.', has the extension "." + e. */
  lemma ExtensionOfName(stem: string, e: string, k: nat)
    requires '/' !in stem && k < |stem| && stem[k] != '.'
    requires '/' !in e && '.' !in e
    ensures Extension(stem + "." + e) == "." + e
  {
    var path := stem + "." + e;
    assert path[|stem|] == '.';
    assert forall j :: |stem| < j < |path| ==> path[j] == e[j - |stem| - 1];
    assert RFind(path, '.') == |stem|;
    assert forall j :: 0 <= j < |path| ==> path[j] != '/';
    assert RFind(path, '/') == -1;
    assert path[..|stem|] == stem;
    assert RFindOther(stem, '.') >= k;
    assert path[|stem|..] == "." + e;
  }

  predicate AllowedExtension(ext: string)
  {
    ext in {".png", ".jpg", ".jpeg"}
  }

  /** Adding an image to a race adds one to that race's images. */
  lemma ImagesOfAppend(rows: seq<RaceImage>, m: RaceImage)
    ensures ImagesOf(rows + [m], m.raceId) == ImagesOf(rows, m.raceId) + [m]
  {
    assert (rows + [m])[..|rows|] == rows;
  }

  /** The name the client sent, "" when it sent none. */
  function ClientName(fileName: Option<string>): string
  {
    if fileName.Some? then fileName.value else ""
  }

  /** The extension upload_race_image checks and stores: the lower-cased extension of
      the client's file name. */
  function StoredExtension(fileName: Option<string>): (ext: string)
    ensures ext == "" || (ext[0] == '.' && |ext| <= |ClientName(fileName)|)
  {
    ToLowerAscii(Extension(ClientName(fileName)))
  }

  /** The stored extension of "stem.e" is "." followed by e in lower case. */
  lemma StoredExtensionOfName(stem: string, e: string, k: nat)
    requires '/' !in stem && k < |stem| && stem[k] != '.'
    requires '/' !in e && '.' !in e
    ensures StoredExtension(Some(stem + "." + e)) == "." + ToLowerAscii(e)
  {
    ExtensionOfName(stem, e, k);
    assert ToLowerAscii("." + e) == "." + ToLowerAscii(e);
  }

  /** The first check of upload_race_image that fails for a race already holding
      count images, a file with extension ext and size bytes, if any. */
  function ImageRejection(count: nat, ext: string, size: nat): (e: Option<ApiError>)
    ensures e.None? <==> count < MaxImagesPerRace && AllowedExtension(ext) && size <= MaxImageSize
    ensures e.Some? ==> StatusCode(e.value) == 400
    ensures count >= MaxImagesPerRace ==> e == Some(TooManyImages)
    ensures count < MaxImagesPerRace && !AllowedExtension(ext) ==> e == Some(UnsupportedImageType)
    ensures count < MaxImagesPerRace && AllowedExtension(ext) && size > MaxImageSize ==> e == Some(ImageTooLarge)
  {
    if count >= MaxImagesPerRace then Some(TooManyImages)
    else if !AllowedExtension(ext) then Some(UnsupportedImageType)
    else if size > MaxImageSize then Some(ImageTooLarge)
    else None
  }

  /** upload_race_image, checked in order: the user's race (404), fewer than 5 images
      on it, a .png/.jpg/.jpeg extension in any letter case, at most 5 MB. The stored
      name is the random stem with the lower-cased extension; the original name is
      the client's, or "unknown" when it sent none or an empty one. */
  method UploadRaceImage(db: Db, user: int, raceId: int, fileName: Option<string>, size: nat,
                         stem: string, now: DateTime) returns (r: Result<RaceImage>)
    requires db.Valid()
    modifies db
    ensures db.Valid()
    ensures FindRace(old(db.races), raceId, user).None? ==> r == Err(RaceNotFound)
    ensures FindRace(old(db.races), raceId, user).Some? ==>
      var e := ImageRejection(|ImagesOf(old(db.images), raceId)|, StoredExtension(fileName), size);
      && (e.Some? ==> r == Err(e.value))
      && (e.None? ==> r == Ok(RaceImage(old(db.nextImageId), raceId, stem + StoredExtension(fileName),
                                        if ClientName(fileName) == "" then "unknown" else ClientName(fileName), now)))
    ensures r.Err? ==> unchanged(db)
    ensures r.Ok? ==>
      && db.images == old(db.images) + [r.value]
      && db.nextImageId == old(db.nextImageId) + 1
      && db.activities == old(db.activities) && db.laps == old(db.laps) && db.races == old(db.races)
      && db.nextActivityId == old(db.nextActivityId) && db.nextLapId == old(db.nextLapId)
      && db.nextRaceId == old(db.nextRaceId)
    ensures r.Ok? ==> |ImagesOf(db.images, raceId)| == |ImagesOf(old(db.images), raceId)| + 1 <= MaxImagesPerRace
  {
    var found := FindRace(db.races, raceId, user);
    if found.None? {
      return Err(RaceNotFound);
    }
    var ext := StoredExtension(fileName);
    var rejection := ImageRejection(|ImagesOf(db.images, raceId)|, ext, size);
    if rejection.Some? {
      return Err(rejection.value);
    }
    var name := ClientName(fileName);
    var image := RaceImage(db.nextImageId, raceId, stem + ext, if name == "" then "unknown" else name, now);
    ImagesOfAppend(db.images, image);
    AddImage(db, image);
    r := Ok(image);
  }

  /** The insert of upload_race_image: the row goes at the end of the image table
      under the table's next id. */
  method AddImage(db: Db, image: RaceImage)
    requires db.Valid() && image.id == db.nextImageId
    modifies db
    ensures db.Valid()
    ensures db.images == old(db.images) + [image] && db.nextImageId == old(db.nextImageId) + 1
    ensures db.activities == old(db.activities) && db.laps == old(db.laps) && db.races == old(db.races)
    ensures db.nextActivityId == old(db.nextActivityId) && db.nextLapId == old(db.nextLapId)
    ensures db.nextRaceId == old(db.nextRaceId)
  {
    var rows, next := db.images + [image], db.nextImageId + 1;
    ImageIdsGrow(db.images, db.nextImageId, image);
    db.images, db.nextImageId := rows, next;
  }

  /** delete_race_image, checked in order: the user's race (404), an image with this
      id on that race (404). Only that image row is removed. */
  method DeleteRaceImage(db: Db, user: int, raceId: int, imageId: int) returns (r: Result<()>)
    requires db.Valid()
    modifies db
    ensures db.Valid()
    ensures FindRace(old(db.races), raceId, user).None? ==> r == Err(RaceNotFound) && unchanged(db)
    ensures FindRace(old(db.races), raceId, user).Some? && FindImage(old(db.images), imageId, raceId).None? ==>
      r == Err(ImageNotFound) && unchanged(db)
    ensures FindRace(old(db.races), raceId, user).Some? && FindImage(old(db.images), imageId, raceId).Some? ==>
      && r == Ok(())
      && db.images == RemoveAt(old(db.images), FindImage(old(db.images), imageId, raceId).value)
      && db.activities == old(db.activities) && db.laps == old(db.laps) && db.races == old(db.races)
      && db.nextActivityId == old(db.nextActivityId) && db.nextLapId == old(db.nextLapId)
      && db.nextRaceId == old(db.nextRaceId) && db.nextImageId == old(db.nextImageId)
    ensures r.Ok? ==> forall m :: m in db.images ==> m.id != imageId
  {
    var found := FindRace(db.races, raceId, user);
    if found.None? {
      return Err(RaceNotFound);
    }
    var image := FindImage(db.images, imageId, raceId);
    if image.None? {
      return Err(ImageNotFound);
    }
    db.images := RemoveAt(db.images, image.value);
    r := Ok(());
  }
}
