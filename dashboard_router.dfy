/** backend/routers/dashboard.py: the current user's next two upcoming races, one
    entry per day of the current month with the distance run and the mean pace that
    day, and the five most recent activities. The clock reading `now` is a parameter. */
module DashboardRouter {
  import opened Common
  import opened Calendar
  import opened Sorting
  import opened Store

  /** One day of the monthly series: distance in km, mean non-zero pace. */
  datatype DayEntry = DayEntry(date: string, distanceKm: real, avgPace: Option<real>)

  datatype Dashboard = Dashboard(upcomingRaces: seq<Race>, monthlyRunning: seq<DayEntry>, recentActivities: seq<Activity>)

  const UpcomingLimit: nat := 2
  const RecentLimit: nat := 5

  /** Every stored start time is a real date-time, as Python's datetime guarantees. */
  predicate StartTimesValid(rows: seq<Activity>)
  {
    forall i :: 0 <= i < |rows| ==> ValidDateTime(rows[i].startTime)
  }

  /** The user's races with status 예정, in table order. */
  function UpcomingOf(rows: seq<Race>, user: int): (r: seq<Race>)
    ensures forall x :: x in r <==> x in rows && x.userId == user && x.status == Upcoming
  {
    if rows == [] then []
    else
      var init := UpcomingOf(rows[..|rows| - 1], user);
      var last := rows[|rows| - 1];
      assert rows == rows[..|rows| - 1] + [last];
      if last.userId == user && last.status == Upcoming then init + [last] else init
  }

  /** The upcoming_races query: the user's 예정 races, earliest race date first, at most
      two (see UpcomingOmitsOnlyLater for the ones left out). */
  function UpcomingRaces(rows: seq<Race>, user: int): (r: seq<Race>)
    ensures |r| <= UpcomingLimit
    ensures forall x :: x in r ==> x in rows && x.userId == user && x.status == Upcoming
    ensures forall i, j :: 0 <= i < j < |r| ==> Ordinal(r[i].raceDate) <= Ordinal(r[j].raceDate)
    ensures multiset(r) <= multiset(UpcomingOf(rows, user))
  {
    var sorted := SortAsc(UpcomingOf(rows, user), (x: Race) => Ordinal(x.raceDate));
    var r := Take(sorted, UpcomingLimit);
    TakeSubMultiset(sorted, UpcomingLimit);
    assert forall x :: x in r ==> x in multiset(sorted);
    r
  }

  /** A 예정 race of the user's is left out only when two are listed whose race dates
      are not later than its own. */
  lemma UpcomingOmitsOnlyLater(rows: seq<Race>, user: int, x: Race)
    requires x in rows && x.userId == user && x.status == Upcoming
    requires x !in UpcomingRaces(rows, user)
    ensures |UpcomingRaces(rows, user)| == UpcomingLimit
    ensures forall i :: 0 <= i < UpcomingLimit ==> Ordinal(UpcomingRaces(rows, user)[i].raceDate) <= Ordinal(x.raceDate)
  {
    var key := (x: Race) => Ordinal(x.raceDate);
    var sorted := SortAsc(UpcomingOf(rows, user), key);
    assert x in multiset(UpcomingOf(rows, user));
    assert x in sorted;
    TakeSortedOmitsOnlyLater(sorted, key, UpcomingLimit, x);
  }

  /** The user's activities in table order. */
  function ActivitiesOf(rows: seq<Activity>, user: int): (r: seq<Activity>)
    ensures forall a :: a in r <==> a in rows && a.userId == user
  {
    UserActivities(rows, user)
  }

  /** The recent_activities query: the user's activities, latest start first, at most
      five (see RecentOmitsOnlyEarlier for the ones left out). */
  function RecentActivities(rows: seq<Activity>, user: int): (r: seq<Activity>)
    ensures |r| <= RecentLimit
    ensures forall a :: a in r ==> a in rows && a.userId == user
    ensures forall i, j :: 0 <= i < j < |r| ==> Ordinal(r[i].startTime) >= Ordinal(r[j].startTime)
    ensures multiset(r) <= multiset(ActivitiesOf(rows, user))
  {
    var sorted := SortDesc(ActivitiesOf(rows, user), (a: Activity) => Ordinal(a.startTime));
    var r := Take(sorted, RecentLimit);
    TakeSubMultiset(sorted, RecentLimit);
    assert forall a :: a in r ==> a in multiset(sorted);
    r
  }

  /** An activity of the user's is left out only when five are listed that start no
      earlier than it. */
  lemma RecentOmitsOnlyEarlier(rows: seq<Activity>, user: int, a: Activity)
    requires a in rows && a.userId == user
    requires a !in RecentActivities(rows, user)
    ensures |RecentActivities(rows, user)| == RecentLimit
    ensures forall i :: 0 <= i < RecentLimit ==> Ordinal(RecentActivities(rows, user)[i].startTime) >= Ordinal(a.startTime)
  {
    var neg := (a: Activity) => -Ordinal(a.startTime);
    var sorted := SortDesc(ActivitiesOf(rows, user), (a: Activity) => Ordinal(a.startTime));
    assert SortedBy(sorted, neg);
    assert a in multiset(ActivitiesOf(rows, user));
    assert a in sorted;
    TakeSortedOmitsOnlyLater(sorted, neg, RecentLimit, a);
  }

  /** The activities query of the monthly series: the user's activities starting at
      or after midnight on the first of now's month, in table order. */
  function MonthActivities(rows: seq<Activity>, user: int, now: DateTime): (r: seq<Activity>)
    ensures forall a :: a in r <==> a in rows && a.userId == user && Ordinal(a.startTime) >= Ordinal(FirstOfMonth(now))
  {
    if rows == [] then []
    else
      var init := MonthActivities(rows[..|rows| - 1], user, now);
      var last := rows[|rows| - 1];
      assert rows == rows[..|rows| - 1] + [last];
      if last.userId == user && Ordinal(last.startTime) >= Ordinal(FirstOfMonth(now)) then init + [last] else init
  }

  /** The `strftime("%Y-%m-%d")` key of the day an activity started. */
  function StartDay(a: Activity): string
  {
    DayKeyOf(a.startTime)
  }

  /** The elements of xs whose key is k, in order. */
  function WithKey<T(==,!new)>(xs: seq<T>, key: T -> string, k: string): (r: seq<T>)
    ensures forall x :: x in r <==> x in xs && key(x) == k
  {
    if xs == [] then []
    else
      var init := xs[..|xs| - 1];
      var last := xs[|xs| - 1];
      assert xs == init + [last];
      if key(last) == k then WithKey(init, key, k) + [last] else WithKey(init, key, k)
  }

  /** The `defaultdict(list)` after appending each element of xs under its key. */
  function Grouped<T>(xs: seq<T>, key: T -> string): map<string, seq<T>>
  {
    if xs == [] then map[]
    else
      var g := Grouped(xs[..|xs| - 1], key);
      var last := xs[|xs| - 1];
      var k := key(last);
      g[k := (if k in g then g[k] else []) + [last]]
  }

  /** The dictionary holds a key exactly when some element has it, and under it
      those elements in order. */
  lemma {:induction false} GroupedIsWithKey<T(!new)>(xs: seq<T>, key: T -> string, k: string)
    ensures k in Grouped(xs, key) <==> WithKey(xs, key, k) != []
    ensures k in Grouped(xs, key) ==> Grouped(xs, key)[k] == WithKey(xs, key, k)
  {
    if xs != [] {
      GroupedIsWithKey(xs[..|xs| - 1], key, k);
    }
  }

  /** The grouping loop of get_dashboard. */
  method GroupBy<T>(xs: seq<T>, key: T -> string) returns (daily: map<string, seq<T>>)
    ensures daily == Grouped(xs, key)
  {
    daily := map[];
    for i := 0 to |xs|
      invariant daily == Grouped(xs[..i], key)
    {
      assert xs[..i + 1][..i] == xs[..i];
      var k := key(xs[i]);
      var list := if k in daily then daily[k] else [];
      daily := daily[k := list + [xs[i]]];
    }
    assert xs[..|xs|] == xs;
  }

  function Distances(acts: seq<Activity>): (r: seq<real>)
    ensures |r| == |acts|
  {
    seq(|acts|, i requires 0 <= i < |acts| => acts[i].totalDistance)
  }

  /** The activities' average paces that are not 0 (`if a.avg_pace`), in order. */
  function NonZeroPaces(acts: seq<Activity>): (r: seq<real>)
    ensures |r| <= |acts|
    ensures forall p :: p in r <==> p != 0.0 && exists a :: a in acts && a.avgPace == p
  {
    if acts == [] then []
    else
      var init := acts[..|acts| - 1];
      var last := acts[|acts| - 1];
      assert acts == init + [last];
      if last.avgPace != 0.0 then NonZeroPaces(init) + [last.avgPace] else NonZeroPaces(init)
  }

  /** Collecting the paces distributes over concatenation, so every activity's
      non-zero pace is counted once, in order, repeats included. */
  lemma {:induction false} NonZeroPacesAppend(xs: seq<Activity>, ys: seq<Activity>)
    ensures NonZeroPaces(xs + ys) == NonZeroPaces(xs) + NonZeroPaces(ys)
    decreases |ys|
  {
    if ys == [] {
      assert xs + ys == xs;
    } else {
      var ys', last := ys[..|ys| - 1], ys[|ys| - 1];
      var zs := xs + ys;
      assert zs[..|zs| - 1] == xs + ys' && zs[|zs| - 1] == last;
      NonZeroPacesAppend(xs, ys');
    }
  }

  /** The entry for the day with key k on which acts were run: total distance in km,
      and the mean of the non-zero paces, absent when there is none or it is 0. */
  function DaySummary(k: string, acts: seq<Activity>): (e: DayEntry)
    ensures e.date == k
    ensures e.distanceKm * 1000.0 == Sum(Distances(acts))
    ensures e.avgPace.Some? ==> e.avgPace.value != 0.0 && e.avgPace.value * |NonZeroPaces(acts)| as real == Sum(NonZeroPaces(acts))
    ensures e.avgPace.Some? <==> NonZeroPaces(acts) != [] && Sum(NonZeroPaces(acts)) != 0.0
    ensures acts == [] ==> e == DayEntry(k, 0.0, None)
  {
    var mean := Mean(NonZeroPaces(acts));
    DayEntry(k, Sum(Distances(acts)) / 1000.0, if mean.Some? && mean.value != 0.0 then mean else None)
  }

  /** The key f"{year}-{month:02d}-{day:02d}" of each day of month m of year y. */
  function DayKeys(y: int, m: int): int -> string
  {
    d => DateKey(y, m, d)
  }

  /** The entry for day d, whose key is keys(d): the summary of the activities whose
      own day key dayOf is that key. */
  function DayOfMonth(keys: int -> string, dayOf: Activity -> string, d: int, acts: seq<Activity>): DayEntry
  {
    DaySummary(keys(d), WithKey(acts, dayOf, keys(d)))
  }

  /** The entries for days 1 to n. */
  function MonthSeries(keys: int -> string, dayOf: Activity -> string, n: nat, acts: seq<Activity>): (days: seq<DayEntry>)
    ensures |days| == n
  {
    if n == 0 then [] else MonthSeries(keys, dayOf, n - 1, acts) + [DayOfMonth(keys, dayOf, n, acts)]
  }

  /** The i-th entry of the series is the summary of day i + 1. */
  lemma {:induction false} MonthSeriesEntry(keys: int -> string, dayOf: Activity -> string, n: nat, acts: seq<Activity>, i: nat)
    requires i < n
    ensures MonthSeries(keys, dayOf, n, acts)[i] == DayOfMonth(keys, dayOf, i + 1, acts)
  {
    if i < n - 1 {
      MonthSeriesEntry(keys, dayOf, n - 1, acts, i);
    }
  }

  /** The day loop of get_dashboard: one entry per day 1 to n, in order, looked up
      under the day's key in the grouped activities. */
  method BuildMonth(n: nat, keys: int -> string, dayOf: Activity -> string, acts: seq<Activity>,
                    daily: map<string, seq<Activity>>)
    returns (days: seq<DayEntry>)
    requires daily == Grouped(acts, dayOf)
    ensures days == MonthSeries(keys, dayOf, n, acts)
  {
    days := [];
    for day := 1 to n + 1
      invariant days == MonthSeries(keys, dayOf, day - 1, acts)
    {
      var k := keys(day);
      GroupedIsWithKey(acts, dayOf, k);
      var entry: DayEntry;
      if k in daily {
        entry := DaySummary(k, daily[k]);
      } else {
        entry := DayEntry(k, 0.0, None);
      }
      assert entry == DayOfMonth(keys, dayOf, day, acts);
      days := days + [entry];
    }
  }

  /** get_dashboard at the instant now. */
  method GetDashboard(db: Db, user: int, now: DateTime) returns (d: Dashboard)
    requires 1 <= now.month <= 12
    ensures d.upcomingRaces == UpcomingRaces(db.races, user)
    ensures d.recentActivities == RecentActivities(db.activities, user)
    ensures d.monthlyRunning == MonthSeries(DayKeys(now.year, now.month), StartDay, DaysInMonth(now.year, now.month),
                                            MonthActivities(db.activities, user, now))
  {
    var upcoming := UpcomingRaces(db.races, user);
    var acts := MonthActivities(db.activities, user, now);
    var daily := GroupBy(acts, StartDay);
    var days := BuildMonth(DaysInMonth(now.year, now.month), DayKeys(now.year, now.month), StartDay, acts, daily);
    var recent := RecentActivities(db.activities, user);
    d := Dashboard(upcoming, days, recent);
  }

  /** An activity of the user's counts towards day d of now's month exactly when it
      started on that calendar day; activities of other days, earlier months or later
      months count nowhere in the series. */
  lemma CountedOnItsDay(rows: seq<Activity>, user: int, now: DateTime, a: Activity, d: int)
    requires ValidDateTime(now) && StartTimesValid(rows)
    requires a in rows && a.userId == user
    requires 1 <= d <= DaysInMonth(now.year, now.month)
    ensures a in WithKey(MonthActivities(rows, user, now), StartDay, DayKeys(now.year, now.month)(d)) <==>
      a.startTime.year == now.year && a.startTime.month == now.month && a.startTime.day == d
  {
    var t := a.startTime;
    var i :| 0 <= i < |rows| && rows[i] == a;
    assert ValidDateTime(t);
    AtOrAfterFirstOfMonth(t, now);
    if DayKeyOf(t) == DateKey(now.year, now.month, d) {
      DateKeyInjective(t.year, t.month, t.day, now.year, now.month, d);
    }
  }
}
