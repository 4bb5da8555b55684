/** The activity list of frontend-ts/app/activities/page.tsx and of the older
    frontend/src/pages/Dashboard.jsx: the year and month pills derived from the
    loaded activities, the year/month filter, and the page state the handlers
    update (the loaded list, the upload flag, the pending delete, the selected
    pills and the toast). The API calls are parameters: what the server answered. */
module ActivityFilter {
  import opened Common
  import opened Text
  import opened Sorting
  import opened Format

  /** What the pages read from an activity: its id, its start instant in
      milliseconds, and the year and month (1 to 12) of that instant in the
      browser's time zone (getFullYear() and getMonth() + 1). */
  datatype Listed = Listed(id: int, startMs: int, year: int, month: int)

  /** A pill selection: "all" or one year or month. */
  datatype Choice = All | Only(value: int)

  predicate Matches(c: Choice, v: int)
  {
    c.All? || c.value == v
  }

  predicate StrictlyDescending(xs: seq<int>)
  {
    forall i, j :: 0 <= i < j < |xs| ==> xs[i] > xs[j]
  }

  /** `Array.from(new Set(xs))`: each value once, in order of first occurrence. */
  function Distinct(xs: seq<int>): (r: seq<int>)
    ensures forall x :: x in r <==> x in xs
    ensures forall i, j :: 0 <= i < j < |r| ==> r[i] != r[j]
  {
    if xs == [] then []
    else
      var init := xs[..|xs| - 1];
      var last := xs[|xs| - 1];
      assert xs == init + [last];
      if last in init then Distinct(init) else Distinct(init) + [last]
  }

  /** A sequence without repeats holds each value at most once. */
  lemma {:induction false} NoRepeatsCountOnce(s: seq<int>)
    requires forall i, j :: 0 <= i < j < |s| ==> s[i] != s[j]
    ensures forall x :: multiset(s)[x] <= 1
  {
    if s != [] {
      var init := s[..|s| - 1];
      NoRepeatsCountOnce(init);
      assert s == init + [s[|s| - 1]];
      assert s[|s| - 1] !in init;
    }
  }

  /** A value at two positions is counted at least twice. */
  lemma TwoPositionsCountTwice(s: seq<int>, i: nat, j: nat)
    requires i < j < |s| && s[i] == s[j]
    ensures multiset(s)[s[i]] >= 2
  {
    assert s == s[..j] + [s[j]] + s[j + 1..];
    assert s[i] in s[..j];
  }

  /** `Array.from(new Set(xs)).sort((a, b) => b - a)`: the values present, each
      once, largest first. */
  function DistinctDescending(xs: seq<int>): (r: seq<int>)
    ensures forall x :: x in r <==> x in xs
    ensures StrictlyDescending(r)
  {
    var d := Distinct(xs);
    var r := SortDesc(d, (x: int) => x);
    assert forall x :: x in r <==> x in d by {
      forall x ensures x in r <==> x in d {
        assert x in r <==> x in multiset(r);
        assert x in d <==> x in multiset(d);
      }
    }
    assert StrictlyDescending(r) by {
      NoRepeatsCountOnce(d);
      forall i, j | 0 <= i < j < |r| ensures r[i] > r[j] {
        if r[i] == r[j] {
          TwoPositionsCountTwice(r, i, j);
        }
      }
    }
    r
  }

  function YearsOf(acts: seq<Listed>): (r: seq<int>)
    ensures |r| == |acts| && forall i :: 0 <= i < |acts| ==> r[i] == acts[i].year
  {
    seq(|acts|, i requires 0 <= i < |acts| => acts[i].year)
  }

  function MonthsOf(acts: seq<Listed>): (r: seq<int>)
    ensures |r| == |acts| && forall i :: 0 <= i < |acts| ==> r[i] == acts[i].month
  {
    seq(|acts|, i requires 0 <= i < |acts| => acts[i].month)
  }

  /** The year pills: every year some activity starts in, once, latest first. */
  function Years(acts: seq<Listed>): (r: seq<int>)
    ensures StrictlyDescending(r)
    ensures forall y :: y in r <==> exists a :: a in acts && a.year == y
  {
    var ys := YearsOf(acts);
    assert forall y :: y in ys <==> exists a :: a in acts && a.year == y by {
      forall y ensures y in ys <==> exists a :: a in acts && a.year == y {
        if y in ys {
          var i :| 0 <= i < |ys| && ys[i] == y;
          assert acts[i] in acts;
        }
        if exists a :: a in acts && a.year == y {
          var a :| a in acts && a.year == y;
          var i :| 0 <= i < |acts| && acts[i] == a;
          assert ys[i] == y;
        }
      }
    }
    DistinctDescending(ys)
  }

  /** The activities whose year matches the year pill, in order. */
  function InYear(acts: seq<Listed>, year: Choice): (r: seq<Listed>)
    ensures forall a :: a in r <==> a in acts && Matches(year, a.year)
  {
    if acts == [] then []
    else
      var init := acts[..|acts| - 1];
      var last := acts[|acts| - 1];
      assert acts == init + [last];
      if Matches(year, last.year) then InYear(init, year) + [last] else InYear(init, year)
  }

  /** The month pills: every month some activity of the selected year (of any year
      under "all") starts in, once, latest first. */
  function Months(acts: seq<Listed>, year: Choice): (r: seq<int>)
    ensures StrictlyDescending(r)
    ensures forall m :: m in r <==> exists a :: a in acts && Matches(year, a.year) && a.month == m
  {
    var inYear := InYear(acts, year);
    var ms := MonthsOf(inYear);
    assert forall m :: m in ms <==> exists a :: a in acts && Matches(year, a.year) && a.month == m by {
      forall m ensures m in ms <==> exists a :: a in acts && Matches(year, a.year) && a.month == m {
        if m in ms {
          var i :| 0 <= i < |ms| && ms[i] == m;
          assert inYear[i] in inYear;
        }
        if exists a :: a in acts && Matches(year, a.year) && a.month == m {
          var a :| a in acts && Matches(year, a.year) && a.month == m;
          var i :| 0 <= i < |inYear| && inYear[i] == a;
          assert ms[i] == m;
        }
      }
    }
    DistinctDescending(ms)
  }

  /** filteredActivities: the activities matching both pills, in list order. */
  function Filtered(acts: seq<Listed>, year: Choice, month: Choice): (r: seq<Listed>)
    ensures |r| <= |acts|
  {
    if acts == [] then []
    else
      var r := Filtered(acts[..|acts| - 1], year, month);
      var last := acts[|acts| - 1];
      if Matches(year, last.year) && Matches(month, last.month) then r + [last] else r
  }

  /** An activity is shown exactly when it is loaded and matches both pills. */
  lemma {:induction false} FilteredMembership(acts: seq<Listed>, year: Choice, month: Choice, a: Listed)
    ensures a in Filtered(acts, year, month) <==> a in acts && Matches(year, a.year) && Matches(month, a.month)
  {
    if acts != [] {
      var init := acts[..|acts| - 1];
      FilteredMembership(init, year, month, a);
      assert acts == init + [acts[|acts| - 1]];
    }
  }

  /** Filtering keeps the list order: filtering a concatenation concatenates the
      filtered parts. */
  lemma {:induction false} FilteredAppend(xs: seq<Listed>, ys: seq<Listed>, year: Choice, month: Choice)
    ensures Filtered(xs + ys, year, month) == Filtered(xs, year, month) + Filtered(ys, year, month)
    decreases |ys|
  {
    if ys == [] {
      assert xs + ys == xs;
    } else {
      var ys', last := ys[..|ys| - 1], ys[|ys| - 1];
      var zs := xs + ys;
      assert zs[..|zs| - 1] == xs + ys' && zs[|zs| - 1] == last;
      FilteredAppend(xs, ys', year, month);
      if Matches(year, last.year) && Matches(month, last.month) {
        assert Filtered(zs, year, month) == Filtered(xs + ys', year, month) + [last];
        assert Filtered(ys, year, month) == Filtered(ys', year, month) + [last];
      } else {
        assert Filtered(zs, year, month) == Filtered(xs + ys', year, month);
        assert Filtered(ys, year, month) == Filtered(ys', year, month);
      }
    }
  }

  /** With both pills on "all" every activity is shown, in list order. */
  lemma {:induction false} FilteredAllShowsEverything(acts: seq<Listed>)
    ensures Filtered(acts, All, All) == acts
  {
    if acts != [] {
      FilteredAllShowsEverything(acts[..|acts| - 1]);
      assert acts == acts[..|acts| - 1] + [acts[|acts| - 1]];
    }
  }

  /** Every month pill offered for a year selects at least one activity. */
  lemma MonthPillsSelectSomething(acts: seq<Listed>, year: Choice, m: int)
    requires m in Months(acts, year)
    ensures Filtered(acts, year, Only(m)) != []
  {
    var a :| a in acts && Matches(year, a.year) && a.month == m;
    FilteredMembership(acts, year, Only(m), a);
  }

  /** Every year pill selects at least one activity. */
  lemma YearPillsSelectSomething(acts: seq<Listed>, y: int)
    requires y in Years(acts)
    ensures Filtered(acts, Only(y), All) != []
  {
    var a :| a in acts && a.year == y;
    FilteredMembership(acts, Only(y), All, a);
  }

  function StartMs(a: Listed): int
  {
    a.startMs
  }

  /** The order loadActivities gives the fetched list: latest start first, ties in
      the order received (Array#sort is stable). */
  function ByLatestStart(data: seq<Listed>): (r: seq<Listed>)
    ensures multiset(r) == multiset(data)
    ensures forall i, j :: 0 <= i < j < |r| ==> r[i].startMs >= r[j].startMs
  {
    var r := SortDesc(data, StartMs);
    assert forall i, j :: 0 <= i < j < |r| ==> StartMs(r[i]) >= StartMs(r[j]);
    r
  }

  /** Dashboard.jsx's upload test: the name must end in ".tcx" exactly as written. */
  function LegacyTcxCheck(name: string): (ok: bool)
    ensures ok <==> |name| >= 4 && name[|name| - 4..] == ".tcx"
  {
    EndsWith(name, ".tcx")
  }

  /** Every name the older page accepts, validateTCXFile accepts too. */
  lemma LegacyCheckIsStricter(name: string)
    requires LegacyTcxCheck(name)
    ensures ValidateTcxFile(name)
  {
    var n := |name|;
    assert name[n - 4..][0] == name[n - 4] && name[n - 4..][1] == name[n - 3];
    assert name[n - 4..][2] == name[n - 2] && name[n - 4..][3] == name[n - 1];
  }

  /** An upper-case extension is refused by the older page and accepted by
      validateTCXFile. */
  lemma UpperCaseExtensionOnlyValidated()
    ensures !LegacyTcxCheck("x.TCX") && ValidateTcxFile("x.TCX")
  {
    assert "x.TCX"[1..] == ".TCX";
    assert "x.TCX"[1..][1] == 'T';
  }

  datatype ToastKind = Info | Success | Warning | Error

  datatype Toast = Toast(message: string, kind: ToastKind)

  const OnlyTcxMessage: string := "TCX 파일만 업로드 가능합니다"
  const UploadedMessage: string := "업로드가 완료되었습니다"
  const UploadFailedMessage: string := "업로드에 실패했습니다"
  const DeletedMessage: string := "활동이 삭제되었습니다"
  const DeleteFailedMessage: string := "삭제에 실패했습니다"
  const LoadFailedMessage: string := "활동을 불러오지 못했습니다"

  /** How the upload request ended: accepted, or failed with the HTTP status and
      the `detail` of the error body when the server sent them. */
  datatype UploadAnswer = Uploaded | Failed(status: Option<int>, detail: Option<string>)

  /** The toast for a failed upload: a non-empty detail of a 409 is shown as a
      warning, every other failure as the generic error. */
  function FailureToast(status: Option<int>, detail: Option<string>): (t: Toast)
    ensures t.kind == Warning <==> status == Some(409) && detail.Some? && detail.value != ""
    ensures t.kind == Warning ==> t.message == detail.value
    ensures t.kind != Warning ==> t == Toast(UploadFailedMessage, Error)
  {
    if status == Some(409) && detail.Some? && detail.value != "" then Toast(detail.value, Warning)
    else Toast(UploadFailedMessage, Error)
  }

  /** The state of the activity list page. `legacy` tells the older Dashboard.jsx
      page (case-sensitive upload test, a toast when loading fails) from
      frontend-ts's page. */
  class ActivityListPage {
    const legacy: bool
    var activities: seq<Listed>
    var uploading: bool
    var confirmDeleteId: Option<int>
    var selectedYear: Choice
    var selectedMonth: Choice
    var toast: Option<Toast>

    constructor (legacy: bool)
      ensures this.legacy == legacy
      ensures activities == [] && !uploading && confirmDeleteId == None
      ensures selectedYear == All && selectedMonth == All && toast == None
    {
      this.legacy := legacy;
      activities, uploading, confirmDeleteId := [], false, None;
      selectedYear, selectedMonth, toast := All, All, None;
    }

    /** The year pills on display. */
    function YearPills(): seq<int>
      reads this
    {
      Years(activities)
    }

    /** The month pills on display. */
    function MonthPills(): seq<int>
      reads this
    {
      Months(activities, selectedYear)
    }

    /** The activities on display. */
    function Shown(): seq<Listed>
      reads this
    {
      Filtered(activities, selectedYear, selectedMonth)
    }

    /** The upload test this page applies. */
    function AcceptsName(name: string): bool
      reads this
    {
      if legacy then LegacyTcxCheck(name) else ValidateTcxFile(name)
    }

    /** loadActivities: the fetched list (None when the request failed) replaces
        the loaded one, latest start first; a failure keeps the old list, and on
        the older page shows an error toast. */
    method LoadActivities(fetched: Option<seq<Listed>>)
      modifies this
      ensures fetched.Some? ==> activities == ByLatestStart(fetched.value) && toast == old(toast)
      ensures fetched.None? ==> activities == old(activities)
      ensures fetched.None? ==> toast == if legacy then Some(Toast(LoadFailedMessage, Error)) else old(toast)
      ensures uploading == old(uploading) && confirmDeleteId == old(confirmDeleteId)
      ensures selectedYear == old(selectedYear) && selectedMonth == old(selectedMonth)
    {
      match fetched {
        case Some(data) =>
          activities := ByLatestStart(data);
        case None =>
          if legacy {
            toast := Some(Toast(LoadFailedMessage, Error));
          }
      }
    }

    /** handleUpload (uploadFile on the older page): a name the page's test refuses
        gets an error toast and no request. Otherwise the file is sent (`called`),
        a success toast is shown and the list reloaded, or the failure toast is
        shown; the upload flag ends cleared either way. */
    method HandleUpload(name: string, answer: UploadAnswer, reloaded: Option<seq<Listed>>) returns (called: bool)
      modifies this
      ensures called == AcceptsName(name)
      ensures !called ==>
        toast == Some(Toast(OnlyTcxMessage, Error)) && activities == old(activities) && uploading == old(uploading)
      ensures called && answer.Uploaded? && reloaded.Some? ==> activities == ByLatestStart(reloaded.value)
      ensures called && answer.Uploaded? && reloaded.None? ==> activities == old(activities)
      ensures called && answer.Uploaded? ==>
        toast == if legacy && reloaded.None? then Some(Toast(LoadFailedMessage, Error)) else Some(Toast(UploadedMessage, Success))
      ensures called && answer.Failed? ==>
        toast == Some(FailureToast(answer.status, answer.detail)) && activities == old(activities)
      ensures called ==> !uploading
      ensures confirmDeleteId == old(confirmDeleteId)
      ensures selectedYear == old(selectedYear) && selectedMonth == old(selectedMonth)
    {
      if !AcceptsName(name) {
        toast := Some(Toast(OnlyTcxMessage, Error));
        return false;
      }
      called := true;
      uploading := true;
      match answer {
        case Uploaded =>
          toast := Some(Toast(UploadedMessage, Success));
          LoadActivities(reloaded);
        case Failed(status, detail) =>
          toast := Some(FailureToast(status, detail));
      }
      uploading := false;
    }

    /** handleDelete: remembers which activity the confirmation dialog is about. */
    method HandleDelete(id: int)
      modifies this
      ensures confirmDeleteId == Some(id)
      ensures activities == old(activities) && uploading == old(uploading) && toast == old(toast)
      ensures selectedYear == old(selectedYear) && selectedMonth == old(selectedMonth)
    {
      confirmDeleteId := Some(id);
    }

    /** The dialog's cancel button. */
    method CancelDelete()
      modifies this
      ensures confirmDeleteId == None
      ensures activities == old(activities) && uploading == old(uploading) && toast == old(toast)
      ensures selectedYear == old(selectedYear) && selectedMonth == old(selectedMonth)
    {
      confirmDeleteId := None;
    }

    /** confirmDelete: with no pending id, or the falsy id 0, nothing happens and no
        request is made. Otherwise the pending id is sent (`requested`); success
        shows a toast and reloads the list, failure shows the error toast; the
        dialog closes either way. */
    method ConfirmDelete(deleted: bool, reloaded: Option<seq<Listed>>) returns (requested: Option<int>)
      modifies this
      ensures old(confirmDeleteId) == None || old(confirmDeleteId) == Some(0) ==>
        requested == None && unchanged(this)
      ensures old(confirmDeleteId) != None && old(confirmDeleteId) != Some(0) ==>
        && requested == old(confirmDeleteId)
        && confirmDeleteId == None
        && (deleted && reloaded.Some? ==> activities == ByLatestStart(reloaded.value))
        && (!deleted || reloaded.None? ==> activities == old(activities))
        && (deleted ==> toast == if legacy && reloaded.None? then Some(Toast(LoadFailedMessage, Error)) else Some(Toast(DeletedMessage, Success)))
        && (!deleted ==> toast == Some(Toast(DeleteFailedMessage, Error)))
      ensures uploading == old(uploading)
      ensures selectedYear == old(selectedYear) && selectedMonth == old(selectedMonth)
    {
      if confirmDeleteId == None || confirmDeleteId == Some(0) {
        return None;
      }
      requested := confirmDeleteId;
      if deleted {
        toast := Some(Toast(DeletedMessage, Success));
        LoadActivities(reloaded);
      } else {
        toast := Some(Toast(DeleteFailedMessage, Error));
      }
      confirmDeleteId := None;
    }

    /** handleYearChange (a year pill, "all" included): selects the year and puts
        the month back to "all". */
    method HandleYearChange(year: Choice)
      modifies this
      ensures selectedYear == year && selectedMonth == All
      ensures Shown() == Filtered(activities, year, All)
      ensures activities == old(activities) && uploading == old(uploading)
      ensures confirmDeleteId == old(confirmDeleteId) && toast == old(toast)
    {
      selectedYear := year;
      selectedMonth := All;
    }

    /** A month pill. */
    method HandleMonthChange(month: Choice)
      modifies this
      ensures selectedMonth == month && selectedYear == old(selectedYear)
      ensures activities == old(activities) && uploading == old(uploading)
      ensures confirmDeleteId == old(confirmDeleteId) && toast == old(toast)
    {
      selectedMonth := month;
    }
  }
}
