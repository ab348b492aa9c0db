/**
 Cohort retention: `compute_retention` of paxalia/cohorts.py. Sessions are grouped by the first period
 they were seen in, and each group is followed through the later periods. A period is the day number
 of its start date; the percentage shown beside each count is not modelled.
 */
module CohortRetention {
  import opened Prelude

  const MAX_PERIODS := 12

  type Session = nat

  type Period = nat

  datatype Row = Row(session: Session, period: Period)

  datatype Offset = Offset(offset: nat, retained: nat)

  datatype CohortRow = CohortRow(period: Period, size: nat, offsets: seq<Offset>)

  /** The periods each session was seen in. */
  type Visits = m: map<Session, set<Period>> | forall s :: s in m ==> m[s] != {}

  // ----- Minimum and order --------------------------------------------------

  predicate IsMin(s: set<Period>, m: Period) {
    m in s && forall x :: x in s ==> m <= x
  }

  lemma {:induction false} HasMin(s: set<Period>)
    requires s != {}
    ensures exists m :: IsMin(s, m)
    decreases |s|
  {
    assert |s| > 0;
    var x :| x in s;
    var rest := s - {x};
    if rest == {} {
      assert s == {x};
      assert IsMin(s, x);
    } else {
      HasMin(rest);
      var least :| IsMin(rest, least);
      assert s == rest + {x};
      assert IsMin(s, if least < x then least else x);
    }
  }

  function MinOf(s: set<Period>): (m: Period)
    requires s != {}
    ensures IsMin(s, m)
  {
    HasMin(s);
    var m :| IsMin(s, m);
    m
  }

  /** `sorted` of a set. */
  function Sorted(s: set<Period>): (ps: seq<Period>)
    ensures Ascending(ps) && forall p :: p in ps <==> p in s
    decreases |s|
  {
    if s == {} then []
    else
      var m := MinOf(s);
      var rest := Sorted(s - {m});
      assert forall i :: 0 <= i < |rest| ==> rest[i] in rest;
      [m] + rest
  }

  // ----- Cohorts ------------------------------------------------------------

  /** The first period of a session. */
  function First(visits: Visits, s: Session): (p: Period)
    requires s in visits
    ensures IsMin(visits[s], p)
  {
    MinOf(visits[s])
  }

  function Periods(visits: Visits): (ps: set<Period>)
    ensures forall p :: p in ps <==> exists s :: s in visits && p in visits[s]
  {
    set s, p | s in visits && p in visits[s] :: p
  }

  function FirstPeriods(visits: Visits): (ps: set<Period>)
    ensures ps <= Periods(visits)
  {
    set s | s in visits :: First(visits, s)
  }

  function AllPeriods(visits: Visits): (ps: seq<Period>) {
    Sorted(Periods(visits))
  }

  /** The sessions whose first period is `p`. */
  function Cohort(visits: Visits, p: Period): (members: set<Session>) {
    set s | s in visits && First(visits, s) == p
  }

  function Active(visits: Visits, q: Period): (sessions: set<Session>) {
    set s | s in visits && q in visits[s]
  }

  function Retained(visits: Visits, members: set<Session>, q: Period): (sessions: set<Session>) {
    set s | s in members && s in visits && q in visits[s]
  }

  /** `ps[-n:]`: the last `n`, everything for 0, and for a negative `n` all but the first `-n`. */
  function LastPeriods(ps: seq<Period>, n: int): (r: seq<Period>) {
    if n > 0 then (if n <= |ps| then ps[|ps| - n..] else ps)
    else if -n <= |ps| then ps[-n..]
    else []
  }

  /** The cohorts that the report shows. */
  function Shown(visits: Visits, n: int): (ps: seq<Period>) {
    LastPeriods(Sorted(FirstPeriods(visits)), n)
  }

  /** `period_index`: the place of a period in the sorted list. */
  function PeriodIndex(all: seq<Period>, p: Period): (k: nat)
    requires p in all
    ensures k < |all| && all[k] == p
  {
    if all[|all| - 1] == p then |all| - 1 else PeriodIndex(all[..|all| - 1], p)
  }

  /** The members still seen in the periods from place `i` on. */
  ghost predicate AreOffsets(visits: Visits, members: set<Session>, all: seq<Period>, i: nat, offsets: seq<Offset>) {
    && i + |offsets| <= |all|
    && forall k :: 0 <= k < |offsets| ==> offsets[k] == Offset(k, |Retained(visits, members, all[i + k])|)
  }

  /** `row` is the line of its cohort, when at most `n` periods are shown. */
  ghost predicate IsCohortRow(visits: Visits, n: int, row: CohortRow) {
    var all := AllPeriods(visits);
    && row.period in all
    && row.size == |Cohort(visits, row.period)|
    && var i := PeriodIndex(all, row.period);
       && |row.offsets| == Max(0, Min(|all| - i, n))
       && AreOffsets(visits, Cohort(visits, row.period), all, i, row.offsets)
  }

  /** The lines of the first cohorts in `shown`, in order. */
  ghost predicate AreLines(visits: Visits, n: int, shown: seq<Period>, results: seq<CohortRow>) {
    && |results| <= |shown|
    && forall j :: 0 <= j < |results| ==> results[j].period == shown[j] && IsCohortRow(visits, n, results[j])
  }

  ghost predicate IsReport(visits: Visits, n: int, results: seq<CohortRow>) {
    var shown := Shown(visits, n);
    |results| == |shown| && AreLines(visits, n, shown, results)
  }

  lemma LinesSnoc(visits: Visits, n: int, shown: seq<Period>, results: seq<CohortRow>, row: CohortRow)
    requires AreLines(visits, n, shown, results) && |results| < |shown|
    requires row.period == shown[|results|] && IsCohortRow(visits, n, row)
    ensures AreLines(visits, n, shown, results + [row])
  {
  }

  lemma ShownIsActive(visits: Visits, n: int, p: Period)
    requires p in Shown(visits, n)
    ensures p in FirstPeriods(visits) && p in AllPeriods(visits)
  {
  }

  /** The session was seen in the period, according to the first `n` rows. */
  ghost predicate WasSeen(rows: seq<Row>, n: nat, s: Session, p: Period)
    requires n <= |rows|
  {
    exists i :: 0 <= i < n && rows[i] == Row(s, p)
  }

  ghost predicate AreVisitsOf(rows: seq<Row>, n: nat, visits: Visits)
    requires n <= |rows|
  {
    forall s, p :: WasSeen(rows, n, s, p) <==> s in visits && p in visits[s]
  }

  /** `visits_by_session[session].add(period)`. */
  function AddVisit(visits: Visits, row: Row): (after: Visits) {
    visits[row.session := (if row.session in visits then visits[row.session] else {}) + {row.period}]
  }

  lemma VisitsSnoc(rows: seq<Row>, n: nat, visits: Visits)
    requires n < |rows| && AreVisitsOf(rows, n, visits)
    ensures AreVisitsOf(rows, n + 1, AddVisit(visits, rows[n]))
  {
    forall s, p ensures WasSeen(rows, n + 1, s, p) <==> WasSeen(rows, n, s, p) || rows[n] == Row(s, p) {
    }
  }

  /** The rows determine the visits. */
  lemma VisitsAreUnique(rows: seq<Row>, n: nat, a: Visits, b: Visits)
    requires n <= |rows| && AreVisitsOf(rows, n, a) && AreVisitsOf(rows, n, b)
    ensures a == b
  {
    forall s ensures s in a <==> s in b {
      assert s in a ==> exists p :: p in a[s] && WasSeen(rows, n, s, p);
      assert s in b ==> exists p :: p in b[s] && WasSeen(rows, n, s, p);
    }
    forall s | s in a ensures a[s] == b[s] {
      assert forall p :: p in a[s] <==> WasSeen(rows, n, s, p);
    }
  }

  method CollectVisits(rows: seq<Row>) returns (visits: Visits)
    ensures AreVisitsOf(rows, |rows|, visits)
  {
    visits := map[];
    for n := 0 to |rows|
      invariant AreVisitsOf(rows, n, visits)
    {
      VisitsSnoc(rows, n, visits);
      visits := AddVisit(visits, rows[n]);
    }
  }

  /** `cohort_sessions`: the members of each cohort, under its first period. */
  method CollectCohorts(visits: Visits) returns (cohorts: map<Period, set<Session>>)
    ensures cohorts.Keys == FirstPeriods(visits)
    ensures forall p :: p in cohorts ==> cohorts[p] == Cohort(visits, p)
  {
    cohorts := map[];
    var rest := visits.Keys;
    while rest != {}
      invariant rest <= visits.Keys
      invariant forall p :: p in cohorts <==> exists s :: s in visits.Keys - rest && First(visits, s) == p
      invariant forall p :: p in cohorts ==> cohorts[p] == Cohort(visits, p) - rest
      decreases |rest|
    {
      var s :| s in rest;
      var p := First(visits, s);
      var members := if p in cohorts then cohorts[p] else {};
      cohorts := cohorts[p := members + {s}];
      rest := rest - {s};
    }
  }

  /** The line of one cohort. */
  method FollowCohort(visits: Visits, members: set<Session>, all: seq<Period>, period: Period, n: int)
    returns (row: CohortRow)
    requires members == Cohort(visits, period) && all == AllPeriods(visits) && period in all
    ensures row.period == period && IsCohortRow(visits, n, row)
  {
    var i := PeriodIndex(all, period);
    var maxOffset := Min(|all| - 1 - i, n - 1);
    var offsets: seq<Offset> := [];
    for offset := 0 to Max(0, maxOffset + 1)
      invariant |offsets| == offset && AreOffsets(visits, members, all, i, offsets)
    {
      var target := all[i + offset];
      offsets := offsets + [Offset(offset, |Retained(visits, members, target)|)];
    }
    row := CohortRow(period, |members|, offsets);
  }

  /** The lines of the cohorts that are shown. */
  method FollowCohorts(visits: Visits, n: int) returns (results: seq<CohortRow>)
    ensures IsReport(visits, n, results)
  {
    var cohortSessions := CollectCohorts(visits);
    var all := AllPeriods(visits);
    var periods := LastPeriods(Sorted(cohortSessions.Keys), n);
    results := [];
    for j := 0 to |periods|
      invariant |results| == j && AreLines(visits, n, periods, results)
    {
      ShownIsActive(visits, n, periods[j]);
      var row := FollowCohort(visits, cohortSessions[periods[j]], all, periods[j], n);
      LinesSnoc(visits, n, periods, results, row);
      results := results + [row];
    }
  }

  method ComputeRetention(rows: seq<Row>, numPeriods: int) returns (results: seq<CohortRow>)
    ensures rows == [] ==> results == []
    ensures exists visits :: AreVisitsOf(rows, |rows|, visits) && IsReport(visits, Min(numPeriods, 12), results)
  {
    var n := Min(numPeriods, MAX_PERIODS);
    var visitsBySession := CollectVisits(rows);
    if |visitsBySession| == 0 {
      assert FirstPeriods(visitsBySession) == {} && IsReport(visitsBySession, n, []);
      return [];
    }
    results := FollowCohorts(visitsBySession, n);
  }

  // ----- What the report says -----------------------------------------------

  lemma LastPeriodsMeaning(ps: seq<Period>, n: int) returns (cut: nat)
    ensures var r := LastPeriods(ps, n);
            && cut + |r| == |ps| && (forall j :: 0 <= j < |r| ==> r[j] == ps[cut + j])
            && (n > 0 ==> |r| == Min(n, |ps|)) && (n <= 0 ==> |r| == Max(0, |ps| + n))
  {
    cut := |ps| - |LastPeriods(ps, n)|;
  }

  /** The end of an ascending list leaves nothing out that is later. */
  lemma EndOfAscending(all: seq<Period>, r: seq<Period>, cut: nat, j: nat, p: Period)
    requires Ascending(all) && cut + |r| == |all| && j < |r|
    requires forall i :: 0 <= i < |r| ==> r[i] == all[cut + i]
    ensures r[j] in all
    ensures forall i :: 0 <= i < j ==> r[i] < r[j]
    ensures p in all && r[j] <= p ==> p in r
  {
    assert r[j] == all[cut + j];
    if p in all && r[j] <= p {
      var i :| 0 <= i < |all| && all[i] == p;
      if i >= cut + j {
        assert r[i - cut] == p;
      }
    }
  }

  /** The end of which list the shown cohorts are. */
  lemma ShownEnds(visits: Visits, n: int) returns (all: seq<Period>, shown: seq<Period>, cut: nat)
    ensures shown == Shown(visits, n) && cut + |shown| == |all| == |FirstPeriods(visits)|
    ensures Ascending(all) && forall p :: p in all <==> p in FirstPeriods(visits)
    ensures forall i :: 0 <= i < |shown| ==> shown[i] == all[cut + i]
    ensures (n > 0 ==> |shown| == Min(n, |all|)) && (n <= 0 ==> |shown| == Max(0, |all| + n))
  {
    all := Sorted(FirstPeriods(visits));
    shown := LastPeriods(all, n);
    ListsAll(FirstPeriods(visits));
    cut := LastPeriodsMeaning(all, n);
  }

  /**
   The lines of the report are those of the newest `n` cohorts, oldest first. For 0 all cohorts are
   shown, for a negative number all but the `-n` oldest.
   */
  lemma NewestCohorts(visits: Visits, n: int, results: seq<CohortRow>)
    requires IsReport(visits, n, results)
    ensures n > 0 ==> |results| == Min(n, |FirstPeriods(visits)|)
    ensures n <= 0 ==> |results| == Max(0, |FirstPeriods(visits)| + n)
    ensures forall j :: 0 <= j < |results| ==> results[j].period in FirstPeriods(visits)
    ensures forall i, j :: 0 <= i < j < |results| ==> results[i].period < results[j].period
  {
    var all, shown, cut := ShownEnds(visits, n);
    PeriodsOfLines(visits, n, shown, results);
    forall j | 0 <= j < |results|
      ensures results[j].period == shown[j] && shown[j] in FirstPeriods(visits)
      ensures forall i :: 0 <= i < j ==> shown[i] < shown[j]
    {
      EndOfAscending(all, shown, cut, j, 0);
    }
  }

  /** A cohort newer than one that is shown is shown as well. */
  lemma NewerIsShown(visits: Visits, n: int, j: nat, p: Period)
    requires j < |Shown(visits, n)| && p in FirstPeriods(visits) && Shown(visits, n)[j] <= p
    ensures p in Shown(visits, n)
  {
    var all, shown, cut := ShownEnds(visits, n);
    EndOfAscending(all, shown, cut, j, p);
  }

  lemma PeriodsOfLines(visits: Visits, n: int, shown: seq<Period>, results: seq<CohortRow>)
    requires AreLines(visits, n, shown, results)
    ensures forall j :: 0 <= j < |results| ==> results[j].period == shown[j]
  {
  }

  /** The first period of a session is one it was seen in, and none is earlier; the first periods are just these. */
  lemma FirstMeaning(visits: Visits, p: Period)
    ensures forall s :: s in visits ==> First(visits, s) in visits[s] && forall q :: q in visits[s] ==> First(visits, s) <= q
    ensures p in FirstPeriods(visits) <==> exists s :: s in visits && First(visits, s) == p
  {
  }

  /** Every session belongs to the cohort of its first period and to no other. */
  lemma OneCohortEach(visits: Visits, s: Session)
    requires s in visits
    ensures forall p :: s in Cohort(visits, p) <==> p == First(visits, s)
    ensures First(visits, s) in FirstPeriods(visits)
  {
  }

  /** How many sessions of `pool` first came in each of the first `k` periods, added up. */
  function SumBy(visits: Visits, pool: set<Session>, ps: seq<Period>, k: nat): (n: nat)
    requires k <= |ps|
  {
    if k == 0 then 0 else SumBy(visits, pool, ps, k - 1) + |pool * Cohort(visits, ps[k - 1])|
  }

  /** The sessions of `pool` that first came in one of the periods. */
  function StartedIn(visits: Visits, pool: set<Session>, ps: set<Period>): (r: set<Session>) {
    set s | s in pool && s in visits && First(visits, s) in ps
  }

  function FirstOf(ps: seq<Period>, k: nat): (r: set<Period>)
    requires k <= |ps|
  {
    if k == 0 then {} else FirstOf(ps, k - 1) + {ps[k - 1]}
  }

  lemma {:induction false} FirstOfMeaning(ps: seq<Period>, k: nat)
    requires k <= |ps|
    ensures forall p :: p in FirstOf(ps, k) <==> exists i :: 0 <= i < k && ps[i] == p
  {
    if k == 0 {
    } else {
      FirstOfMeaning(ps, k - 1);
    }
  }

  lemma StartedSnoc(visits: Visits, pool: set<Session>, ps: set<Period>, p: Period)
    requires p !in ps
    ensures |StartedIn(visits, pool, ps + {p})| == |StartedIn(visits, pool, ps)| + |pool * Cohort(visits, p)|
  {
    assert StartedIn(visits, pool, ps + {p}) == StartedIn(visits, pool, ps) + pool * Cohort(visits, p);
    assert StartedIn(visits, pool, ps) !! pool * Cohort(visits, p);
  }

  lemma {:induction false} CohortsSoFar(visits: Visits, pool: set<Session>, ps: seq<Period>, k: nat)
    requires Distinct(ps) && k <= |ps|
    ensures SumBy(visits, pool, ps, k) == |StartedIn(visits, pool, FirstOf(ps, k))|
  {
    if k == 0 {
      assert StartedIn(visits, pool, {}) == {};
    } else {
      CohortsSoFar(visits, pool, ps, k - 1);
      FirstOfMeaning(ps, k - 1);
      StartedSnoc(visits, pool, FirstOf(ps, k - 1), ps[k - 1]);
    }
  }

  /** Cohorts are disjoint, so their sizes add up. */
  lemma CohortsAddUp(visits: Visits, pool: set<Session>, ps: seq<Period>)
    requires Distinct(ps)
    ensures SumBy(visits, pool, ps, |ps|) == |StartedIn(visits, pool, Elements(ps))|
  {
    CohortsSoFar(visits, pool, ps, |ps|);
    FirstOfMeaning(ps, |ps|);
    assert FirstOf(ps, |ps|) == Elements(ps);
  }

  function TotalSize(results: seq<CohortRow>, k: nat): (n: nat)
    requires k <= |results|
  {
    if k == 0 then 0 else TotalSize(results, k - 1) + results[k - 1].size
  }

  function RetainedAt(row: CohortRow, offset: int): (n: nat) {
    if 0 <= offset < |row.offsets| then row.offsets[offset].retained else 0
  }

  /** What a line shows for the period at place `m` of the list of periods. */
  function LineAt(all: seq<Period>, row: CohortRow, m: nat): (n: nat) {
    if row.period in all then RetainedAt(row, m - PeriodIndex(all, row.period)) else 0
  }

  /** What the first `k` lines show for that period. */
  function TotalRetainedAt(all: seq<Period>, results: seq<CohortRow>, k: nat, m: nat): (n: nat)
    requires k <= |results|
  {
    if k == 0 then 0 else TotalRetainedAt(all, results, k - 1, m) + LineAt(all, results[k - 1], m)
  }

  /** Nobody comes back before being seen first: the whole cohort counts at offset 0, and never more. */
  lemma LineBounds(visits: Visits, n: int, row: CohortRow)
    requires IsCohortRow(visits, n, row)
    ensures row.offsets != [] ==> row.offsets[0].retained == row.size
    ensures forall k :: 0 <= k < |row.offsets| ==> row.offsets[k].offset == k && row.offsets[k].retained <= row.size
  {
    var members := Cohort(visits, row.period);
    var all := AllPeriods(visits);
    forall k | 0 <= k < |row.offsets|
      ensures row.offsets[k].retained <= row.size
      ensures k == 0 ==> row.offsets[0].retained == row.size
    {
      var target := all[PeriodIndex(all, row.period) + k];
      SubsetSize(Retained(visits, members, target), members);
      assert k == 0 ==> Retained(visits, members, target) == members;
    }
  }

  lemma ShownIsDistinct(visits: Visits, n: int)
    ensures Distinct(Shown(visits, n))
  {
  }

  /** With no more cohorts than the report shows, none is cut off. */
  lemma AllShown(visits: Visits, n: int)
    requires n == 0 || n >= |FirstPeriods(visits)|
    ensures Shown(visits, n) == Sorted(FirstPeriods(visits))
  {
    ListsAll(FirstPeriods(visits));
  }

  lemma ListsAll(ps: set<Period>)
    ensures |Sorted(ps)| == |ps|
  {
  }

  lemma SizeOfLine(visits: Visits, n: int, row: CohortRow)
    requires IsCohortRow(visits, n, row)
    ensures row.size == |visits.Keys * Cohort(visits, row.period)|
  {
    assert visits.Keys * Cohort(visits, row.period) == Cohort(visits, row.period);
  }

  lemma {:induction false} SizesAreSums(visits: Visits, pool: set<Session>, shown: seq<Period>, results: seq<CohortRow>,
                                        k: nat)
    requires k <= |results| <= |shown|
    requires forall j :: 0 <= j < |results| ==> results[j].size == |pool * Cohort(visits, shown[j])|
    ensures TotalSize(results, k) == SumBy(visits, pool, shown, k)
  {
    if k == 0 {
    } else {
      SizesAreSums(visits, pool, shown, results, k - 1);
    }
  }

  lemma SizesBy(visits: Visits, n: int, shown: seq<Period>, results: seq<CohortRow>)
    requires AreLines(visits, n, shown, results)
    ensures TotalSize(results, |results|) == SumBy(visits, visits.Keys, shown, |results|)
  {
    forall j | 0 <= j < |results| ensures results[j].size == |visits.Keys * Cohort(visits, shown[j])| {
      SizeOfLine(visits, n, results[j]);
    }
    SizesAreSums(visits, visits.Keys, shown, results, |results|);
  }

  /** The sizes count every session of a shown cohort once, hence all sessions when no cohort is cut off. */
  lemma SizesAddUp(visits: Visits, n: int, results: seq<CohortRow>)
    requires IsReport(visits, n, results)
    ensures TotalSize(results, |results|) == |StartedIn(visits, visits.Keys, Elements(Shown(visits, n)))|
    ensures n == 0 || n >= |FirstPeriods(visits)| ==> TotalSize(results, |results|) == |visits|
  {
    var shown := Shown(visits, n);
    SizesBy(visits, n, shown, results);
    ShownIsDistinct(visits, n);
    CohortsAddUp(visits, visits.Keys, shown);
    if n == 0 || n >= |FirstPeriods(visits)| {
      AllShown(visits, n);
      AllStarted(visits);
    }
  }

  lemma AllStarted(visits: Visits)
    ensures StartedIn(visits, visits.Keys, Elements(Sorted(FirstPeriods(visits)))) == visits.Keys
  {
  }

  ghost predicate IsRecent(visits: Visits, n: int, m: nat, s: Session)
    requires s in visits
  {
    m - PeriodIndex(AllPeriods(visits), First(visits, s)) < n
  }

  /** The sessions active in the period at place `m` that began fewer than `n` periods earlier. */
  ghost function Recent(visits: Visits, n: int, m: nat): (r: set<Session>)
    requires m < |AllPeriods(visits)|
  {
    set s | s in Active(visits, AllPeriods(visits)[m]) && IsRecent(visits, n, m, s)
  }

  lemma RecentInCohort(visits: Visits, n: int, p: Period, m: nat)
    requires m < |AllPeriods(visits)| && p in AllPeriods(visits)
    ensures var all := AllPeriods(visits);
            Recent(visits, n, m) * Cohort(visits, p)
            == if 0 <= m - PeriodIndex(all, p) < n then Retained(visits, Cohort(visits, p), all[m]) else {}
  {
  }

  lemma OffsetMeaning(
    visits: Visits, n: int, members: set<Session>, all: seq<Period>, i: nat, row: CohortRow, m: nat)
    requires AreOffsets(visits, members, all, i, row.offsets) && i < |all| && m < |all|
    requires |row.offsets| == Max(0, Min(|all| - i, n))
    ensures RetainedAt(row, m - i) == |if 0 <= m - i < n then Retained(visits, members, all[m]) else {}|
  {
  }

  lemma LineAtPlace(all: seq<Period>, row: CohortRow, m: nat)
    requires row.period in all
    ensures LineAt(all, row, m) == RetainedAt(row, m - PeriodIndex(all, row.period))
  {
  }

  lemma LineMeaning(visits: Visits, n: int, row: CohortRow, m: nat)
    requires IsCohortRow(visits, n, row) && m < |AllPeriods(visits)|
    ensures LineAt(AllPeriods(visits), row, m) == |Recent(visits, n, m) * Cohort(visits, row.period)|
  {
    var all := AllPeriods(visits);
    LineAtPlace(all, row, m);
    RecentInCohort(visits, n, row.period, m);
    var i := PeriodIndex(all, row.period);
    OffsetMeaning(visits, n, Cohort(visits, row.period), all, i, row, m);
  }

  lemma {:induction false} LinesAddUp(
    visits: Visits, pool: set<Session>, all: seq<Period>, shown: seq<Period>, results: seq<CohortRow>, k: nat, m: nat)
    requires k <= |results| <= |shown|
    requires forall j :: 0 <= j < |results| ==> LineAt(all, results[j], m) == |pool * Cohort(visits, shown[j])|
    ensures TotalRetainedAt(all, results, k, m) == SumBy(visits, pool, shown, k)
  {
    if k == 0 {
    } else {
      LinesAddUp(visits, pool, all, shown, results, k - 1, m);
      assert LineAt(all, results[k - 1], m) == |pool * Cohort(visits, shown[k - 1])|;
    }
  }

  lemma RetainedBy(visits: Visits, n: int, shown: seq<Period>, results: seq<CohortRow>, m: nat)
    requires AreLines(visits, n, shown, results) && m < |AllPeriods(visits)|
    ensures TotalRetainedAt(AllPeriods(visits), results, |results|, m)
            == SumBy(visits, Recent(visits, n, m), shown, |results|)
  {
    forall j | 0 <= j < |results|
      ensures LineAt(AllPeriods(visits), results[j], m) == |Recent(visits, n, m) * Cohort(visits, shown[j])|
    {
      LineMeaning(visits, n, results[j], m);
    }
    LinesAddUp(visits, Recent(visits, n, m), AllPeriods(visits), shown, results, |results|, m);
  }

  lemma SubsetIsWhole<T>(a: set<T>, b: set<T>)
    requires a <= b
    ensures |a| == |b| <==> a == b
  {
    assert b == a + (b - a);
  }

  /**
   Read down a calendar period, the report counts once each session active in it whose cohort is
   shown and began fewer than `n` periods earlier. It counts all the active sessions if and only if
   they are all of that kind.
   */
  lemma RetainedAddUp(visits: Visits, n: int, results: seq<CohortRow>, m: nat)
    requires IsReport(visits, n, results) && m < |AllPeriods(visits)|
    ensures var active := Active(visits, AllPeriods(visits)[m]);
            var total := TotalRetainedAt(AllPeriods(visits), results, |results|, m);
            && total == |StartedIn(visits, Recent(visits, n, m), Elements(Shown(visits, n)))|
            && (total == |active| <==>
                forall s :: s in active ==> First(visits, s) in Shown(visits, n) && IsRecent(visits, n, m, s))
  {
    var shown := Shown(visits, n);
    RetainedBy(visits, n, shown, results, m);
    ShownIsDistinct(visits, n);
    CohortsAddUp(visits, Recent(visits, n, m), shown);
    SubsetIsWhole(StartedIn(visits, Recent(visits, n, m), Elements(shown)), Active(visits, AllPeriods(visits)[m]));
  }

  /** With no more active periods than the report shows, every column adds up to its active sessions. */
  lemma FewPeriodsAddUp(visits: Visits, n: int, results: seq<CohortRow>, m: nat)
    requires IsReport(visits, n, results) && m < |AllPeriods(visits)| <= n
    ensures TotalRetainedAt(AllPeriods(visits), results, |results|, m) == |Active(visits, AllPeriods(visits)[m])|
  {
    RetainedAddUp(visits, n, results, m);
    ListsAll(Periods(visits));
    SubsetSize(FirstPeriods(visits), Periods(visits));
    AllShown(visits, n);
    forall s | s in Active(visits, AllPeriods(visits)[m])
      ensures First(visits, s) in Shown(visits, n) && IsRecent(visits, n, m, s)
    {
      OneCohortEach(visits, s);
    }
  }

  lemma MinComesFirst(ps: set<Period>)
    requires ps != {}
    ensures PeriodIndex(Sorted(ps), MinOf(ps)) == 0
  {
  }

  /** With one session only, its periods are all the periods. */
  lemma AloneInReport(periods: set<Period>)
    requires periods != {}
    ensures var visits: Visits := map[1 := periods];
            && Periods(visits) == periods
            && First(visits, 1) == MinOf(periods)
            && forall p :: p in periods ==> Active(visits, p) == {1}
  {
    var visits: Visits := map[1 := periods];
    forall p ensures p in Periods(visits) <==> p in periods {
      assert 1 in visits && visits[1] == periods;
    }
  }

  /**
   What counts is the capped number of periods: a session seen in each of 13 periods is missing from the
   last of them although 13 periods were asked for.
   */
  lemma CapHidesReturn(periods: set<Period>, visits: Visits, results: seq<CohortRow>)
    requires |periods| == 13 && visits == map[1 := periods]
    requires IsReport(visits, Min(13, MAX_PERIODS), results)
    ensures |AllPeriods(visits)| == 13 && |Active(visits, AllPeriods(visits)[12])| == 1
    ensures TotalRetainedAt(AllPeriods(visits), results, |results|, 12) == 0
  {
    AloneInReport(periods);
    ListsAll(periods);
    assert AllPeriods(visits)[12] in AllPeriods(visits);
    MinComesFirst(periods);
    var active := Active(visits, AllPeriods(visits)[12]);
    assert 1 in active && !IsRecent(visits, MAX_PERIODS, 12, 1);
    RetainedAddUp(visits, MAX_PERIODS, results, 12);
    assert Recent(visits, MAX_PERIODS, 12) == {};
    assert StartedIn(visits, {}, Elements(Shown(visits, MAX_PERIODS))) == {};
  }
}
