/**
 Availability incidents: `record_check` of paxalia/uptime.py.

 A monitor keeps its checks and its incidents. Every new check re-reads a
 bounded window of recent checks and may open one incident or recover it.
 The meaning of that online machine is given twice, independently of it:
 `Chain` cuts a whole history into outages from left to right, and
 `OutageConfirmed` says in one sentence when an outage is under way.
 */
module Incidents {
  import opened Prelude

  datatype Status = Up | Down | Unknown

  datatype Check = Check(status: Status, checkedAt: int)

  datatype State = Open | Acknowledged | Recovered

  /** One row of the incident table. */
  datatype Incident = Incident(
    state: State,
    startedAt: int,
    firstConfirmedFailureAt: int,
    lastConfirmedHealthyAt: Option<int>,
    firstConfirmedRecoveryAt: Option<int>,
    resolvedAt: Option<int>)

  /** An outage by position: the first failed check and, once recovered, the first healthy one. */
  datatype Span = Span(first: nat, recovery: Option<nat>)

  datatype Transition = NoTransition | IncidentOpened | IncidentRecovered

  /** The stored threshold as the code uses it: 0 means 2, and the result is within 1..20. */
  function Clamped(raw: int): (r: nat)
    ensures 1 <= raw <= 20 ==> r == raw
    ensures raw == 0 ==> r == 2
    ensures raw > 20 ==> r == 20
    ensures raw < 0 ==> r == 1
  {
    Max(1, Min(20, if raw == 0 then 2 else raw))
  }

  // ----- Histories ---------------------------------------------------------

  /** The `k` checks beginning at `i` all have status `s`. */
  predicate RunAt(h: seq<Check>, i: int, k: nat, s: Status) {
    0 <= i && i + k <= |h| && forall m :: i <= m < i + k ==> h[m].status == s
  }

  /** Length of the longest suffix of `h` whose checks all have status `s`. */
  function Trailing(h: seq<Check>, s: Status): (k: nat)
    ensures k <= |h|
  {
    if h == [] || h[|h| - 1].status != s then 0 else 1 + Trailing(h[..|h| - 1], s)
  }

  lemma {:induction false} TrailingMeaning(h: seq<Check>, s: Status)
    ensures RunAt(h, |h| - Trailing(h, s), Trailing(h, s), s)
    ensures Trailing(h, s) < |h| ==> h[|h| - Trailing(h, s) - 1].status != s
  {
    if h != [] && h[|h| - 1].status == s {
      var p := h[..|h| - 1];
      TrailingMeaning(p, s);
      forall i | |h| - Trailing(h, s) <= i < |h| ensures h[i].status == s {
        assert i < |p| ==> h[i] == p[i];
      }
    }
  }

  /** A run of `k` checks of status `s` at `i` that ends the history is within the trailing streak. */
  lemma TrailingAtLeast(h: seq<Check>, s: Status, k: nat)
    requires RunAt(h, |h| - k, k, s)
    ensures Trailing(h, s) >= k
  {
    TrailingMeaning(h, s);
  }

  lemma DisjointRuns(h: seq<Check>, i: nat, k: nat, s: Status, j: nat, l: nat, t: Status)
    requires k >= 1 && l >= 1 && s != t
    requires RunAt(h, i, k, s) && RunAt(h, j, l, t)
    ensures i + k <= j || j + l <= i
  {
    var atI, atJ := h[i].status, h[j].status;
  }

  predicate Increasing(h: seq<Check>) {
    |h| <= 1 || (h[|h| - 2].checkedAt < h[|h| - 1].checkedAt && Increasing(h[..|h| - 1]))
  }

  lemma {:induction false} IncreasingMeaning(h: seq<Check>, i: nat, j: nat)
    requires Increasing(h) && i < j < |h|
    ensures h[i].checkedAt < h[j].checkedAt
    decreases |h|
  {
    var p := h[..|h| - 1];
    if j < |p| {
      IncreasingMeaning(p, i, j);
    } else if i < |p| - 1 {
      IncreasingMeaning(p, i, |p| - 1);
    }
  }

  // ----- The machine over the whole history --------------------------------

  predicate Ongoing(spans: seq<Span>) {
    spans != [] && spans[|spans| - 1].recovery.None?
  }

  /** One step: `h` is the history including the newest check. */
  function Next(failures: nat, recoveries: nat, spans: seq<Span>, h: seq<Check>): (r: seq<Span>)
    requires h != []
  {
    var newest := h[|h| - 1].status;
    if newest == Down && Trailing(h, Down) >= failures && !Ongoing(spans) then
      spans + [Span(|h| - Trailing(h, Down), None)]
    else if newest == Up && Trailing(h, Up) >= recoveries && Ongoing(spans) then
      spans[|spans| - 1 := Span(spans[|spans| - 1].first, Some(|h| - Trailing(h, Up)))]
    else
      spans
  }

  function Spans(failures: nat, recoveries: nat, h: seq<Check>): (r: seq<Span>) {
    if h == [] then [] else Next(failures, recoveries, Spans(failures, recoveries, h[..|h| - 1]), h)
  }

  // ----- What a history means ----------------------------------------------

  /** `i` is the earliest position, not before `from`, at which `k` checks of status `s` begin. */
  ghost predicate IsFirstRun(h: seq<Check>, from: nat, i: nat, k: nat, s: Status) {
    from <= i && RunAt(h, i, k, s) && forall j :: from <= j < i ==> !RunAt(h, j, k, s)
  }

  ghost predicate NoRun(h: seq<Check>, from: nat, k: nat, s: Status) {
    forall j :: from <= j ==> !RunAt(h, j, k, s)
  }

  /**
   Reading `h` from left to right from `from`: an outage begins at the earliest
   run of `failures` failed checks, ends at the earliest run of `recoveries`
   healthy checks after that run, and so on; `spans` lists them all.
   */
  ghost predicate Chain(failures: nat, recoveries: nat, h: seq<Check>, spans: seq<Span>, from: nat)
    decreases |spans|
  {
    if spans == [] then
      NoRun(h, from, failures, Down)
    else
      var s := spans[0];
      && IsFirstRun(h, from, s.first, failures, Down)
      && match s.recovery {
           case None => |spans| == 1 && NoRun(h, s.first + failures, recoveries, Up)
           case Some(j) =>
             && IsFirstRun(h, s.first + failures, j, recoveries, Up)
             && Chain(failures, recoveries, h, spans[1..], j + recoveries)
         }
  }

  /** Some run of `failures` failed checks has no run of `recoveries` healthy checks anywhere after it. */
  ghost predicate OutageConfirmed(failures: nat, recoveries: nat, h: seq<Check>) {
    exists i: nat :: RunAt(h, i, failures, Down) && NoRun(h, i + failures, recoveries, Up)
  }

  /** A new check `c` turns a run-free stretch into one with at most one run, the newest. */
  lemma NoRunSnoc(h: seq<Check>, c: Check, from: nat, k: nat, s: Status)
    requires k >= 1 && from <= |h|
    requires NoRun(h, from, k, s)
    requires from == 0 || h[from - 1].status != s
    ensures Trailing(h + [c], s) >= k ==> IsFirstRun(h + [c], from, |h| + 1 - k, k, s) && Trailing(h + [c], s) == k
    ensures Trailing(h + [c], s) < k ==> NoRun(h + [c], from, k, s)
  {
    var g := h + [c];
    var t := Trailing(g, s);
    TrailingMeaning(g, s);
    assert forall i :: 0 <= i < |h| ==> g[i] == h[i];
    forall j | from <= j && j + k <= |h| ensures !RunAt(g, j, k, s) {
      assert !RunAt(h, j, k, s);
    }
    assert t >= k ==> |g| - t >= from && RunAt(g, |g| - k, k, s);
    assert t > k ==> RunAt(h, |g| - t, k, s);
    if RunAt(g, |g| - k, k, s) {
      TrailingAtLeast(g, s, k);
    }
  }

  /** A step never touches an outage that is over. */
  lemma NextCons(failures: nat, recoveries: nat, spans: seq<Span>, h: seq<Check>)
    requires h != [] && spans != [] && spans[0].recovery.Some?
    ensures var r := Next(failures, recoveries, spans, h);
            r != [] && r[0] == spans[0] && r[1..] == Next(failures, recoveries, spans[1..], h)
  {
    assert Ongoing(spans) <==> Ongoing(spans[1..]);
  }

  /** A step while an outage is under way. */
  lemma OngoingSnoc(failures: nat, recoveries: nat, h: seq<Check>, c: Check, s: Span, from: nat)
    requires failures >= 1 && recoveries >= 1
    requires s.recovery.None? && Chain(failures, recoveries, h, [s], from)
    ensures Chain(failures, recoveries, h + [c], Next(failures, recoveries, [s], h + [c]), from)
  {
    var g := h + [c];
    var mid := s.first + failures;
    FirstRunSnoc(h, c, from, s.first, failures, Down);
    assert h[mid - 1].status == Down;
    NoRunSnoc(h, c, mid, recoveries, Up);
    var r := Next(failures, recoveries, [s], g);
    if r != [s] {
      var j := |g| - recoveries;
      assert r == [Span(s.first, Some(j))] && r[1..] == [];
      assert NoRun(g, j + recoveries, failures, Down);
    }
  }

  /** A step before any outage. */
  lemma QuietSnoc(failures: nat, recoveries: nat, h: seq<Check>, c: Check, from: nat)
    requires failures >= 1 && recoveries >= 1 && from <= |h|
    requires from == 0 || h[from - 1].status == Up
    requires Chain(failures, recoveries, h, [], from)
    ensures Chain(failures, recoveries, h + [c], Next(failures, recoveries, [], h + [c]), from)
  {
    var g := h + [c];
    NoRunSnoc(h, c, from, failures, Down);
    var r := Next(failures, recoveries, [], g);
    if r != [] {
      assert r == [Span(|g| - failures, None)];
      assert NoRun(g, |g|, recoveries, Up);
    }
  }

  /** One machine step keeps the left-to-right reading. */
  lemma {:induction false} ChainSnoc(failures: nat, recoveries: nat, h: seq<Check>, c: Check, spans: seq<Span>, from: nat)
    requires failures >= 1 && recoveries >= 1 && from <= |h|
    requires from == 0 || h[from - 1].status == Up
    requires Chain(failures, recoveries, h, spans, from)
    ensures Chain(failures, recoveries, h + [c], Next(failures, recoveries, spans, h + [c]), from)
    decreases |spans|
  {
    if spans == [] {
      QuietSnoc(failures, recoveries, h, c, from);
    } else if spans[0].recovery.None? {
      assert spans == [spans[0]];
      OngoingSnoc(failures, recoveries, h, c, spans[0], from);
    } else {
      var s := spans[0];
      var j := s.recovery.value;
      FirstRunSnoc(h, c, from, s.first, failures, Down);
      FirstRunSnoc(h, c, s.first + failures, j, recoveries, Up);
      assert h[j + recoveries - 1].status == Up;
      ChainSnoc(failures, recoveries, h, c, spans[1..], j + recoveries);
      NextCons(failures, recoveries, spans, h + [c]);
    }
  }

  lemma FirstRunSnoc(h: seq<Check>, c: Check, from: nat, i: nat, k: nat, s: Status)
    requires IsFirstRun(h, from, i, k, s)
    ensures IsFirstRun(h + [c], from, i, k, s)
  {
    var g := h + [c];
    assert forall m :: 0 <= m < |h| ==> g[m] == h[m];
    forall j | from <= j < i ensures !RunAt(g, j, k, s) {
      assert !RunAt(h, j, k, s);
    }
  }

  /** The machine computes the left-to-right reading of every history. */
  lemma {:induction false} SpansAreChain(failures: nat, recoveries: nat, h: seq<Check>)
    requires failures >= 1 && recoveries >= 1
    ensures Chain(failures, recoveries, h, Spans(failures, recoveries, h), 0)
  {
    if h == [] {
    } else {
      var p := h[..|h| - 1];
      SpansAreChain(failures, recoveries, p);
      assert h == p + [h[|h| - 1]];
      ChainSnoc(failures, recoveries, p, h[|h| - 1], Spans(failures, recoveries, p), 0);
    }
  }

  lemma {:induction false} ChainUnique(failures: nat, recoveries: nat, h: seq<Check>, a: seq<Span>, b: seq<Span>, from: nat)
    requires Chain(failures, recoveries, h, a, from) && Chain(failures, recoveries, h, b, from)
    ensures a == b
    decreases |a|
  {
    if a != [] && b != [] {
      var s, t := a[0], b[0];
      assert s.first == t.first;
      if s.recovery.Some? && t.recovery.Some? {
        assert s.recovery.value == t.recovery.value;
        ChainUnique(failures, recoveries, h, a[1..], b[1..], s.recovery.value + recoveries);
        assert a == [s] + a[1..] && b == [t] + b[1..];
      }
    }
  }

  /** The reading is a definition of the machine: it holds of exactly one list of spans. */
  lemma SpansMeaning(failures: nat, recoveries: nat, h: seq<Check>, spans: seq<Span>)
    requires failures >= 1 && recoveries >= 1
    ensures spans == Spans(failures, recoveries, h) <==> Chain(failures, recoveries, h, spans, 0)
  {
    SpansAreChain(failures, recoveries, h);
    if Chain(failures, recoveries, h, spans, 0) {
      ChainUnique(failures, recoveries, h, spans, Spans(failures, recoveries, h), 0);
    }
  }

  lemma {:induction false} ChainOngoing(failures: nat, recoveries: nat, h: seq<Check>, spans: seq<Span>, from: nat)
    requires failures >= 1 && recoveries >= 1
    requires Chain(failures, recoveries, h, spans, from)
    ensures Ongoing(spans) <==>
            exists i: nat :: from <= i && RunAt(h, i, failures, Down) && NoRun(h, i + failures, recoveries, Up)
    decreases |spans|
  {
    if spans == [] {
    } else {
      var s := spans[0];
      match s.recovery {
        case None =>
          assert RunAt(h, s.first, failures, Down) && NoRun(h, s.first + failures, recoveries, Up);
        case Some(j) =>
          ChainOngoing(failures, recoveries, h, spans[1..], j + recoveries);
          assert Ongoing(spans) <==> Ongoing(spans[1..]);
          forall i: nat | from <= i && RunAt(h, i, failures, Down) && NoRun(h, i + failures, recoveries, Up)
            ensures i >= j + recoveries
          {
            DisjointRuns(h, i, failures, Down, j, recoveries, Up);
          }
      }
    }
  }

  /** After any history an incident is open exactly when an outage is confirmed and not yet over. */
  lemma OngoingMeaning(failures: nat, recoveries: nat, h: seq<Check>)
    requires failures >= 1 && recoveries >= 1
    ensures Ongoing(Spans(failures, recoveries, h)) <==> OutageConfirmed(failures, recoveries, h)
  {
    SpansAreChain(failures, recoveries, h);
    ChainOngoing(failures, recoveries, h, Spans(failures, recoveries, h), 0);
  }

  // ----- What every reachable state keeps ----------------------------------

  /**
   No open incident means fewer than `failures` failed checks in a row just now, an open one
   means fewer than `recoveries` healthy ones. A bounded window is therefore enough to see
   the whole streak that can cause the next transition.
   */
  lemma ReachableStreaks(failures: nat, recoveries: nat, h: seq<Check>)
    requires failures >= 1 && recoveries >= 1
    ensures !Ongoing(Spans(failures, recoveries, h)) ==> Trailing(h, Down) < failures
    ensures Ongoing(Spans(failures, recoveries, h)) ==> Trailing(h, Up) < recoveries
  {
  }

  // ----- Order, disjointness and counts ------------------------------------

  /** All but the newest outage are over, each is non-empty, and each ends before the next begins. */
  ghost predicate Alternating(spans: seq<Span>) {
    && (forall k :: 0 <= k < |spans| - 1 ==> spans[k].recovery.Some?)
    && (forall k :: 0 <= k < |spans| && spans[k].recovery.Some? ==> spans[k].first < spans[k].recovery.value)
    && (forall k :: 0 <= k < |spans| - 1 && spans[k].recovery.Some? ==> spans[k].recovery.value < spans[k + 1].first)
  }

  lemma {:induction false} ChainAlternates(failures: nat, recoveries: nat, h: seq<Check>, spans: seq<Span>, from: nat)
    requires failures >= 1 && recoveries >= 1
    requires Chain(failures, recoveries, h, spans, from)
    ensures Alternating(spans)
    ensures forall k :: 0 <= k < |spans| ==> spans[k].first < |h| && spans[k].first >= from
    ensures forall k :: 0 <= k < |spans| && spans[k].recovery.Some? ==> spans[k].recovery.value < |h|
    decreases |spans|
  {
    if spans != [] && spans[0].recovery.Some? {
      var rest := spans[1..];
      ChainAlternates(failures, recoveries, h, rest, spans[0].recovery.value + recoveries);
      assert forall k :: 0 < k < |spans| ==> spans[k] == rest[k - 1];
    }
  }

  /** The outage starts at the first failure of its streak and ends at the first healthy check of its streak. */
  predicate IsTight(failures: nat, recoveries: nat, h: seq<Check>, s: Span) {
    && failures >= 1 && recoveries >= 1
    && RunAt(h, s.first, failures, Down) && (s.first == 0 || h[s.first - 1].status != Down)
    && match s.recovery {
         case None => true
         case Some(j) => j >= s.first + failures && RunAt(h, j, recoveries, Up) && h[j - 1].status != Up
       }
  }

  /** The run before which there is none begins after a check of another status. */
  lemma FirstRunIsTight(h: seq<Check>, from: nat, i: nat, k: nat, s: Status)
    requires k >= 1 && IsFirstRun(h, from, i, k, s) && (from == 0 || h[from - 1].status != s)
    ensures i == 0 || h[i - 1].status != s
  {
    assert i > from && h[i - 1].status == s ==> RunAt(h, i - 1, k, s);
  }

  lemma {:induction false} ChainBoundaries(failures: nat, recoveries: nat, h: seq<Check>, spans: seq<Span>, from: nat)
    requires failures >= 1 && recoveries >= 1 && from <= |h|
    requires from == 0 || h[from - 1].status == Up
    requires Chain(failures, recoveries, h, spans, from)
    ensures forall s <- spans :: IsTight(failures, recoveries, h, s)
    decreases |spans|
  {
    if spans == [] {
    } else {
      var s := spans[0];
      FirstRunIsTight(h, from, s.first, failures, Down);
      if s.recovery.Some? {
        var j := s.recovery.value;
        assert h[s.first + failures - 1].status == Down && h[j + recoveries - 1].status == Up;
        FirstRunIsTight(h, s.first + failures, j, recoveries, Up);
        ChainBoundaries(failures, recoveries, h, spans[1..], j + recoveries);
        assert spans == [s] + spans[1..];
      } else {
        assert spans == [s];
      }
    }
  }

  /** The boundaries of the outages the machine records. */
  lemma BoundariesAreTight(failures: nat, recoveries: nat, h: seq<Check>)
    requires failures >= 1 && recoveries >= 1
    ensures forall s <- Spans(failures, recoveries, h) :: IsTight(failures, recoveries, h, s)
  {
    SpansAreChain(failures, recoveries, h);
    ChainBoundaries(failures, recoveries, h, Spans(failures, recoveries, h), 0);
  }

  function Count(h: seq<Check>, from: nat, end: nat, s: Status): (n: nat)
    requires from <= end <= |h|
    decreases end - from
  {
    if from == end then 0 else (if h[from].status == s then 1 else 0) + Count(h, from + 1, end, s)
  }

  lemma {:induction false} CountSplit(h: seq<Check>, from: nat, mid: nat, end: nat, s: Status)
    requires from <= mid <= end <= |h|
    ensures Count(h, from, end, s) == Count(h, from, mid, s) + Count(h, mid, end, s)
    decreases mid - from
  {
    if from == mid {
    } else {
      CountSplit(h, from + 1, mid, end, s);
    }
  }

  lemma {:induction false} CountAll(h: seq<Check>, from: nat, end: nat, s: Status)
    requires from <= end <= |h| && RunAt(h, from, end - from, s)
    ensures Count(h, from, end, s) == end - from
    decreases end - from
  {
    if from == end {
    } else {
      CountAll(h, from + 1, end, s);
    }
  }

  function RecoveredCount(spans: seq<Span>): (n: nat) {
    if spans == [] then 0 else (if spans[0].recovery.Some? then 1 else 0) + RecoveredCount(spans[1..])
  }

  lemma Distribute(n: int, k: int)
    ensures (n + 1) * k == n * k + k
  {
  }

  /** The checks of a run are counted on top of those after `end`. */
  lemma RunCounts(h: seq<Check>, from: nat, i: nat, k: nat, end: nat, s: Status)
    requires from <= i && i + k <= end <= |h| && RunAt(h, i, k, s)
    ensures Count(h, from, |h|, s) >= k + Count(h, end, |h|, s)
  {
    CountSplit(h, from, i, |h|, s);
    CountSplit(h, i, i + k, |h|, s);
    CountAll(h, i, i + k, s);
    CountSplit(h, i + k, end, |h|, s);
  }

  lemma {:induction false} ChainCounts(failures: nat, recoveries: nat, h: seq<Check>, spans: seq<Span>, from: nat)
    requires failures >= 1 && recoveries >= 1 && from <= |h|
    requires Chain(failures, recoveries, h, spans, from)
    ensures Count(h, from, |h|, Down) >= |spans| * failures
    ensures Count(h, from, |h|, Up) >= RecoveredCount(spans) * recoveries
    ensures RecoveredCount(spans) <= |spans| <= RecoveredCount(spans) + 1
    decreases |spans|
  {
    if spans == [] {
    } else {
      var s := spans[0];
      match s.recovery {
        case None =>
          RunCounts(h, from, s.first, failures, s.first + failures, Down);
        case Some(j) =>
          var end := j + recoveries;
          ChainCounts(failures, recoveries, h, spans[1..], end);
          RunCounts(h, from, s.first, failures, end, Down);
          RunCounts(h, from, j, recoveries, end, Up);
          Distribute(|spans| - 1, failures);
          Distribute(RecoveredCount(spans) - 1, recoveries);
      }
    }
  }

  /** Every incident costs at least `failures` failed checks and every recovery `recoveries` healthy ones. */
  lemma TransitionsAreEarned(failures: nat, recoveries: nat, h: seq<Check>)
    requires failures >= 1 && recoveries >= 1
    ensures var spans := Spans(failures, recoveries, h);
            && Count(h, 0, |h|, Down) >= |spans| * failures
            && Count(h, 0, |h|, Up) >= RecoveredCount(spans) * recoveries
            && RecoveredCount(spans) <= |spans| <= RecoveredCount(spans) + 1
  {
    SpansAreChain(failures, recoveries, h);
    ChainCounts(failures, recoveries, h, Spans(failures, recoveries, h), 0);
  }

  // ----- The tables --------------------------------------------------------

  /** The incident row that stands for `span` in history `h`. */
  ghost predicate Describes(row: Incident, h: seq<Check>, span: Span) {
    && span.first < |h|
    && row.startedAt == row.firstConfirmedFailureAt == h[span.first].checkedAt
    && row.lastConfirmedHealthyAt ==
       (if span.first > 0 && h[span.first - 1].status == Up then Some(h[span.first - 1].checkedAt) else None)
    && row.resolvedAt == row.firstConfirmedRecoveryAt
    && (row.state == Recovered <==> span.recovery.Some?)
    && match span.recovery {
         case None => row.resolvedAt == None
         case Some(j) => j < |h| && row.resolvedAt == Some(h[j].checkedAt)
       }
  }

  /** The incident table is, row by row, the list of outages. */
  ghost predicate Table(incidents: seq<Incident>, h: seq<Check>, spans: seq<Span>) {
    |incidents| == |spans| && forall k :: 0 <= k < |spans| ==> Describes(incidents[k], h, spans[k])
  }

  lemma TableSnoc(incidents: seq<Incident>, h: seq<Check>, c: Check, spans: seq<Span>)
    requires Table(incidents, h, spans)
    ensures Table(incidents, h + [c], spans)
  {
    forall k | 0 <= k < |spans| ensures Describes(incidents[k], h + [c], spans[k]) {
      assert Describes(incidents[k], h, spans[k]);
    }
  }

  /** The newest `w` checks, newest first. */
  function Newest(h: seq<Check>, w: nat): (r: seq<Check>)
    ensures |r| == Min(w, |h|)
    ensures forall i :: 0 <= i < |r| ==> r[i] == h[|h| - 1 - i]
  {
    seq(Min(w, |h|), i requires 0 <= i < Min(w, |h|) => h[|h| - 1 - i])
  }

  /** The leading checks of `checks` that have status `status`. */
  method Streak(checks: seq<Check>, status: Status) returns (streak: seq<Check>)
    ensures |streak| <= |checks| && streak == checks[..|streak|]
    ensures forall i :: 0 <= i < |streak| ==> checks[i].status == status
    ensures |streak| < |checks| ==> checks[|streak|].status != status
  {
    streak := [];
    for n := 0 to |checks|
      invariant |streak| == n && streak == checks[..n]
      invariant forall i :: 0 <= i < n ==> checks[i].status == status
    {
      if checks[n].status != status {
        break;
      }
      streak := streak + [checks[n]];
    }
  }

  /** A streak read through a window is the whole trailing streak when the window is longer than it. */
  lemma WindowSeesStreak(h: seq<Check>, w: nat, s: Status, n: nat)
    requires Trailing(h, s) < w
    requires var r := Newest(h, w);
             n <= |r| && (forall i :: 0 <= i < n ==> r[i].status == s) && (n < |r| ==> r[n].status != s)
    ensures n == Trailing(h, s)
  {
    TrailingMeaning(h, s);
    var r := Newest(h, w);
    var t := Trailing(h, s);
    assert n < |r| ==> r[n] == h[|h| - 1 - n];
    assert t < |r| ==> r[t] == h[|h| - 1 - t];
  }

  lemma {:induction false} TrailingSnoc(h: seq<Check>, c: Check, s: Status)
    ensures Trailing(h + [c], s) == if c.status == s then Trailing(h, s) + 1 else 0
  {
    assert (h + [c])[..|h|] == h;
  }

  /** The row opened for a streak of `n` failures seen in `recent`. */
  function Opened(recent: seq<Check>, n: nat): (row: Incident)
    requires 0 < n <= |recent|
  {
    var prior := if |recent| > n then Some(recent[n]) else None;
    var healthy := if prior.Some? && prior.value.status == Up then Some(prior.value.checkedAt) else None;
    Incident(Open, recent[n - 1].checkedAt, recent[n - 1].checkedAt, healthy, None, None)
  }

  /** The row `row` closed by a streak of `n` healthy checks seen in `recent`. */
  function Closed(row: Incident, recent: seq<Check>, n: nat): (r: Incident)
    requires 0 < n <= |recent|
  {
    row.(firstConfirmedRecoveryAt := Some(recent[n - 1].checkedAt),
         resolvedAt := Some(recent[n - 1].checkedAt),
         state := Recovered)
  }

  /** Appending the row of a newly confirmed outage; the window also shows the check before the streak. */
  lemma TableOpened(incidents: seq<Incident>, h: seq<Check>, spans: seq<Span>, w: nat, n: nat)
    requires Table(incidents, h, spans) && 0 < n <= |h| && n < w
    ensures Table(incidents + [Opened(Newest(h, w), n)], h, spans + [Span(|h| - n, None)])
  {
  }

  /** Closing the newest row. */
  lemma TableRecovered(incidents: seq<Incident>, h: seq<Check>, spans: seq<Span>, w: nat, n: nat)
    requires Table(incidents, h, spans) && spans != [] && 0 < n <= |h| && n < w
    ensures var k := |spans| - 1;
            Table(incidents[k := Closed(incidents[k], Newest(h, w), n)], h,
                  spans[k := Span(spans[k].first, Some(|h| - n))])
  {
    assert Describes(incidents[|spans| - 1], h, spans[|spans| - 1]);
  }

  lemma RowsAlternate(incidents: seq<Incident>, h: seq<Check>, spans: seq<Span>)
    requires Table(incidents, h, spans) && Alternating(spans)
    ensures forall k :: 0 <= k < |incidents| - 1 ==> incidents[k].state == Recovered
    ensures Ongoing(spans) <==> incidents != [] && incidents[|incidents| - 1].state != Recovered
  {
    forall k | 0 <= k < |spans| ensures incidents[k].state == Recovered <==> spans[k].recovery.Some? {
      assert Describes(incidents[k], h, spans[k]);
    }
  }

  /** Only the newest row can be unresolved, and it is exactly while an outage is ongoing. */
  lemma TableOngoing(failures: nat, recoveries: nat, incidents: seq<Incident>, h: seq<Check>)
    requires failures >= 1 && recoveries >= 1
    requires Table(incidents, h, Spans(failures, recoveries, h))
    ensures forall k :: 0 <= k < |incidents| - 1 ==> incidents[k].state == Recovered
    ensures Ongoing(Spans(failures, recoveries, h)) <==>
            incidents != [] && incidents[|incidents| - 1].state != Recovered
  {
    var spans := Spans(failures, recoveries, h);
    SpansAreChain(failures, recoveries, h);
    ChainAlternates(failures, recoveries, h, spans, 0);
    RowsAlternate(incidents, h, spans);
  }

  /** The newest incident that is open or acknowledged. */
  method FindOpenIncident(incidents: seq<Incident>) returns (found: Option<nat>)
    ensures found.None? ==> forall k :: 0 <= k < |incidents| ==> incidents[k].state == Recovered
    ensures found.Some? ==> found.value < |incidents| && incidents[found.value].state != Recovered
    ensures found.Some? ==> forall k :: found.value < k < |incidents| ==> incidents[k].state == Recovered
  {
    var i := |incidents|;
    while i > 0
      invariant 0 <= i <= |incidents|
      invariant forall k :: i <= k < |incidents| ==> incidents[k].state == Recovered
    {
      i := i - 1;
      if incidents[i].state != Recovered {
        return Some(i);
      }
    }
    return None;
  }

  /** How a check changes the incident table: not at all, by one new open row, or by closing the last row. */
  predicate IsTransition(incidents: seq<Incident>, rows: seq<Incident>, transition: Transition) {
    match transition
    case NoTransition => rows == incidents
    case IncidentOpened =>
      |rows| == |incidents| + 1 && rows[..|incidents|] == incidents && rows[|incidents|].state == Open
    case IncidentRecovered =>
      && |rows| == |incidents| > 0 && rows[..|rows| - 1] == incidents[..|rows| - 1]
      && incidents[|rows| - 1].state != Recovered && rows[|rows| - 1].state == Recovered
  }

  /** Transitions come at the threshold, neither early nor late: the streak is exactly that long. */
  predicate IsAtThreshold(failures: nat, recoveries: nat, h: seq<Check>, rows: seq<Incident>, transition: Transition) {
    match transition
    case NoTransition => true
    case IncidentOpened =>
      1 <= failures <= |h| && rows != [] && rows[|rows| - 1].startedAt == h[|h| - failures].checkedAt
    case IncidentRecovered =>
      1 <= recoveries <= |h| && rows != [] && rows[|rows| - 1].resolvedAt == Some(h[|h| - recoveries].checkedAt)
  }

  /** The window shows the streak that opens an incident, and the check before it. */
  lemma OpensCase(failures: nat, recoveries: nat, before: seq<Check>, check: Check, incidents: seq<Incident>, w: nat)
    requires failures >= 1 && recoveries >= 1 && check.status == Down
    requires Table(incidents, before, Spans(failures, recoveries, before))
    requires !Ongoing(Spans(failures, recoveries, before))
    requires failures == Trailing(before + [check], Down) < w
    ensures var h := before + [check];
            var rows := incidents + [Opened(Newest(h, w), failures)];
            && Table(rows, h, Spans(failures, recoveries, h))
            && IsTransition(incidents, rows, IncidentOpened)
            && IsAtThreshold(failures, recoveries, h, rows, IncidentOpened)
  {
    var h := before + [check];
    assert h[..|h| - 1] == before;
    var spans := Spans(failures, recoveries, before);
    TableSnoc(incidents, before, check, spans);
    TableOpened(incidents, h, spans, w, failures);
  }

  lemma RecoversCase(failures: nat, recoveries: nat, before: seq<Check>, check: Check, incidents: seq<Incident>, w: nat)
    requires failures >= 1 && recoveries >= 1 && check.status == Up
    requires Table(incidents, before, Spans(failures, recoveries, before))
    requires Ongoing(Spans(failures, recoveries, before))
    requires recoveries == Trailing(before + [check], Up) < w
    requires incidents != [] && incidents[|incidents| - 1].state != Recovered
    ensures var h := before + [check];
            var k := |incidents| - 1;
            var rows := incidents[k := Closed(incidents[k], Newest(h, w), recoveries)];
            && Table(rows, h, Spans(failures, recoveries, h))
            && IsTransition(incidents, rows, IncidentRecovered)
            && IsAtThreshold(failures, recoveries, h, rows, IncidentRecovered)
  {
    var h := before + [check];
    assert h[..|h| - 1] == before;
    var spans := Spans(failures, recoveries, before);
    TableSnoc(incidents, before, check, spans);
    TableRecovered(incidents, h, spans, w, recoveries);
  }

  lemma StaysCase(failures: nat, recoveries: nat, before: seq<Check>, check: Check, incidents: seq<Incident>)
    requires failures >= 1 && recoveries >= 1
    requires Table(incidents, before, Spans(failures, recoveries, before))
    requires var ongoing := Ongoing(Spans(failures, recoveries, before));
             && !(check.status == Down && !ongoing && Trailing(before + [check], Down) >= failures)
             && !(check.status == Up && ongoing && Trailing(before + [check], Up) >= recoveries)
    ensures Table(incidents, before + [check], Spans(failures, recoveries, before + [check]))
  {
    var h := before + [check];
    assert h[..|h| - 1] == before;
    TableSnoc(incidents, before, check, Spans(failures, recoveries, before));
  }

  /** In a reachable state the streak that could cause a transition is shorter than the window. */
  lemma StreakFits(failures: nat, recoveries: nat, before: seq<Check>, check: Check)
    requires failures >= 1 && recoveries >= 1
    ensures !Ongoing(Spans(failures, recoveries, before)) ==> Trailing(before + [check], Down) <= failures
    ensures Ongoing(Spans(failures, recoveries, before)) ==> Trailing(before + [check], Up) <= recoveries
  {
    ReachableStreaks(failures, recoveries, before);
    TrailingSnoc(before, check, Down);
    TrailingSnoc(before, check, Up);
  }

  /**
   The threshold rules, applied to the window `recent` after `check` joined the history
   `before`. Whatever the window leaves out, the new rows are what the whole history means.
   */
  method ApplyThresholds(failures: nat, recoveries: nat, ghost before: seq<Check>, check: Check,
                         recent: seq<Check>, incidents: seq<Incident>)
    returns (rows: seq<Incident>, transition: Transition)
    requires failures >= 1 && recoveries >= 1
    requires recent == Newest(before + [check], Max(failures, recoveries) + 2)
    requires Table(incidents, before, Spans(failures, recoveries, before))
    ensures Table(rows, before + [check], Spans(failures, recoveries, before + [check]))
    ensures IsTransition(incidents, rows, transition)
    ensures IsAtThreshold(failures, recoveries, before + [check], rows, transition)
  {
    TableOngoing(failures, recoveries, incidents, before);
    StreakFits(failures, recoveries, before, check);
    ghost var h, window := before + [check], Max(failures, recoveries) + 2;

    rows, transition := incidents, NoTransition;
    var openIncident := FindOpenIncident(incidents);
    if check.status == Down {
      var downStreak := Streak(recent, Down);
      if openIncident.None? {
        WindowSeesStreak(h, window, Down, |downStreak|);
      }
      if |downStreak| >= failures && openIncident.None? {
        assert |downStreak| == failures;
        OpensCase(failures, recoveries, before, check, incidents, window);
        rows := incidents + [Opened(recent, |downStreak|)];
        transition := IncidentOpened;
        return;
      }
    } else if check.status == Up {
      var upStreak := Streak(recent, Up);
      if openIncident.Some? {
        WindowSeesStreak(h, window, Up, |upStreak|);
      }
      if openIncident.Some? && |upStreak| >= recoveries {
        assert |upStreak| == recoveries && openIncident.value == |incidents| - 1;
        RecoversCase(failures, recoveries, before, check, incidents, window);
        var k := openIncident.value;
        rows := incidents[k := Closed(incidents[k], recent, |upStreak|)];
        transition := IncidentRecovered;
        return;
      }
    }
    StaysCase(failures, recoveries, before, check, incidents);
  }

  class Monitor {
    const failureThreshold: int
    const recoveryThreshold: int
    var checks: seq<Check>
    var incidents: seq<Incident>

    /** The incident table is, row by row, what the stored history means. */
    ghost predicate Valid()
      reads this
    {
      var spans := Spans(Clamped(failureThreshold), Clamped(recoveryThreshold), checks);
      && Increasing(checks)
      && Table(incidents, checks, spans)
    }

    constructor (failureThreshold: int, recoveryThreshold: int)
      ensures Valid() && checks == [] && incidents == []
      ensures this.failureThreshold == failureThreshold && this.recoveryThreshold == recoveryThreshold
    {
      this.failureThreshold := failureThreshold;
      this.recoveryThreshold := recoveryThreshold;
      checks := [];
      incidents := [];
    }

    method RecordCheck(status: Status, now: int) returns (transition: Transition)
      requires Valid()
      requires checks != [] ==> checks[|checks| - 1].checkedAt < now
      modifies this`checks, this`incidents
      ensures Valid()
      ensures checks == old(checks) + [Check(status, now)]
      // Every row this check does not recover stays exactly as it was.
      ensures IsTransition(old(incidents), incidents, transition)
      ensures IsAtThreshold(Clamped(failureThreshold), Clamped(recoveryThreshold), checks, incidents, transition)
      // Stored thresholds from 1 to 20 act as they are.
      ensures 1 <= failureThreshold <= 20 && 1 <= recoveryThreshold <= 20 ==>
                IsAtThreshold(failureThreshold, recoveryThreshold, checks, incidents, transition)
    {
      var failures := Clamped(failureThreshold);
      var recoveries := Clamped(recoveryThreshold);
      ghost var before := checks;
      var check := Check(status, now);
      checks := checks + [check];
      assert checks[..|checks| - 1] == before;
      var recent := Newest(checks, Max(failures, recoveries) + 2);
      incidents, transition := ApplyThresholds(failures, recoveries, before, check, recent, incidents);
    }

    /** An operator acknowledges an ongoing incident; a recovered one is left alone. */
    method Acknowledge(k: nat) returns (done: bool)
      requires Valid() && k < |incidents|
      modifies this`incidents
      ensures Valid()
      ensures done <==> old(incidents[k].state) != Recovered
      ensures incidents == if done then old(incidents)[k := old(incidents[k]).(state := Acknowledged)] else old(incidents)
    {
      done := incidents[k].state != Recovered;
      if done {
        incidents := incidents[k := incidents[k].(state := Acknowledged)];
      }
    }

    /** In every state: at most one incident is unresolved, the newest, and one is while an outage is confirmed. */
    lemma OneUnresolved()
      requires Valid()
      ensures forall k :: 0 <= k < |incidents| - 1 ==> incidents[k].state == Recovered
      ensures (exists k :: 0 <= k < |incidents| && incidents[k].state != Recovered) <==>
              OutageConfirmed(Clamped(failureThreshold), Clamped(recoveryThreshold), checks)
    {
      var failures, recoveries := Clamped(failureThreshold), Clamped(recoveryThreshold);
      TableOngoing(failures, recoveries, incidents, checks);
      OngoingMeaning(failures, recoveries, checks);
      if Ongoing(Spans(failures, recoveries, checks)) {
        assert incidents[|incidents| - 1].state != Recovered;
      }
    }

    /** The same in the stored thresholds: 1 to 20 act as they are, 0 as 2, anything above as 20. */
    lemma StoredThresholds()
      requires Valid()
      ensures var unresolved := exists k :: 0 <= k < |incidents| && incidents[k].state != Recovered;
              && (1 <= failureThreshold <= 20 && 1 <= recoveryThreshold <= 20 ==>
                    (unresolved <==> OutageConfirmed(failureThreshold, recoveryThreshold, checks)))
              && (failureThreshold == 0 && recoveryThreshold == 0 ==> (unresolved <==> OutageConfirmed(2, 2, checks)))
              && (failureThreshold > 20 && recoveryThreshold > 20 ==> (unresolved <==> OutageConfirmed(20, 20, checks)))
    {
      OneUnresolved();
    }

    /** What a row says: where its outage began and ended, and whether the check before it was healthy. */
    lemma RowTells(k: nat) returns (first: nat)
      requires Valid() && k < |incidents|
      ensures var row, failures, recoveries := incidents[k], Clamped(failureThreshold), Clamped(recoveryThreshold);
              && RunAt(checks, first, failures, Down) && (first == 0 || checks[first - 1].status != Down)
              && row.startedAt == checks[first].checkedAt && row.firstConfirmedFailureAt == row.startedAt
              && (first > 0 && checks[first - 1].status == Up ==>
                    row.lastConfirmedHealthyAt == Some(checks[first - 1].checkedAt))
              && (first == 0 || checks[first - 1].status != Up ==> row.lastConfirmedHealthyAt == None)
              && (row.state != Recovered ==> row.resolvedAt == None && row.firstConfirmedRecoveryAt == None)
              && (row.state == Recovered ==>
                    exists j :: first + failures <= j && RunAt(checks, j, recoveries, Up) && checks[j - 1].status != Up
                      && row.resolvedAt == Some(checks[j].checkedAt) && row.firstConfirmedRecoveryAt == row.resolvedAt)
    {
      var failures, recoveries := Clamped(failureThreshold), Clamped(recoveryThreshold);
      var spans := Spans(failures, recoveries, checks);
      BoundariesAreTight(failures, recoveries, checks);
      assert Describes(incidents[k], checks, spans[k]) && spans[k] in spans;
      assert IsTight(failures, recoveries, checks, spans[k]);
      first := spans[k].first;
      if spans[k].recovery.Some? {
        var j := spans[k].recovery.value;
        assert RunAt(checks, j, recoveries, Up);
      }
    }

    /** In every state: incident intervals are non-empty, ordered and disjoint. */
    lemma IncidentsAreDisjoint()
      requires Valid()
      ensures forall k :: 0 <= k < |incidents| && incidents[k].state == Recovered ==>
                incidents[k].resolvedAt.Some? && incidents[k].startedAt < incidents[k].resolvedAt.value
      ensures forall k :: 0 <= k < |incidents| - 1 && incidents[k].resolvedAt.Some? ==>
                incidents[k].resolvedAt.value < incidents[k + 1].startedAt
    {
      var failures, recoveries := Clamped(failureThreshold), Clamped(recoveryThreshold);
      var spans := Spans(failures, recoveries, checks);
      SpansAreChain(failures, recoveries, checks);
      ChainAlternates(failures, recoveries, checks, spans, 0);
      forall i, j | 0 <= i < j < |checks| ensures checks[i].checkedAt < checks[j].checkedAt {
        IncreasingMeaning(checks, i, j);
      }
      forall k | 0 <= k < |incidents|
        ensures IntervalIsOrdered(incidents, k)
      {
        IntervalMeaning(incidents, checks, spans, k);
      }
      assert forall k :: 0 <= k < |incidents| ==> IntervalIsOrdered(incidents, k);
    }
  }

  /** Incident `k` ends after it starts and before the next one starts. */
  predicate IntervalIsOrdered(incidents: seq<Incident>, k: nat)
    requires k < |incidents|
  {
    var row := incidents[k];
    && (row.state == Recovered ==> row.resolvedAt.Some?)
    && (row.resolvedAt.Some? ==>
          && row.startedAt < row.resolvedAt.value
          && (k + 1 < |incidents| ==> row.resolvedAt.value < incidents[k + 1].startedAt))
  }

  lemma IntervalMeaning(incidents: seq<Incident>, h: seq<Check>, spans: seq<Span>, k: nat)
    requires Table(incidents, h, spans) && k < |incidents| && Alternating(spans)
    requires forall i, j :: 0 <= i < j < |h| ==> h[i].checkedAt < h[j].checkedAt
    ensures IntervalIsOrdered(incidents, k)
  {
    assert Describes(incidents[k], h, spans[k]);
    assert k + 1 < |incidents| ==> Describes(incidents[k + 1], h, spans[k + 1]);
  }
}
