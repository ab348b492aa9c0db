/**
 The availability scheduler: `monitors_due_for_check` of paxalia/uptime.py.

 Each pass scans the active monitors, never checked first and then oldest
 check first, and returns the first due ones. Times are in microseconds.
 */
module Scheduler {
  import opened Prelude

  datatype Schedule = Schedule(intervalSeconds: int, intervalMinutes: int, lastChecked: Option<int>)

  /** The active monitors, by primary key. */
  type Fleet = map<nat, Schedule>

  /** The configured interval, with its legacy fallback, kept within 30 s and one day. */
  function EffectiveInterval(s: Schedule): (seconds: int)
    ensures 30 <= seconds <= 86400
    ensures 30 <= s.intervalSeconds <= 86400 ==> seconds == s.intervalSeconds
    ensures 0 < s.intervalSeconds < 30 ==> seconds == 30
    ensures s.intervalSeconds > 86400 ==> seconds == 86400
    ensures s.intervalSeconds <= 0 && 1 <= s.intervalMinutes <= 1440 ==> seconds == 60 * s.intervalMinutes
    ensures s.intervalSeconds <= 0 && s.intervalMinutes > 1440 ==> seconds == 86400
    ensures s.intervalSeconds <= 0 && s.intervalMinutes == 0 ==> seconds == 300
    ensures s.intervalSeconds <= 0 && s.intervalMinutes < 0 ==> seconds == 30
  {
    var legacy := (if s.intervalMinutes == 0 then 5 else s.intervalMinutes) * 60;
    Max(30, Min(if s.intervalSeconds <= 0 then legacy else s.intervalSeconds, 86400))
  }

  predicate IsDue(s: Schedule, now: int) {
    s.lastChecked.None? || now - s.lastChecked.value >= EffectiveInterval(s) * 1_000_000
  }

  /** The scan order: never checked first, then the oldest check, then the key. */
  predicate Ahead(fleet: Fleet, a: nat, b: nat)
    requires a in fleet && b in fleet
  {
    match (fleet[a].lastChecked, fleet[b].lastChecked)
    case (None, None) => a < b
    case (None, Some(_)) => true
    case (Some(_), None) => false
    case (Some(x), Some(y)) => x < y || (x == y && a < b)
  }

  /** `order` lists every monitor once, in scan order: the database's answer to the query. */
  ghost predicate IsOrder(fleet: Fleet, order: seq<nat>) {
    && (forall a :: a in order <==> a in fleet)
    && forall i, j :: 0 <= i < j < |order| ==> Ahead(fleet, order[i], order[j])
  }

  /** A monitor is due unless its last check is less than its interval ago. Times are in microseconds. */
  lemma DueMeaning(s: Schedule, now: int)
    ensures s.lastChecked.None? ==> IsDue(s, now)
    ensures s.lastChecked.Some? && 30 <= s.intervalSeconds <= 86400 ==>
              (IsDue(s, now) <==> now >= s.lastChecked.value + s.intervalSeconds * 1_000_000)
    ensures s.lastChecked.Some? && s.intervalSeconds <= 0 && 1 <= s.intervalMinutes <= 1440 ==>
              (IsDue(s, now) <==> now >= s.lastChecked.value + s.intervalMinutes * 60_000_000)
  {
  }

  /** In scan order monitors never checked come first, by key; then the longest unchecked, equals by key. */
  lemma ScanOrderMeaning(fleet: Fleet, order: seq<nat>, i: nat, j: nat)
    requires IsOrder(fleet, order) && i < j < |order|
    ensures var x, y := fleet[order[i]].lastChecked, fleet[order[j]].lastChecked;
            && (y.None? ==> x.None? && order[i] < order[j])
            && (x.Some? ==> y.Some? && x.value <= y.value && (x.value == y.value ==> order[i] < order[j]))
  {
    assert Ahead(fleet, order[i], order[j]);
  }

  /** The due monitors at positions i..j of the scan order. */
  function DueBetween(fleet: Fleet, order: seq<nat>, i: nat, j: nat, now: int): (r: seq<nat>)
    requires i <= j <= |order| && forall a <- order :: a in fleet
    decreases j - i
  {
    if i == j then []
    else if IsDue(fleet[order[i]], now) then [order[i]] + DueBetween(fleet, order, i + 1, j, now)
    else DueBetween(fleet, order, i + 1, j, now)
  }

  lemma {:induction false} DueSplit(fleet: Fleet, order: seq<nat>, i: nat, j: nat, k: nat, now: int)
    requires i <= j <= k <= |order| && forall a <- order :: a in fleet
    ensures DueBetween(fleet, order, i, k, now) ==
            DueBetween(fleet, order, i, j, now) + DueBetween(fleet, order, j, k, now)
    decreases j - i
  {
    if i == j {
    } else {
      DueSplit(fleet, order, i + 1, j, k, now);
    }
  }

  lemma {:induction false} DueMembers(fleet: Fleet, order: seq<nat>, i: nat, j: nat, now: int)
    requires i <= j <= |order| && forall a <- order :: a in fleet
    ensures forall a <- DueBetween(fleet, order, i, j, now) ::
              a in fleet && IsDue(fleet[a], now) && exists k :: i <= k < j && order[k] == a
    decreases j - i
  {
    if i == j {
    } else {
      DueMembers(fleet, order, i + 1, j, now);
    }
  }

  lemma {:induction false} DueDistinct(fleet: Fleet, order: seq<nat>, i: nat, j: nat, now: int)
    requires i <= j <= |order| && (forall a <- order :: a in fleet) && Distinct(order)
    ensures Distinct(DueBetween(fleet, order, i, j, now))
    decreases j - i
  {
    if i == j {
    } else {
      DueDistinct(fleet, order, i + 1, j, now);
      DueMembers(fleet, order, i + 1, j, now);
    }
  }

  /** What a pass returns: the first `limit` due monitors among the first `scanLimit` in scan order. */
  ghost function Selection(fleet: Fleet, order: seq<nat>, now: int, limit: nat, scanLimit: nat): (r: seq<nat>)
    requires forall a <- order :: a in fleet
  {
    var due := DueBetween(fleet, order, 0, Min(scanLimit, |order|), now);
    if limit < |due| then due[..limit] else due
  }

  /** How many monitors one pass may return; `None` is a setting that is missing or not a number. */
  function CheckLimit(configured: Option<int>): (limit: nat)
    ensures 1 <= limit <= 5000
    ensures configured.Some? && 1 <= configured.value <= 5000 ==> limit == configured.value
    ensures configured.Some? && configured.value < 1 ==> limit == 1
    ensures configured.Some? && configured.value > 5000 ==> limit == 5000
    ensures configured.None? ==> limit == 100
  {
    Max(1, Min(if configured.None? then 100 else configured.value, 5000))
  }

  /** How many monitors one pass may look at: never fewer than it may return. */
  function ScanLimit(configured: Option<int>, limit: nat): (scanLimit: nat)
    requires limit <= 5000
    ensures limit <= scanLimit <= 50000
    ensures configured.Some? && limit <= configured.value <= 50000 ==> scanLimit == configured.value
    ensures configured.Some? && configured.value < limit ==> scanLimit == limit
    ensures configured.Some? && configured.value > 50000 ==> scanLimit == 50000
    ensures configured.None? ==> scanLimit == if limit < 1000 then 1000 else limit
  {
    Min(50000, Max(limit, if configured.None? then Max(limit, 1000) else configured.value))
  }

  /** Looking at one more monitor. */
  lemma ScanStep(fleet: Fleet, order: seq<nat>, now: int, scanned: nat, reach: nat, due: seq<nat>)
    requires scanned < reach <= |order| && forall a <- order :: a in fleet
    ensures due + DueBetween(fleet, order, scanned, reach, now) ==
            (if IsDue(fleet[order[scanned]], now) then due + [order[scanned]] else due)
            + DueBetween(fleet, order, scanned + 1, reach, now)
  {
  }

  /** The scanning loop with its two early exits. */
  method ScanForDue(fleet: Fleet, order: seq<nat>, now: int, limit: nat, scanLimit: nat) returns (due: seq<nat>)
    requires IsOrder(fleet, order) && 1 <= limit <= scanLimit
    ensures due == Selection(fleet, order, now, limit, scanLimit)
  {
    due := [];
    var scanned := 0;
    ghost var reach := Min(scanLimit, |order|);
    while scanned < |order|
      invariant scanned <= |order| && scanned < scanLimit && |due| < limit
      invariant forall a <- order :: a in fleet
      invariant DueBetween(fleet, order, 0, reach, now) == due + DueBetween(fleet, order, scanned, reach, now)
    {
      var monitor := order[scanned];
      ScanStep(fleet, order, now, scanned, reach, due);
      scanned := scanned + 1;
      if IsDue(fleet[monitor], now) {
        due := due + [monitor];
        if |due| >= limit {
          break;
        }
      }
      if scanned >= scanLimit {
        break;
      }
    }
    assert scanned <= reach;
    SelectionReached(fleet, order, now, limit, scanLimit, scanned, due);
  }

  method MonitorsDueForCheck(fleet: Fleet, order: seq<nat>, now: int, maxChecks: Option<int>, maxScan: Option<int>)
    returns (due: seq<nat>)
    requires IsOrder(fleet, order)
    ensures var limit := CheckLimit(maxChecks);
            due == Selection(fleet, order, now, limit, ScanLimit(maxScan, limit))
  {
    var limit := CheckLimit(maxChecks);
    due := ScanForDue(fleet, order, now, limit, ScanLimit(maxScan, limit));
  }

  /** Either exit of the loop leaves the selection. */
  lemma SelectionReached(fleet: Fleet, order: seq<nat>, now: int, limit: nat, scanLimit: nat, scanned: nat, due: seq<nat>)
    requires forall a <- order :: a in fleet
    requires scanned <= Min(scanLimit, |order|)
    requires DueBetween(fleet, order, 0, Min(scanLimit, |order|), now) ==
             due + DueBetween(fleet, order, scanned, Min(scanLimit, |order|), now)
    requires |due| == limit || (|due| < limit && scanned == Min(scanLimit, |order|))
    ensures due == Selection(fleet, order, now, limit, scanLimit)
  {
  }

  // ----- Waiting time ------------------------------------------------------

  ghost function AheadOf(fleet: Fleet, m: nat): (r: set<nat>)
    requires m in fleet
  {
    set a | a in fleet && Ahead(fleet, a, m)
  }

  /**
   One pass at `now` and the checks recorded after it: every returned monitor gets a check that is
   not older than the pass, every other monitor keeps its row.
   */
  ghost predicate Pass(before: Fleet, now: int, limit: nat, scanLimit: nat, returned: seq<nat>, after: Fleet) {
    && after.Keys == before.Keys
    && (exists order :: IsOrder(before, order) && returned == Selection(before, order, now, limit, scanLimit))
    && (forall a :: a in before && a !in returned ==> after[a] == before[a])
    && (forall a :: a in before && a in returned ==>
          && after[a].lastChecked.Some? && after[a].lastChecked.value >= now
          && after[a] == before[a].(lastChecked := after[a].lastChecked))
  }

  /** The position of `m` in the scan order is the number of monitors ahead of it. */
  lemma OrderPosition(fleet: Fleet, order: seq<nat>, m: nat) returns (pos: nat)
    requires IsOrder(fleet, order) && m in fleet
    ensures pos < |order| && order[pos] == m && pos == |AheadOf(fleet, m)|
    ensures forall i :: 0 <= i < |order| ==> (order[i] in AheadOf(fleet, m) <==> i < pos)
    ensures Distinct(order)
  {
    assert m in order;
    pos :| 0 <= pos < |order| && order[pos] == m;
    forall i | 0 <= i < |order| ensures Ahead(fleet, order[i], m) <==> i < pos {
      assert i < pos ==> Ahead(fleet, order[i], order[pos]);
      assert pos < i ==> Ahead(fleet, order[pos], order[i]);
    }
    forall i, j | 0 <= i < j < |order| ensures order[i] != order[j] {
      assert Ahead(fleet, order[i], order[j]);
    }
    PrefixMembers(order, pos);
    forall a ensures a in AheadOf(fleet, m) <==> a in Elements(order[..pos]) {
      if a in fleet {
        assert a in order;
      }
    }
    assert AheadOf(fleet, m) == Elements(order[..pos]);
    DistinctCount(order[..pos]);
  }

  /** A due monitor within scanning reach is returned, or `limit` monitors ahead of it move behind it. */
  lemma PassProgress(before: Fleet, now: int, limit: nat, scanLimit: nat, returned: seq<nat>, after: Fleet, m: nat)
    requires limit >= 1 && Pass(before, now, limit, scanLimit, returned, after)
    requires m in before && IsDue(before[m], now) && m !in returned
    requires |AheadOf(before, m)| < scanLimit
    ensures after[m] == before[m]
    ensures |AheadOf(after, m)| == |AheadOf(before, m)| - limit
  {
    var order :| IsOrder(before, order) && returned == Selection(before, order, now, limit, scanLimit);
    var pos := OrderPosition(before, order, m);
    SelectionAhead(before, order, now, limit, scanLimit, pos);
    AheadAfterPass(before, now, returned, after, m);
    ShrinkBy(AheadOf(before, m), AheadOf(after, m), returned);
  }

  lemma ShrinkBy(whole: set<nat>, rest: set<nat>, removed: seq<nat>)
    requires Distinct(removed) && forall a <- removed :: a in whole
    requires forall a :: a in rest <==> a in whole && a !in removed
    ensures |rest| == |whole| - |removed|
  {
    DistinctCount(removed);
    assert rest == whole - Elements(removed);
  }

  /** Recording the returned monitors puts them, and only them, behind a due monitor that was not returned. */
  lemma AheadAfterPass(before: Fleet, now: int, returned: seq<nat>, after: Fleet, m: nat)
    requires after.Keys == before.Keys && m in before && m !in returned && IsDue(before[m], now)
    requires forall a :: a in before && a !in returned ==> after[a] == before[a]
    requires forall a :: a in before && a in returned ==>
               after[a].lastChecked.Some? && after[a].lastChecked.value >= now
    ensures forall a :: a in after ==> (Ahead(after, a, m) <==> Ahead(before, a, m) && a !in returned)
  {
  }

  /** When a due monitor in reach is not selected, all those selected come before it, and there are `limit` of them. */
  lemma SelectionAhead(fleet: Fleet, order: seq<nat>, now: int, limit: nat, scanLimit: nat, pos: nat)
    requires (forall a <- order :: a in fleet) && Distinct(order)
    requires pos < |order| && pos < scanLimit && IsDue(fleet[order[pos]], now)
    requires order[pos] !in Selection(fleet, order, now, limit, scanLimit)
    ensures var r := Selection(fleet, order, now, limit, scanLimit);
            && |r| == limit && Distinct(r)
            && forall a <- r :: exists k :: 0 <= k < pos && order[k] == a
  {
    var reach := Min(scanLimit, |order|);
    var head := DueBetween(fleet, order, 0, pos, now);
    var tail := DueBetween(fleet, order, pos, reach, now);
    DueSplit(fleet, order, 0, pos, reach, now);
    var due := head + tail;
    // Had fewer than `limit` monitors ahead been due, this one would have been selected.
    assert due[|head|] == order[pos];
    if limit < |due| {
      PrefixMembers(due, limit);
    }
    DueMembers(fleet, order, 0, pos, now);
    DueDistinct(fleet, order, 0, pos, now);
    assert limit <= |head|;
    var r := Selection(fleet, order, now, limit, scanLimit);
    assert r == head[..limit];
    assert forall k :: 0 <= k < limit ==> r[k] == head[k] && r[k] in head;
  }

  /** A run of consecutive passes over one fixed set of monitors. */
  ghost predicate Passes(fleets: seq<Fleet>, nows: seq<int>, limit: nat, scanLimit: nat, returned: seq<seq<nat>>) {
    && |fleets| == |returned| + 1 && |nows| == |returned|
    && (forall i :: 0 <= i < |returned| ==> Pass(fleets[i], nows[i], limit, scanLimit, returned[i], fleets[i + 1]))
    && (forall i :: 0 <= i < |nows| - 1 ==> nows[i] <= nows[i + 1])
  }

  lemma StillDue(s: Schedule, now: int, later: int)
    requires IsDue(s, now) && now <= later
    ensures IsDue(s, later)
  {
  }

  lemma PassesTail(fleets: seq<Fleet>, nows: seq<int>, limit: nat, scanLimit: nat, returned: seq<seq<nat>>)
    requires Passes(fleets, nows, limit, scanLimit, returned) && returned != []
    ensures Passes(fleets[1..], nows[1..], limit, scanLimit, returned[1..])
  {
  }

  /**
   A due monitor with `r` monitors ahead of it, all within scanning reach, is returned
   within r / limit + 1 passes.
   */
  lemma {:induction false} WaitingBound(fleets: seq<Fleet>, nows: seq<int>, limit: nat, scanLimit: nat,
                                        returned: seq<seq<nat>>, m: nat)
    returns (i: nat)
    requires limit >= 1 && Passes(fleets, nows, limit, scanLimit, returned)
    requires m in fleets[0] && |AheadOf(fleets[0], m)| < scanLimit
    requires |returned| > |AheadOf(fleets[0], m)| / limit
    requires IsDue(fleets[0][m], nows[0])
    ensures i <= |AheadOf(fleets[0], m)| / limit && m in returned[i]
    decreases |returned|
  {
    i := 0;
    if m !in returned[0] {
      var r := |AheadOf(fleets[0], m)|;
      assert Pass(fleets[0], nows[0], limit, scanLimit, returned[0], fleets[1]);
      PassProgress(fleets[0], nows[0], limit, scanLimit, returned[0], fleets[1], m);
      DivPlus(r - limit, limit);
      DivMonotone(0, r - limit, limit);
      StillDue(fleets[0][m], nows[0], nows[1]);
      PassesTail(fleets, nows, limit, scanLimit, returned);
      i := WaitingBound(fleets[1..], nows[1..], limit, scanLimit, returned[1..], m);
      i := i + 1;
    }
  }

  /** With N monitors, all within scanning reach, no due monitor waits more than (N - 1) / limit + 1 passes. */
  lemma FleetWaitingBound(fleets: seq<Fleet>, nows: seq<int>, limit: nat, scanLimit: nat,
                          returned: seq<seq<nat>>, m: nat)
    requires limit >= 1 && Passes(fleets, nows, limit, scanLimit, returned)
    requires m in fleets[0] && |fleets[0]| <= scanLimit
    requires |returned| >= (|fleets[0]| - 1) / limit + 1
    requires IsDue(fleets[0][m], nows[0])
    ensures exists i :: 0 <= i <= (|fleets[0]| - 1) / limit && m in returned[i]
  {
    var ahead := AheadOf(fleets[0], m);
    assert ahead <= fleets[0].Keys - {m};
    SubsetSize(ahead, fleets[0].Keys - {m});
    DivMonotone(|ahead|, |fleets[0]| - 1, limit);
    var i := WaitingBound(fleets, nows, limit, scanLimit, returned, m);
  }

  // ----- Beyond the scanning reach ------------------------------------------

  /** The monitors ahead of `m` that are, or are not, due. */
  ghost function DueAhead(fleet: Fleet, m: nat, now: int): (r: set<nat>)
    requires m in fleet
  {
    set a | a in AheadOf(fleet, m) && IsDue(fleet[a], now)
  }

  ghost function BlockersOf(fleet: Fleet, m: nat, now: int): (r: set<nat>)
    requires m in fleet
  {
    set a | a in AheadOf(fleet, m) && !IsDue(fleet[a], now)
  }

  /** The due monitors ahead of position `pos`, counted. */
  lemma DueAheadCount(fleet: Fleet, order: seq<nat>, m: nat, pos: nat, now: int)
    requires IsOrder(fleet, order) && Distinct(order) && m in fleet && pos < |order|
    requires forall i :: 0 <= i < |order| ==> (order[i] in AheadOf(fleet, m) <==> i < pos)
    ensures |DueBetween(fleet, order, 0, pos, now)| == |DueAhead(fleet, m, now)|
  {
    var due := DueBetween(fleet, order, 0, pos, now);
    DueDistinct(fleet, order, 0, pos, now);
    DistinctCount(due);
    forall a ensures a in due <==> a in DueAhead(fleet, m, now) {
      DueAheadMember(fleet, order, m, pos, now, a);
    }
    assert Elements(due) == DueAhead(fleet, m, now);
  }

  lemma DueAheadMember(fleet: Fleet, order: seq<nat>, m: nat, pos: nat, now: int, a: nat)
    requires IsOrder(fleet, order) && m in fleet && pos < |order|
    requires forall i :: 0 <= i < |order| ==> (order[i] in AheadOf(fleet, m) <==> i < pos)
    ensures a in DueBetween(fleet, order, 0, pos, now) <==> a in DueAhead(fleet, m, now)
  {
    DueMembers(fleet, order, 0, pos, now);
    if a in DueAhead(fleet, m, now) {
      assert a in order;
      var i :| 0 <= i < |order| && order[i] == a;
      DueIsListed(fleet, order, 0, pos, i, now);
    }
  }

  lemma {:induction false} DueIsListed(fleet: Fleet, order: seq<nat>, i: nat, j: nat, k: nat, now: int)
    requires i <= k < j <= |order| && (forall a <- order :: a in fleet) && IsDue(fleet[order[k]], now)
    ensures order[k] in DueBetween(fleet, order, i, j, now)
    decreases j - i
  {
    if i == k {
    } else {
      DueIsListed(fleet, order, i + 1, j, k, now);
    }
  }

  /** A pass returns the monitor at `pos` exactly if it is due, in reach and has fewer than `limit` due ones ahead. */
  lemma SelectedExactly(fleet: Fleet, order: seq<nat>, now: int, limit: nat, scanLimit: nat, pos: nat)
    requires (forall a <- order :: a in fleet) && Distinct(order) && pos < |order|
    ensures order[pos] in Selection(fleet, order, now, limit, scanLimit) <==>
            && IsDue(fleet[order[pos]], now) && pos < scanLimit
            && |DueBetween(fleet, order, 0, pos, now)| < limit
  {
    var reach := Min(scanLimit, |order|);
    var due := DueBetween(fleet, order, 0, reach, now);
    var m := order[pos];
    DueMembers(fleet, order, 0, reach, now);
    DueDistinct(fleet, order, 0, reach, now);
    if m in due {
      assert pos < reach;
      var head := DueBetween(fleet, order, 0, pos, now);
      DueSplit(fleet, order, 0, pos, reach, now);
      assert due[|head|] == m;
      assert forall k :: 0 <= k < |due| ==> (due[k] == m <==> k == |head|);
      if limit < |due| {
        PrefixMembers(due, limit);
      }
    } else if pos < scanLimit && IsDue(fleet[m], now) {
      DueIsListed(fleet, order, 0, reach, pos, now);
    }
  }

  /** Exactly which monitors a pass returns. */
  lemma ReturnedExactly(before: Fleet, now: int, limit: nat, scanLimit: nat, returned: seq<nat>, after: Fleet, m: nat)
    requires Pass(before, now, limit, scanLimit, returned, after) && m in before
    ensures m in returned <==>
            IsDue(before[m], now) && |AheadOf(before, m)| < scanLimit && |DueAhead(before, m, now)| < limit
  {
    var order :| IsOrder(before, order) && returned == Selection(before, order, now, limit, scanLimit);
    var pos := OrderPosition(before, order, m);
    DueAheadCount(before, order, m, pos, now);
    SelectedExactly(before, order, now, limit, scanLimit, pos);
  }

  /** In particular a pass never returns a monitor beyond its scanning reach. */
  lemma OutOfReach(before: Fleet, now: int, limit: nat, scanLimit: nat, returned: seq<nat>, after: Fleet, m: nat)
    requires Pass(before, now, limit, scanLimit, returned, after)
    requires m in before && |AheadOf(before, m)| >= scanLimit
    ensures m !in returned
  {
    ReturnedExactly(before, now, limit, scanLimit, returned, after, m);
  }

  /** Of the first `n` monitors in scan order, at least `n` less the blockers of `m` are due. */
  lemma DueInReach(fleet: Fleet, order: seq<nat>, m: nat, n: nat, now: int)
    requires (forall a <- order :: a in fleet) && Distinct(order) && m in fleet && n <= |order|
    requires forall i :: 0 <= i < n ==> order[i] in AheadOf(fleet, m)
    ensures |DueBetween(fleet, order, 0, n, now)| >= n - |BlockersOf(fleet, m, now)|
  {
    var due := DueBetween(fleet, order, 0, n, now);
    var blockers := BlockersOf(fleet, m, now);
    DueDistinct(fleet, order, 0, n, now);
    DistinctCount(due);
    PrefixMembers(order, n);
    DistinctCount(order[..n]);
    forall a | a in Elements(order[..n]) ensures a in Elements(due) + blockers {
      var i :| 0 <= i < n && order[..n][i] == a;
      if IsDue(fleet[a], now) {
        DueIsListed(fleet, order, 0, n, i, now);
      }
    }
    UnionSize(Elements(due), blockers, Elements(order[..n]));
  }

  lemma UnionSize(a: set<nat>, b: set<nat>, c: set<nat>)
    requires c <= a + b
    ensures |c| <= |a| + |b|
  {
    SubsetSize(c, a + b);
    assert a + b == a + (b - a);
    SubsetSize(b - a, b);
  }

  /** A pass that leaves a due monitor waiting returns only monitors ahead of it, `progress` of them or more. */
  lemma PassedOver(before: Fleet, order: seq<nat>, now: int, limit: nat, scanLimit: nat, m: nat, progress: nat)
    requires IsOrder(before, order) && m in before && IsDue(before[m], now)
    requires m !in Selection(before, order, now, limit, scanLimit)
    requires progress <= limit && progress + |BlockersOf(before, m, now)| <= scanLimit
    ensures var r := Selection(before, order, now, limit, scanLimit);
            Distinct(r) && |r| >= progress && forall a <- r :: a in AheadOf(before, m)
  {
    var pos := OrderPosition(before, order, m);
    if pos < scanLimit {
      SelectionAhead(before, order, now, limit, scanLimit, pos);
    } else {
      var due := DueBetween(before, order, 0, scanLimit, now);
      DueInReach(before, order, m, scanLimit, now);
      DueMembers(before, order, 0, scanLimit, now);
      DueDistinct(before, order, 0, scanLimit, now);
      if limit < |due| {
        PrefixMembers(due, limit);
        assert forall a <- due[..limit] :: a in due;
      }
    }
  }

  /** A pass that leaves a due monitor waiting moves `progress` monitors or more behind it. */
  lemma SlowProgress(before: Fleet, now: int, limit: nat, scanLimit: nat, returned: seq<nat>, after: Fleet,
                     m: nat, progress: nat)
    requires Pass(before, now, limit, scanLimit, returned, after)
    requires m in before && IsDue(before[m], now) && m !in returned
    requires progress <= limit && progress + |BlockersOf(before, m, now)| <= scanLimit
    ensures after[m] == before[m]
    ensures |AheadOf(after, m)| <= |AheadOf(before, m)| - progress
  {
    var order :| IsOrder(before, order) && returned == Selection(before, order, now, limit, scanLimit);
    PassedOver(before, order, now, limit, scanLimit, m, progress);
    AheadAfterPass(before, now, returned, after, m);
    ShrinkBy(AheadOf(before, m), AheadOf(after, m), returned);
  }

  /** Blockers only go away as time passes and checks are recorded. */
  lemma FewerBlockers(before: Fleet, now: int, limit: nat, scanLimit: nat, returned: seq<nat>, after: Fleet, later: int,
                      m: nat)
    requires Pass(before, now, limit, scanLimit, returned, after) && now <= later
    requires m in before && IsDue(before[m], now) && m !in returned
    ensures |BlockersOf(after, m, later)| <= |BlockersOf(before, m, now)|
  {
    AheadAfterPass(before, now, returned, after, m);
    forall a | a in BlockersOf(after, m, later) ensures a in BlockersOf(before, m, now) {
      assert a in AheadOf(after, m) && after[a] == before[a];
      if IsDue(before[a], now) {
        StillDue(before[a], now, later);
      }
    }
    SubsetSize(BlockersOf(after, m, later), BlockersOf(before, m, now));
  }

  lemma StepDown(r: nat, next: nat, progress: nat)
    requires progress >= 1 && next <= r - progress
    ensures next / progress + 1 <= r / progress
  {
    DivPlus(r - progress, progress);
    DivMonotone(next, r - progress, progress);
  }

  /**
   Whatever lies ahead, a due monitor with `r` others ahead and fewer than `scanLimit` blockers among
   them is returned within r / progress + 1 passes, where each pass clears at least `progress`:
   `limit`, or what the blockers leave of the scanning reach.
   */
  lemma {:induction false} BlockedWaitingBound(fleets: seq<Fleet>, nows: seq<int>, limit: nat, scanLimit: nat,
                                               returned: seq<seq<nat>>, m: nat, progress: nat)
    returns (i: nat)
    requires Passes(fleets, nows, limit, scanLimit, returned)
    requires m in fleets[0] && |returned| > 0 && IsDue(fleets[0][m], nows[0])
    requires 1 <= progress <= limit && progress + |BlockersOf(fleets[0], m, nows[0])| <= scanLimit
    requires |returned| > |AheadOf(fleets[0], m)| / progress
    ensures i <= |AheadOf(fleets[0], m)| / progress && m in returned[i]
    decreases |returned|
  {
    i := 0;
    if m !in returned[0] {
      var r := |AheadOf(fleets[0], m)|;
      assert Pass(fleets[0], nows[0], limit, scanLimit, returned[0], fleets[1]);
      SlowProgress(fleets[0], nows[0], limit, scanLimit, returned[0], fleets[1], m, progress);
      StepDown(r, |AheadOf(fleets[1], m)|, progress);
      DivMonotone(0, |AheadOf(fleets[1], m)|, progress);
      FewerBlockers(fleets[0], nows[0], limit, scanLimit, returned[0], fleets[1], nows[1], m);
      StillDue(fleets[0][m], nows[0], nows[1]);
      PassesTail(fleets, nows, limit, scanLimit, returned);
      i := BlockedWaitingBound(fleets[1..], nows[1..], limit, scanLimit, returned[1..], m, progress);
      i := i + 1;
    }
  }

  /** One pass with that many blockers leaves them and `m` alone. */
  lemma StarvesOnce(before: Fleet, now: int, limit: nat, scanLimit: nat, returned: seq<nat>, after: Fleet, m: nat,
                    blockers: set<nat>)
    requires Pass(before, now, limit, scanLimit, returned, after)
    requires m in before && blockers <= AheadOf(before, m) && |blockers| >= scanLimit
    requires forall b :: b in blockers ==> !IsDue(before[b], now)
    ensures m !in returned && after[m] == before[m]
    ensures forall b :: b in blockers ==> b in after && after[b] == before[b]
    ensures blockers <= AheadOf(after, m)
  {
    SubsetSize(blockers, AheadOf(before, m));
    ReturnedExactly(before, now, limit, scanLimit, returned, after, m);
    forall b | b in blockers ensures b !in returned {
      ReturnedExactly(before, now, limit, scanLimit, returned, after, b);
    }
  }

  /** While at least `scanLimit` monitors ahead of `m` stay not due, no pass returns `m`, however long it has been due. */
  lemma {:induction false} Starves(fleets: seq<Fleet>, nows: seq<int>, limit: nat, scanLimit: nat,
                                   returned: seq<seq<nat>>, m: nat, blockers: set<nat>)
    requires Passes(fleets, nows, limit, scanLimit, returned)
    requires m in fleets[0] && blockers <= AheadOf(fleets[0], m) && |blockers| >= scanLimit
    requires forall b, j :: b in blockers && 0 <= j < |nows| ==> !IsDue(fleets[0][b], nows[j])
    ensures forall j :: 0 <= j < |returned| ==> m !in returned[j]
    decreases |returned|
  {
    if returned == [] {
    } else {
      assert Pass(fleets[0], nows[0], limit, scanLimit, returned[0], fleets[1]);
      StarvesOnce(fleets[0], nows[0], limit, scanLimit, returned[0], fleets[1], m, blockers);
      PassesTail(fleets, nows, limit, scanLimit, returned);
      assert forall j :: 0 <= j < |nows| - 1 ==> nows[1..][j] == nows[j + 1];
      Starves(fleets[1..], nows[1..], limit, scanLimit, returned[1..], m, blockers);
      assert forall j :: 0 < j < |returned| ==> returned[j] == returned[1..][j - 1];
    }
  }

  /**
   With the clock standing still, enough passes return a due monitor if and only if fewer than
   `scanLimit` of the monitors ahead of it are not due.
   */
  lemma EventuallyExactly(fleets: seq<Fleet>, nows: seq<int>, limit: nat, scanLimit: nat, returned: seq<seq<nat>>,
                          m: nat, now: int)
    requires limit >= 1 && Passes(fleets, nows, limit, scanLimit, returned)
    requires forall i :: 0 <= i < |nows| ==> nows[i] == now
    requires m in fleets[0] && IsDue(fleets[0][m], now) && |returned| > |AheadOf(fleets[0], m)|
    ensures (exists i :: 0 <= i < |returned| && m in returned[i]) <==> |BlockersOf(fleets[0], m, now)| < scanLimit
  {
    var blockers := BlockersOf(fleets[0], m, now);
    if |blockers| < scanLimit {
      var progress := Min(limit, scanLimit - |blockers|);
      AtMost(|AheadOf(fleets[0], m)|, progress);
      var i := BlockedWaitingBound(fleets, nows, limit, scanLimit, returned, m, progress);
    } else {
      Starves(fleets, nows, limit, scanLimit, returned, m, blockers);
    }
  }

  lemma AtMost(r: nat, d: nat)
    requires d >= 1
    ensures r / d <= r
  {
    var q := r / d;
    assert r == d * q + r % d;
    DivMonotone(0, r, d);
    MulNonnegative(d - 1, q);
    assert d * q == (d - 1) * q + q;
  }

  // ----- A monitor that starves ---------------------------------------------

  /** Monitor 0 was checked a microsecond before monitor 1 and is due only after a day; monitor 1 after 30 s. */
  const STARVING: Fleet := map[0 := Schedule(86400, 5, Some(0)), 1 := Schedule(30, 5, Some(1))]

  lemma StarvingAhead()
    ensures AheadOf(STARVING, 1) == {0} && AheadOf(STARVING, 0) == {}
    ensures IsOrder(STARVING, [0, 1])
  {
  }

  lemma StarvingPass(now: int)
    requires 30_000_001 <= now < 86400 * 1_000_000
    ensures Pass(STARVING, now, 1, 1, [], STARVING) && IsDue(STARVING[1], now)
  {
    StarvingAhead();
    assert !IsDue(STARVING[0], now);
    assert DueBetween(STARVING, [0, 1], 0, 1, now) == [];
    assert [] == Selection(STARVING, [0, 1], now, 1, 1);
  }

  /**
   When passes look at one monitor only, this run of any length returns nothing, although monitor 1 is
   due from the first pass on and r / limit + 1 is 2.
   */
  lemma StarvingRun(now: int, n: nat) returns (fleets: seq<Fleet>, nows: seq<int>, returned: seq<seq<nat>>)
    requires 30_000_001 <= now < 86400 * 1_000_000
    ensures |returned| == n && Passes(fleets, nows, 1, 1, returned) && fleets[0] == STARVING
    ensures forall i :: 0 <= i < n ==> fleets[i] == STARVING && IsDue(STARVING[1], nows[i]) && returned[i] == []
    ensures |AheadOf(STARVING, 1)| / 1 + 1 == 2
  {
    StarvingAhead();
    StarvingPass(now);
    fleets := seq(n + 1, i => STARVING);
    nows := seq(n, i => now);
    returned := seq(n, i => []);
  }
}
