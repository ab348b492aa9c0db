/**
 Bounded log pruning: `prune_log_events` of paxalia/resource_policies.py.

 One run spends a single budget on four phases, in this order: expired events, events beyond the
 record cap, events while the table is too large, and groups left without events. Times are in
 microseconds. `dry_run` is not modelled.
 */
module LogPruning {
  import opened Prelude

  const DAY := 86_400_000_000

  /** The five standard severities; an application may log under other names too. */
  datatype Severity = Debug | Info | Warning | Error | Critical | Other(name: string)

  datatype Event = Event(severity: Severity, source: string, category: string, timestamp: int, group: Option<nat>)

  type Events = map<nat, Event>

  /** The log groups, each with the time it was last seen. */
  type Groups = map<nat, int>

  /**
   The retention configuration. A configured number of days is `None` when it does not convert to an
   integer; `names` holds the trimmed, lower-cased, non-empty keys of the category policies.
   */
  datatype Policy = Policy(
    severityDays: map<Severity, Option<int>>,
    categoryDays: map<string, Option<int>>,
    names: set<string>,
    maxRecords: nat,
    maxStorageBytes: nat,
    batchSize: nat)

  datatype Summary = Summary(retention: nat, maxRecords: nat, storage: nat, groups: nat) {
    function Total(): (n: nat) {
      retention + maxRecords + storage + groups
    }
  }

  // ----- Policies -----------------------------------------------------------

  function NonnegativeOr(value: Option<int>, default: nat): (n: nat) {
    if value.None? then default else Max(0, value.value)
  }

  /** The budget of a run: the requested size if it is usable, and at least 1. */
  function Budget(p: Policy, requested: Option<int>): (n: nat)
    ensures n >= 1
  {
    Max(1, NonnegativeOr(requested, p.batchSize))
  }

  function DefaultSeverityDays(severity: Severity): (days: nat) {
    match severity
    case Debug => 7
    case Info => 30
    case Warning => 60
    case Error => 180
    case Critical => 365
    case Other(_) => 30
  }

  function SeverityRetentionDays(p: Policy, severity: Severity): (days: nat) {
    var default := DefaultSeverityDays(severity);
    if severity in p.severityDays then NonnegativeOr(p.severityDays[severity], default) else default
  }

  /** A category without its own entry uses the one for "system". */
  function CategoryRetentionDays(p: Policy, category: string, default: nat): (days: nat) {
    if category in p.categoryDays then NonnegativeOr(p.categoryDays[category], default)
    else if "system" in p.categoryDays then NonnegativeOr(p.categoryDays["system"], default)
    else default
  }

  predicate Expired(p: Policy, now: int, e: Event) {
    var bySeverity := SeverityRetentionDays(p, e.severity);
    var days := if e.category in p.names then CategoryRetentionDays(p, e.category, bySeverity) else bySeverity;
    e.timestamp < now - days * DAY
  }

  predicate Protected(e: Event) {
    e.severity == Critical || e.source == "Authentication" || "security" <= e.category
  }

  /** The eviction order: severity, then age, then key. */
  function Rank(severity: Severity): (r: nat) {
    match severity
    case Debug => 0
    case Info => 1
    case Warning => 2
    case Error => 3
    case Critical => 4
    case Other(_) => 4
  }

  predicate Sooner(events: Events, a: nat, b: nat)
    requires a in events && b in events
  {
    var x, y := events[a], events[b];
    var r, s := Rank(x.severity), Rank(y.severity);
    r < s || (r == s && (x.timestamp < y.timestamp || (x.timestamp == y.timestamp && a < b)))
  }

  // ----- Ordered, limited queries -------------------------------------------

  /** `ids` are the first `n` of `pool` in eviction order. */
  ghost predicate Lowest(events: Events, pool: set<nat>, n: int, ids: set<nat>) {
    && ids <= pool <= events.Keys
    && 0 <= n && |ids| == Min(n, |pool|)
    && forall a, b :: a in ids && b in pool && b !in ids ==> Sooner(events, a, b)
  }

  lemma {:induction false} SoonestExists(events: Events, pool: set<nat>) returns (a: nat)
    requires pool != {} && pool <= events.Keys
    ensures a in pool && forall b :: b in pool && b != a ==> Sooner(events, a, b)
  {
    a :| a in pool;
    if pool != {a} {
      var c := SoonestExists(events, pool - {a});
      forall b | b in pool && b != a && b != c ensures Sooner(events, c, b) {
        assert b in pool - {a};
      }
      if Sooner(events, c, a) {
        a := c;
      }
    }
  }

  /** The database's answer to an ordered query with a limit. */
  method FirstIds(events: Events, pool: set<nat>, n: nat) returns (ids: set<nat>)
    requires pool <= events.Keys
    ensures Lowest(events, pool, n, ids)
  {
    ids := {};
    var rest := pool;
    while |ids| < n && rest != {}
      invariant ids + rest == pool && ids !! rest && |ids| <= n
      invariant forall a, b :: a in ids && b in rest ==> Sooner(events, a, b)
      decreases |rest|
    {
      ghost var soonest := SoonestExists(events, rest);
      var a :| a in rest && forall b :: b in rest && b != a ==> Sooner(events, a, b);
      ids := ids + {a};
      rest := rest - {a};
    }
    assert |pool| == |ids| + |rest|;
  }

  lemma MinusTwice<T>(m: map<nat, T>, a: set<nat>, b: set<nat>)
    ensures m - a - b == m - (a + b)
  {
  }

  lemma RemovedCount<T>(m: map<nat, T>, ids: set<nat>)
    requires ids <= m.Keys
    ensures |m - ids| == |m| - |ids|
  {
  }

  lemma LowestFits(events: Events, pool: set<nat>, n: nat, ids: set<nat>)
    requires Lowest(events, pool, n, ids) && |ids| < n
    ensures ids == pool
  {
    assert pool == ids + (pool - ids);
    assert |pool| == |ids| + |pool - ids|;
  }

  // ----- One run ------------------------------------------------------------

  /** The expired events that no rule protects. */
  ghost function Overdue(p: Policy, now: int, events: Events): (r: set<nat>) {
    set a | a in events && !Protected(events[a]) && Expired(p, now, events[a])
  }

  /** Those of them that no retention query asks for: their severity is not a standard one. */
  ghost function Forgotten(p: Policy, now: int, events: Events): (r: set<nat>) {
    set a | a in Overdue(p, now, events) && events[a].severity.Other?
  }

  /** The events that the retention phase may delete. */
  ghost function Eligible(p: Policy, now: int, events: Events): (r: set<nat>)
    ensures r <= events.Keys
  {
    set a | a in events && Rank(events[a].severity) < 4 && !Protected(events[a]) && Expired(p, now, events[a])
  }

  function Unprotected(events: Events): (r: set<nat>)
    ensures r <= events.Keys
  {
    set a | a in events && !Protected(events[a])
  }

  predicate HasEvents(events: Events, g: nat) {
    exists a :: a in events && events[a].group == Some(g)
  }

  function Dangling(events: Events, groups: Groups): (r: set<nat>)
    ensures r <= groups.Keys
  {
    set g | g in groups && !HasEvents(events, g)
  }

  /** `ids` are `n` of the longest unseen groups in `pool`; ties fall either way. */
  ghost predicate Oldest(groups: Groups, pool: set<nat>, n: int, ids: set<nat>) {
    && ids <= pool <= groups.Keys
    && 0 <= n && |ids| == Min(n, |pool|)
    && forall g, h :: g in ids && h in pool && h !in ids ==> groups[g] <= groups[h]
  }

  predicate OverStorage(p: Policy, size: Option<nat>) {
    size.Some? && p.maxStorageBytes > 0 && size.value > p.maxStorageBytes
  }

  /** The deletions of one run: event keys by phase, and group keys. */
  datatype Deletions = Deletions(expired: set<nat>, excess: set<nat>, oversize: set<nat>, groups: set<nat>) {
    function Events(): (r: set<nat>) {
      expired + excess + oversize
    }
  }

  /**
   What one run with budget `batch` deletes, given the table size `size` it reads. The retention
   phase is one ordered query over all expired events, although the code asks severity by severity.
   */
  ghost predicate Run(p: Policy, now: int, batch: nat, size: Option<nat>,
                      before: Events, groups: Groups, d: Deletions)
  {
    && EventPhases(p, now, batch, size, before, d.expired, d.excess, d.oversize)
    && Oldest(groups, Dangling(before - d.expired - d.excess - d.oversize, groups),
              batch - |d.expired| - |d.excess| - |d.oversize|, d.groups)
  }

  /** The three phases that delete events, each from what the earlier ones left. */
  ghost predicate EventPhases(p: Policy, now: int, batch: nat, size: Option<nat>,
                              before: Events, expired: set<nat>, excess: set<nat>, oversize: set<nat>)
  {
    && Lowest(before, Eligible(p, now, before), batch, expired)
    && CapPhase(p, batch - |expired|, before - expired, excess)
    && StoragePhase(p, batch - |expired| - |excess|, size, before - expired - excess, oversize)
  }

  ghost predicate CapPhase(p: Policy, budget: int, events: Events, ids: set<nat>) {
    Lowest(events, Unprotected(events), Min(Max(0, |events| - p.maxRecords), budget), ids)
  }

  ghost predicate StoragePhase(p: Policy, budget: int, size: Option<nat>, events: Events, ids: set<nat>) {
    Lowest(events, Unprotected(events), if OverStorage(p, size) then budget else 0, ids)
  }

  // ----- The retention phase ------------------------------------------------

  ghost function EligibleBelow(p: Policy, now: int, events: Events, rank: nat): (r: set<nat>)
    ensures r <= Eligible(p, now, events)
  {
    set a | a in Eligible(p, now, events) && Rank(events[a].severity) < rank
  }

  /** The query for one severity other than CRITICAL. */
  function OfSeverity(p: Policy, now: int, events: Events, severity: Severity): (r: set<nat>)
    ensures r <= events.Keys
  {
    set a | a in events && events[a].severity == severity && Expired(p, now, events[a])
            && !(events[a].source == "Authentication" || "security" <= events[a].category)
  }

  const SEVERITIES := [Debug, Info, Warning, Error, Critical]

  /** What the query for the severity at position `i` adds to those before it. */
  lemma SeverityPool(p: Policy, now: int, before: Events, i: nat, ids: set<nat>)
    requires i < 4 && ids == EligibleBelow(p, now, before, i)
    ensures var pool := OfSeverity(p, now, before - ids, SEVERITIES[i]);
            pool !! ids && EligibleBelow(p, now, before, i + 1) == ids + pool
    ensures forall a :: a in OfSeverity(p, now, before - ids, SEVERITIES[i]) ==> Rank(before[a].severity) == i
  {
  }

  lemma NextSeverity(p: Policy, now: int, before: Events, batch: nat, ids: set<nat>, i: nat, chosen: set<nat>)
    requires i < 5 && |ids| < batch
    requires Lowest(before, EligibleBelow(p, now, before, i), batch, ids)
    requires Lowest(before - ids, if SEVERITIES[i] == Critical then {} else OfSeverity(p, now, before - ids, SEVERITIES[i]),
                    batch - |ids|, chosen)
    ensures Lowest(before, EligibleBelow(p, now, before, i + 1), batch, ids + chosen)
    ensures |ids + chosen| == |ids| + |chosen|
    ensures before - ids - chosen == before - (ids + chosen)
  {
    MinusTwice(before, ids, chosen);
    if i == 4 {
      assert EligibleBelow(p, now, before, i + 1) == EligibleBelow(p, now, before, i);
      assert ids + chosen == ids;
    } else {
      LowestFits(before, EligibleBelow(p, now, before, i), batch, ids);
      SeverityPool(p, now, before, i, ids);
      JoinLowest(before, ids, OfSeverity(p, now, before - ids, SEVERITIES[i]), batch, chosen);
    }
  }

  /** Taking a whole pool and then the lowest of a later one takes the lowest of both. */
  lemma JoinLowest(events: Events, first: set<nat>, second: set<nat>, n: nat, chosen: set<nat>)
    requires first <= events.Keys && second <= (events - first).Keys && |first| < n
    requires forall a, b :: a in first && b in second ==> Sooner(events, a, b)
    requires Lowest(events - first, second, n - |first|, chosen)
    ensures Lowest(events, first + second, n, first + chosen) && |first + chosen| == |first| + |chosen|
  {
  }

  /** Either the severities or the budget ran out. */
  lemma AllSeverities(p: Policy, now: int, before: Events, batch: nat, i: nat, ids: set<nat>)
    requires Lowest(before, EligibleBelow(p, now, before, i), batch, ids)
    requires i >= 4 || |ids| == batch
    ensures Lowest(before, Eligible(p, now, before), batch, ids)
  {
    var all, done := Eligible(p, now, before), EligibleBelow(p, now, before, i);
    SubsetSize(done, all);
    assert i >= 4 ==> done == all;
  }

  /** The database's answer to the query for the longest unseen dangling groups. */
  method OldestGroups(groups: Groups, pool: set<nat>, n: nat) returns (ids: set<nat>)
    requires pool <= groups.Keys
    ensures Oldest(groups, pool, n, ids)
  {
    ids := {};
    var rest := pool;
    while |ids| < n && rest != {}
      invariant ids + rest == pool && ids !! rest && |ids| <= n
      invariant forall g, h :: g in ids && h in rest ==> groups[g] <= groups[h]
      decreases |rest|
    {
      ghost var oldest := OldestExists(groups, rest);
      var g :| g in rest && forall h :: h in rest ==> groups[g] <= groups[h];
      ids := ids + {g};
      rest := rest - {g};
    }
    assert |pool| == |ids| + |rest|;
  }

  lemma {:induction false} OldestExists(groups: Groups, pool: set<nat>) returns (g: nat)
    requires pool != {} && pool <= groups.Keys
    ensures g in pool && forall h :: h in pool ==> groups[g] <= groups[h]
  {
    g :| g in pool;
    if pool != {g} {
      var c := OldestExists(groups, pool - {g});
      if groups[c] < groups[g] {
        g := c;
      }
    }
  }

  /** The phases, one after the other, are a run. */
  lemma Assemble(p: Policy, now: int, batch: nat, size: Option<nat>, before: Events, after: Events, groups: Groups,
                 d: Deletions)
    requires after == before - d.expired - d.excess - d.oversize
    requires EventPhases(p, now, batch, size, before, d.expired, d.excess, d.oversize)
    requires Oldest(groups, Dangling(after, groups), batch - |d.expired| - |d.excess| - |d.oversize|, d.groups)
    ensures Run(p, now, batch, size, before, groups, d) && after == before - d.Events()
  {
  }

  class LogStore {
    var events: Events
    var groups: Groups

    constructor (events: Events, groups: Groups)
      ensures this.events == events && this.groups == groups
    {
      this.events := events;
      this.groups := groups;
    }

    method DeleteEvents(ids: set<nat>)
      modifies this`events
      ensures events == old(events) - ids
    {
      events := events - ids;
    }

    /** The retention phase: one query for each severity, as long as budget is left. */
    method DeleteExpired(p: Policy, now: int, batch: nat) returns (ids: set<nat>)
      modifies this`events
      ensures Lowest(old(events), Eligible(p, now, old(events)), batch, ids)
      ensures events == old(events) - ids
    {
      ghost var before := events;
      ids := {};
      var remaining := batch;
      var i := 0;
      while i < |SEVERITIES|
        invariant 0 <= i <= 5 && events == before - ids
        invariant Lowest(before, EligibleBelow(p, now, before, i), batch, ids)
        invariant remaining == batch - |ids|
      {
        if remaining <= 0 {
          break;
        }
        // CRITICAL events never expire.
        var pool := if SEVERITIES[i] == Critical then {} else OfSeverity(p, now, events, SEVERITIES[i]);
        var chosen := FirstIds(events, pool, remaining);
        NextSeverity(p, now, before, batch, ids, i, chosen);
        DeleteEvents(chosen);
        ids := ids + chosen;
        remaining := Max(0, remaining - |chosen|);
        i := i + 1;
      }
      AllSeverities(p, now, before, batch, i, ids);
    }

    /** `size` is what the table size query answers during the run, if it answers. */
    method PruneLogEvents(p: Policy, now: int, requested: Option<int>, size: Option<nat>)
      returns (summary: Summary, ghost d: Deletions)
      modifies this
      ensures Run(p, now, Budget(p, requested), size, old(events), old(groups), d)
      ensures events == old(events) - d.Events() && groups == old(groups) - d.groups
      ensures summary == Summary(|d.expired|, |d.excess|, |d.oversize|, |d.groups|)
    {
      var batch := Budget(p, requested);
      var expired, excess, oversize := DeleteInPhases(p, now, batch, size);
      var remaining := batch - |expired| - |excess| - |oversize|;
      var dangling := OldestGroups(groups, Dangling(events, groups), remaining);
      groups := groups - dangling;
      summary := Summary(|expired|, |excess|, |oversize|, |dangling|);
      d := Deletions(expired, excess, oversize, dangling);
      Assemble(p, now, batch, size, old(events), events, old(groups), d);
    }

    /** The three phases that delete events, and what they leave of the budget. */
    method DeleteInPhases(p: Policy, now: int, batch: nat, size: Option<nat>)
      returns (expired: set<nat>, excess: set<nat>, oversize: set<nat>)
      modifies this`events
      ensures EventPhases(p, now, batch, size, old(events), expired, excess, oversize)
      ensures events == old(events) - expired - excess - oversize
      ensures |expired| + |excess| + |oversize| <= batch
    {
      expired := DeleteExpired(p, now, batch);
      var remaining := batch - |expired|;
      excess := DeleteExcess(p, remaining);
      remaining := remaining - |excess|;
      oversize := DeleteOversize(p, size, remaining);
    }

    method DeleteExcess(p: Policy, remaining: nat) returns (ids: set<nat>)
      modifies this`events
      ensures CapPhase(p, remaining, old(events), ids)
      ensures events == old(events) - ids && |ids| <= remaining
    {
      ids := {};
      var excess := Min(Max(0, |events| - p.maxRecords), remaining);
      if excess > 0 {
        ids := FirstIds(events, Unprotected(events), excess);
        DeleteEvents(ids);
      }
    }

    method DeleteOversize(p: Policy, size: Option<nat>, remaining: nat) returns (ids: set<nat>)
      modifies this`events
      ensures StoragePhase(p, remaining, size, old(events), ids)
      ensures events == old(events) - ids && |ids| <= remaining
    {
      ids := {};
      if OverStorage(p, size) {
        ids := FirstIds(events, Unprotected(events), remaining);
        DeleteEvents(ids);
      }
    }
  }

  // ----- What one run guarantees --------------------------------------------

  lemma RunCounts(p: Policy, now: int, batch: nat, size: Option<nat>, before: Events, groups: Groups, d: Deletions)
    requires Run(p, now, batch, size, before, groups, d)
    ensures |before - d.Events()| == |before| - |d.expired| - |d.excess| - |d.oversize|
    ensures |groups - d.groups| == |groups| - |d.groups|
    ensures before - d.expired - d.excess - d.oversize == before - d.Events()
    ensures |before - d.expired - d.excess| == |before| - |d.expired| - |d.excess|
  {
    RemovedCount(before, d.expired);
    RemovedCount(before - d.expired, d.excess);
    RemovedCount(before - d.expired - d.excess, d.oversize);
    RemovedCount(groups, d.groups);
    MinusTwice(before, d.expired, d.excess);
    MinusTwice(before, d.expired + d.excess, d.oversize);
  }

  lemma ExpiredIsEligible(p: Policy, now: int, batch: nat, size: Option<nat>, before: Events, groups: Groups, d: Deletions)
    requires Run(p, now, batch, size, before, groups, d)
    ensures d.expired <= Eligible(p, now, before)
  {
  }

  lemma EvictedIsUnprotected(p: Policy, now: int, batch: nat, size: Option<nat>, before: Events, groups: Groups,
                             d: Deletions)
    requires Run(p, now, batch, size, before, groups, d)
    ensures d.excess <= Unprotected(before - d.expired)
    ensures d.oversize <= Unprotected(before - d.expired - d.excess)
  {
  }

  lemma RunDeletesUnprotected(p: Policy, now: int, batch: nat, size: Option<nat>, before: Events, groups: Groups,
                              d: Deletions)
    requires Run(p, now, batch, size, before, groups, d)
    ensures forall a :: a in d.Events() ==> a in before && !Protected(before[a])
  {
    ExpiredIsEligible(p, now, batch, size, before, groups, d);
    EvictedIsUnprotected(p, now, batch, size, before, groups, d);
    assert Unprotected(before - d.expired) <= Unprotected(before);
    assert Unprotected(before - d.expired - d.excess) <= Unprotected(before);
  }

  lemma EventBudget(p: Policy, now: int, batch: nat, size: Option<nat>, before: Events,
                    expired: set<nat>, excess: set<nat>, oversize: set<nat>)
    requires EventPhases(p, now, batch, size, before, expired, excess, oversize)
    ensures |expired| + |excess| + |oversize| <= batch
  {
    LowestSize(before, Eligible(p, now, before), batch, expired);
    var rest := before - expired;
    LowestSize(rest, Unprotected(rest), Min(Max(0, |rest| - p.maxRecords), batch - |expired|), excess);
    var last := before - expired - excess;
    LowestSize(last, Unprotected(last), if OverStorage(p, size) then batch - |expired| - |excess| else 0, oversize);
  }

  lemma LowestSize(events: Events, pool: set<nat>, n: int, ids: set<nat>)
    requires Lowest(events, pool, n, ids)
    ensures 0 <= n && |ids| <= n
  {
  }

  /** The four phases share one budget, and the store shrinks by what they delete. */
  lemma RunKeepsItsBudget(p: Policy, now: int, batch: nat, size: Option<nat>, before: Events, groups: Groups, d: Deletions)
    requires Run(p, now, batch, size, before, groups, d)
    ensures |d.expired| + |d.excess| + |d.oversize| + |d.groups| <= batch
    ensures |before - d.Events()| + |groups - d.groups| ==
            |before| + |groups| - (|d.expired| + |d.excess| + |d.oversize| + |d.groups|)
  {
    RunCounts(p, now, batch, size, before, groups, d);
    EventBudget(p, now, batch, size, before, d.expired, d.excess, d.oversize);
  }

  /** The record cap is never undershot. */
  lemma CapIsNotUndershot(p: Policy, now: int, batch: nat, size: Option<nat>, before: Events, groups: Groups, d: Deletions)
    requires Run(p, now, batch, size, before, groups, d)
    ensures d.excess != {} ==> |before - d.expired - d.excess| >= p.maxRecords
  {
    CapPhaseStops(p, batch - |d.expired|, before - d.expired, d.excess);
  }

  lemma CapPhaseStops(p: Policy, budget: int, events: Events, ids: set<nat>)
    requires CapPhase(p, budget, events, ids)
    ensures ids != {} ==> |events - ids| >= p.maxRecords
  {
    RemovedCount(events, ids);
  }

  /** Protected events and groups in use survive every run. */
  lemma RunSparesProtected(p: Policy, now: int, batch: nat, size: Option<nat>, before: Events, groups: Groups, d: Deletions)
    requires Run(p, now, batch, size, before, groups, d)
    ensures forall a :: a in before && before[a].severity == Critical ==> a in before - d.Events()
    ensures forall a :: a in before && before[a].source == "Authentication" ==> a in before - d.Events()
    ensures forall a :: a in before && "security" <= before[a].category ==> a in before - d.Events()
    ensures forall a :: a in before - d.Events() && before[a].group.Some? && before[a].group.value in groups ==>
              before[a].group.value in groups - d.groups
  {
    RunCounts(p, now, batch, size, before, groups, d);
    RunDeletesUnprotected(p, now, batch, size, before, groups, d);
    assert d.groups <= Dangling(before - d.Events(), groups);
    forall a | a in before - d.Events() && before[a].group.Some? && before[a].group.value in groups
      ensures before[a].group.value in groups - d.groups
    {
      assert HasEvents(before - d.Events(), before[a].group.value);
    }
  }

  /** Every limit is met or cannot be met by deleting unprotected events, and no group dangles. */
  ghost predicate Settled(p: Policy, now: int, size: Option<nat>, events: Events, groups: Groups) {
    && Eligible(p, now, events) == {}
    && (|events| <= p.maxRecords || Unprotected(events) == {})
    && (!OverStorage(p, size) || Unprotected(events) == {})
    && Dangling(events, groups) == {}
  }

  /** A run that deletes nothing is one on a settled store, and every run on a settled store deletes nothing. */
  lemma QuietExactlyWhenSettled(p: Policy, now: int, batch: nat, size: Option<nat>, before: Events, groups: Groups,
                                d: Deletions)
    requires batch >= 1 && Run(p, now, batch, size, before, groups, d)
    ensures d == Deletions({}, {}, {}, {}) <==> Settled(p, now, size, before, groups)
  {
    QuietRetention(p, now, batch, size, before, groups, d);
    if d.expired == {} {
      QuietCap(p, now, batch, size, before, groups, d);
      if d.excess == {} {
        QuietStorage(p, now, batch, size, before, groups, d);
        if d.oversize == {} {
          QuietGroups(p, now, batch, size, before, groups, d);
        }
      }
    }
  }

  lemma QuietRetention(p: Policy, now: int, batch: nat, size: Option<nat>, before: Events, groups: Groups, d: Deletions)
    requires batch >= 1 && Run(p, now, batch, size, before, groups, d)
    ensures d.expired == {} <==> Eligible(p, now, before) == {}
  {
    RetentionPhaseOf(p, now, batch, size, before, groups, d);
    NothingTaken(Eligible(p, now, before), batch, d.expired);
  }

  lemma QuietCap(p: Policy, now: int, batch: nat, size: Option<nat>, before: Events, groups: Groups, d: Deletions)
    requires batch >= 1 && Run(p, now, batch, size, before, groups, d) && d.expired == {}
    ensures d.excess == {} <==> |before| <= p.maxRecords || Unprotected(before) == {}
  {
    CapPhaseOf(p, now, batch, size, before, groups, d);
    assert before - d.expired == before;
    NothingTaken(Unprotected(before), Min(Max(0, |before| - p.maxRecords), batch), d.excess);
  }

  lemma QuietStorage(p: Policy, now: int, batch: nat, size: Option<nat>, before: Events, groups: Groups, d: Deletions)
    requires batch >= 1 && Run(p, now, batch, size, before, groups, d) && d.expired == {} && d.excess == {}
    ensures d.oversize == {} <==> !OverStorage(p, size) || Unprotected(before) == {}
  {
    StoragePhaseOf(p, now, batch, size, before, groups, d);
    assert before - d.expired - d.excess == before;
    NothingTaken(Unprotected(before), if OverStorage(p, size) then batch else 0, d.oversize);
  }

  lemma QuietGroups(p: Policy, now: int, batch: nat, size: Option<nat>, before: Events, groups: Groups, d: Deletions)
    requires batch >= 1 && Run(p, now, batch, size, before, groups, d)
    requires d.expired == {} && d.excess == {} && d.oversize == {}
    ensures d.groups == {} <==> Dangling(before, groups) == {}
  {
    GroupPhase(p, now, batch, size, before, groups, d);
    assert before - d.Events() == before;
    NothingTaken(Dangling(before, groups), batch, d.groups);
  }

  lemma NothingTaken(pool: set<nat>, n: int, ids: set<nat>)
    requires 0 <= n && |ids| == Min(n, |pool|)
    ensures ids == {} <==> n == 0 || pool == {}
  {
  }

  // ----- A run in the fields of the events ----------------------------------

  /** No rule protects the event. */
  predicate MayGo(e: Event) {
    e.severity != Critical && e.source != "Authentication" && !("security" <= e.category)
  }

  predicate IsStandard(severity: Severity) {
    severity == Debug || severity == Info || severity == Warning || severity == Error
  }

  /**
   Deleting event `a` and keeping `b` is in order: no event goes while one of a lower severity could,
   and among equals the older goes first, at equal times the one with the lower key. Severities that
   are not standard are equals, above the standard ones.
   */
  predicate IsInOrder(events: Events, a: nat, b: nat)
    requires a in events && b in events
  {
    var x, y := events[a], events[b];
    && (y.severity == Debug ==> x.severity == Debug)
    && (y.severity == Info ==> x.severity == Debug || x.severity == Info)
    && (y.severity == Warning ==> x.severity == Debug || x.severity == Info || x.severity == Warning)
    && (y.severity == Error ==> IsStandard(x.severity))
    && (x.severity == y.severity || (!IsStandard(x.severity) && !IsStandard(y.severity)) ==>
          x.timestamp < y.timestamp || (x.timestamp == y.timestamp && a < b))
  }

  lemma LowestInOrder(events: Events, pool: set<nat>, n: int, ids: set<nat>, a: nat, b: nat)
    requires Lowest(events, pool, n, ids) && a in ids && b in pool && b !in ids
    ensures a in events && b in events && IsInOrder(events, a, b)
  {
    assert Sooner(events, a, b);
  }

  lemma LowestExhausts(events: Events, pool: set<nat>, n: int, ids: set<nat>, b: nat)
    requires Lowest(events, pool, n, ids) && b in pool && b !in ids
    ensures |ids| == n
  {
    assert ids <= pool - {b};
    SubsetSize(ids, pool - {b});
  }

  lemma PhaseExhausts(events: Events, n: int, ids: set<nat>, b: nat)
    requires Lowest(events, Unprotected(events), n, ids) && b in events && b !in ids && MayGo(events[b])
    ensures |ids| == n
  {
    assert b in Unprotected(events);
    LowestExhausts(events, Unprotected(events), n, ids, b);
  }

  predicate MayExpire(p: Policy, now: int, e: Event) {
    MayGo(e) && IsStandard(e.severity) && Expired(p, now, e)
  }

  /** What a phase that evicts takes, and in which order. */
  lemma PhaseInOrder(events: Events, n: int, ids: set<nat>, a: nat, b: nat)
    requires Lowest(events, Unprotected(events), n, ids) && a in ids
    ensures a in events && MayGo(events[a])
    ensures b in events && b !in ids && MayGo(events[b]) ==> IsInOrder(events, a, b)
  {
    assert a in Unprotected(events);
    if b in events && b !in ids && MayGo(events[b]) {
      assert b in Unprotected(events);
      LowestInOrder(events, Unprotected(events), n, ids, a, b);
    }
  }

  lemma EligibleTells(p: Policy, now: int, events: Events, a: nat)
    ensures a in Eligible(p, now, events) <==> a in events && MayExpire(p, now, events[a])
  {
  }

  lemma RetentionPhaseOf(p: Policy, now: int, batch: nat, size: Option<nat>, before: Events, groups: Groups, d: Deletions)
    requires Run(p, now, batch, size, before, groups, d)
    ensures Lowest(before, Eligible(p, now, before), batch, d.expired)
  {
  }

  /** The retention phase: what it takes, and in which order. */
  lemma RetentionInOrder(p: Policy, now: int, batch: nat, size: Option<nat>, before: Events, groups: Groups, d: Deletions,
                         a: nat, b: nat)
    requires Run(p, now, batch, size, before, groups, d)
    requires a in d.expired
    ensures a in before && MayExpire(p, now, before[a])
    ensures b in before && b !in d.expired && MayExpire(p, now, before[b]) ==> IsInOrder(before, a, b)
  {
    RetentionPhaseOf(p, now, batch, size, before, groups, d);
    EligibleTells(p, now, before, a);
    if b in before && b !in d.expired && MayExpire(p, now, before[b]) {
      EligibleTells(p, now, before, b);
      LowestInOrder(before, Eligible(p, now, before), batch, d.expired, a, b);
    }
  }

  /** An expired event outlives a run only if the budget is spent. */
  lemma RetentionIsThorough(p: Policy, now: int, batch: nat, size: Option<nat>, before: Events, groups: Groups,
                            d: Deletions, b: nat)
    requires Run(p, now, batch, size, before, groups, d)
    requires b in before && b !in d.expired && MayExpire(p, now, before[b])
    ensures |d.expired| == batch
  {
    RetentionPhaseOf(p, now, batch, size, before, groups, d);
    EligibleTells(p, now, before, b);
    LowestExhausts(before, Eligible(p, now, before), batch, d.expired, b);
  }

  /** What the retention phase leaves, and what the record cap leaves of that. */
  function AfterRetention(before: Events, d: Deletions): (rest: Events) {
    before - d.expired
  }

  function AfterCap(before: Events, d: Deletions): (rest: Events) {
    before - d.expired - d.excess
  }

  /** The record cap: `a` goes although `b` could. */
  lemma CapInOrder(p: Policy, now: int, batch: nat, size: Option<nat>, before: Events, groups: Groups, d: Deletions,
                   a: nat, b: nat)
    requires Run(p, now, batch, size, before, groups, d)
    requires a in d.excess
    ensures a in AfterRetention(before, d) && MayGo(before[a])
    ensures b in AfterCap(before, d) && MayGo(before[b]) ==> IsInOrder(before, a, b)
  {
    CapPhaseOf(p, now, batch, size, before, groups, d);
    var rest := before - d.expired;
    PhaseInOrder(rest, Min(Max(0, |rest| - p.maxRecords), batch - |d.expired|), d.excess, a, b);
  }

  lemma CapPhaseOf(p: Policy, now: int, batch: nat, size: Option<nat>, before: Events, groups: Groups, d: Deletions)
    requires Run(p, now, batch, size, before, groups, d)
    ensures CapPhase(p, batch - |d.expired|, before - d.expired, d.excess)
  {
  }

  lemma StoragePhaseOf(p: Policy, now: int, batch: nat, size: Option<nat>, before: Events, groups: Groups, d: Deletions)
    requires Run(p, now, batch, size, before, groups, d)
    ensures StoragePhase(p, batch - |d.expired| - |d.excess|, size, before - d.expired - d.excess, d.oversize)
  {
  }

  /** The record cap takes nothing from a store within it, stops at it, and falls short of it only for want of
      budget or of events that may go. */
  lemma CapIsThorough(p: Policy, now: int, batch: nat, size: Option<nat>, before: Events, groups: Groups, d: Deletions)
    requires Run(p, now, batch, size, before, groups, d)
    ensures |AfterRetention(before, d)| <= p.maxRecords ==> d.excess == {}
    ensures d.excess != {} ==> |AfterCap(before, d)| >= p.maxRecords
    ensures forall b :: b in AfterCap(before, d) && MayGo(before[b]) && |AfterCap(before, d)| > p.maxRecords ==>
              |d.expired| + |d.excess| == batch
  {
    var rest := before - d.expired;
    NoExcess(p, batch - |d.expired|, rest, d.excess);
    CapPhaseStops(p, batch - |d.expired|, rest, d.excess);
    EvictedIsUnprotected(p, now, batch, size, before, groups, d);
    RemovedCount(rest, d.excess);
    forall b | b in AfterCap(before, d) && MayGo(before[b]) && |AfterCap(before, d)| > p.maxRecords
      ensures |d.expired| + |d.excess| == batch
    {
      assert b in Unprotected(rest);
      LowestExhausts(rest, Unprotected(rest), Min(Max(0, |rest| - p.maxRecords), batch - |d.expired|), d.excess, b);
    }
  }

  /** The storage phase: the same order, and as long as the table is too large it stops only for want of budget or events. */
  lemma StorageInOrder(p: Policy, now: int, batch: nat, size: Option<nat>, before: Events, groups: Groups, d: Deletions,
                       a: nat, b: nat)
    requires Run(p, now, batch, size, before, groups, d)
    requires a in d.oversize
    ensures a in AfterCap(before, d) && MayGo(before[a])
    ensures size.Some? && p.maxStorageBytes > 0 && size.value > p.maxStorageBytes
    ensures b in before - d.Events() && MayGo(before[b]) ==> IsInOrder(before, a, b)
  {
    StoragePhaseOf(p, now, batch, size, before, groups, d);
    var rest := before - d.expired - d.excess;
    var budget := batch - |d.expired| - |d.excess|;
    NoOversize(p, size, budget, rest, d.oversize);
    PhaseInOrder(rest, if OverStorage(p, size) then budget else 0, d.oversize, a, b);
  }

  lemma StorageIsThorough(p: Policy, now: int, batch: nat, size: Option<nat>, before: Events, groups: Groups,
                          d: Deletions, b: nat)
    requires Run(p, now, batch, size, before, groups, d)
    requires size.Some? && p.maxStorageBytes > 0 && size.value > p.maxStorageBytes
    requires b in before - d.Events() && MayGo(before[b])
    ensures |d.expired| + |d.excess| + |d.oversize| == batch
  {
    StoragePhaseOf(p, now, batch, size, before, groups, d);
    var rest := before - d.expired - d.excess;
    PhaseExhausts(rest, batch - |d.expired| - |d.excess|, d.oversize, b);
  }

  /** The group goes without an event that is left. */
  ghost predicate IsUnused(before: Events, d: Deletions, g: nat) {
    forall a :: a in before && a !in d.Events() ==> before[a].group != Some(g)
  }

  /** The groups that go have no event left, are longest unseen, and leave others only for want of budget. */
  lemma GroupsInOrder(p: Policy, now: int, batch: nat, size: Option<nat>, before: Events, groups: Groups, d: Deletions,
                      h: nat)
    requires Run(p, now, batch, size, before, groups, d)
    ensures forall g :: g in d.groups ==> g in groups && IsUnused(before, d, g)
    ensures h in groups && h !in d.groups && IsUnused(before, d, h) ==>
              && |d.expired| + |d.excess| + |d.oversize| + |d.groups| == batch
              && forall g :: g in d.groups ==> groups[g] <= groups[h]
  {
    RunCounts(p, now, batch, size, before, groups, d);
    var after := before - d.Events();
    var pool := Dangling(after, groups);
    GroupPhase(p, now, batch, size, before, groups, d);
    forall g | g in d.groups ensures g in groups && IsUnused(before, d, g) {
      assert g in pool;
      assert forall a :: a in before && a !in d.Events() ==> a in after && after[a] == before[a];
    }
    if h in groups && h !in d.groups && IsUnused(before, d, h) {
      assert forall a :: a in after ==> after[a].group != Some(h);
      assert h in pool;
      SubsetSize(d.groups, pool - {h});
    }
  }

  lemma GroupPhase(p: Policy, now: int, batch: nat, size: Option<nat>, before: Events, groups: Groups, d: Deletions)
    requires Run(p, now, batch, size, before, groups, d)
    ensures Oldest(groups, Dangling(before - d.Events(), groups),
                   batch - |d.expired| - |d.excess| - |d.oversize|, d.groups)
  {
    RunCounts(p, now, batch, size, before, groups, d);
  }

  // ----- Retention periods --------------------------------------------------

  /** Without configuration the periods are 7, 30, 60 and 180 days, and 30 for a severity that is not standard. */
  lemma DefaultPeriods(p: Policy, now: int, e: Event)
    requires e.severity !in p.severityDays && e.category !in p.names
    ensures e.severity == Debug ==> (Expired(p, now, e) <==> now - e.timestamp > 7 * 86_400_000_000)
    ensures e.severity == Info ==> (Expired(p, now, e) <==> now - e.timestamp > 30 * 86_400_000_000)
    ensures e.severity == Warning ==> (Expired(p, now, e) <==> now - e.timestamp > 60 * 86_400_000_000)
    ensures e.severity == Error ==> (Expired(p, now, e) <==> now - e.timestamp > 180 * 86_400_000_000)
    ensures e.severity == Critical ==> (Expired(p, now, e) <==> now - e.timestamp > 365 * 86_400_000_000)
    ensures e.severity.Other? ==> (Expired(p, now, e) <==> now - e.timestamp > 30 * 86_400_000_000)
  {
  }

  /** A configured number of days replaces the default, below 0 counts as 0, and what is not a number is ignored. */
  lemma SeverityPeriods(p: Policy, now: int, e: Event)
    requires e.severity in p.severityDays && e.category !in p.names
    ensures var days := p.severityDays[e.severity];
            && (days.Some? && days.value >= 0 ==>
                  (Expired(p, now, e) <==> now - e.timestamp > days.value * 86_400_000_000))
            && (days.Some? && days.value < 0 ==> (Expired(p, now, e) <==> now > e.timestamp))
            && (days.None? ==>
                  (Expired(p, now, e) <==> Expired(p.(severityDays := p.severityDays - {e.severity}), now, e)))
  {
  }

  /** A category policy takes precedence over the severity; its own entry, else that for "system", else the severity. */
  lemma CategoryPeriods(p: Policy, now: int, e: Event)
    requires e.category in p.names
    ensures var own := e.category in p.categoryDays;
            var general := "system" in p.categoryDays;
            var plain := Expired(p.(names := p.names - {e.category}), now, e);
            && (own && p.categoryDays[e.category].Some? ==>
                  (Expired(p, now, e) <==>
                   now - e.timestamp > Max(0, p.categoryDays[e.category].value) * 86_400_000_000))
            && (own && p.categoryDays[e.category].None? ==> (Expired(p, now, e) <==> plain))
            && (!own && general && p.categoryDays["system"].Some? ==>
                  (Expired(p, now, e) <==>
                   now - e.timestamp > Max(0, p.categoryDays["system"].value) * 86_400_000_000))
            && (!own && general && p.categoryDays["system"].None? ==> (Expired(p, now, e) <==> plain))
            && (!own && !general ==> (Expired(p, now, e) <==> plain))
  {
  }

  /** The budget is the requested size, or the configured one when the request is not a number, and at least 1. */
  lemma BudgetMeaning(p: Policy, requested: Option<int>)
    ensures requested.Some? && requested.value >= 1 ==> Budget(p, requested) == requested.value
    ensures requested.Some? && requested.value < 1 ==> Budget(p, requested) == 1
    ensures requested.None? && p.batchSize >= 1 ==> Budget(p, requested) == p.batchSize
    ensures requested.None? && p.batchSize == 0 ==> Budget(p, requested) == 1
  {
  }

  // ----- Events that never expire -------------------------------------------

  /** The retention phase may take every overdue event but the forgotten ones. */
  lemma EligibleMeaning(p: Policy, now: int, events: Events)
    ensures Eligible(p, now, events) == Overdue(p, now, events) - Forgotten(p, now, events)
  {
  }

  /** What a settled store keeps of the overdue events: the forgotten ones, and only those. */
  lemma SettledMeaning(p: Policy, now: int, size: Option<nat>, events: Events, groups: Groups)
    requires Settled(p, now, size, events, groups)
    ensures Overdue(p, now, events) == Forgotten(p, now, events)
    ensures Overdue(p, now, events) == {} <==>
            forall a :: a in events && events[a].severity.Other? && !Protected(events[a]) ==> !Expired(p, now, events[a])
  {
    EligibleMeaning(p, now, events);
    var overdue := Overdue(p, now, events);
    forall a | a in overdue ensures a in Forgotten(p, now, events) {
      assert a !in Eligible(p, now, events);
    }
    assert overdue == Forgotten(p, now, events);
    if overdue != {} {
      var a :| a in overdue;
      assert events[a].severity.Other? && !Protected(events[a]) && Expired(p, now, events[a]);
    }
    forall a | a in events && events[a].severity.Other? && !Protected(events[a])
      ensures Expired(p, now, events[a]) ==> a in overdue
    {
    }
  }

  lemma ForgottenMinus(p: Policy, now: int, events: Events, ids: set<nat>)
    ensures Forgotten(p, now, events - ids) == Forgotten(p, now, events) - ids
  {
  }

  /** Only the record cap and the storage limit ever remove a forgotten event. */
  lemma ForgottenOutlivesRetention(p: Policy, now: int, batch: nat, size: Option<nat>, before: Events, groups: Groups,
                                   d: Deletions)
    requires Run(p, now, batch, size, before, groups, d)
    ensures d.expired !! Forgotten(p, now, before)
    ensures Forgotten(p, now, before - d.Events()) == Forgotten(p, now, before) - d.excess - d.oversize
  {
    ExpiredIsEligible(p, now, batch, size, before, groups, d);
    EligibleMeaning(p, now, before);
    ForgottenMinus(p, now, before, d.Events());
    SkipDisjoint(Forgotten(p, now, before), d.expired, d.excess, d.oversize);
  }

  lemma SkipDisjoint(all: set<nat>, a: set<nat>, b: set<nat>, c: set<nat>)
    requires a !! all
    ensures all - (a + b + c) == all - b - c
  {
  }

  /**
   A store with room for everything keeps an expired, unprotected event for good when its severity is
   not a standard one: no run deletes anything.
   */
  lemma TraceNeverExpires(maxRecords: nat, maxStorageBytes: nat, batch: nat, now: int, d: Deletions)
    requires maxRecords >= 1 && batch >= 1 && now > 30 * DAY
    requires Run(Policy(map[], map[], {}, maxRecords, maxStorageBytes, batch), now, batch, None,
                 map[1 := Event(Other("TRACE"), "Application", "application", 0, Some(1))], map[1 := 0], d)
    ensures var p := Policy(map[], map[], {}, maxRecords, maxStorageBytes, batch);
            var events: Events := map[1 := Event(Other("TRACE"), "Application", "application", 0, Some(1))];
            && Expired(p, now, events[1]) && !Protected(events[1])
            && Settled(p, now, None, events, map[1 := 0])
            && d == Deletions({}, {}, {}, {})
  {
    var p := Policy(map[], map[], {}, maxRecords, maxStorageBytes, batch);
    var events: Events := map[1 := Event(Other("TRACE"), "Application", "application", 0, Some(1))];
    assert 1 in events && HasEvents(events, 1);
    assert events.Keys == {1};
    assert Dangling(events, map[1 := 0]) == {};
    assert "application"[0] != "security"[0];
    QuietExactlyWhenSettled(p, now, batch, None, events, map[1 := 0], d);
  }

  // ----- Repeated runs ------------------------------------------------------

  datatype Store = Store(events: Events, groups: Groups)

  ghost predicate Step(p: Policy, now: int, batch: nat, size: Option<nat>, s: Store, d: Deletions, next: Store) {
    && Run(p, now, batch, size, s.events, s.groups, d)
    && next == Store(s.events - d.Events(), s.groups - d.groups)
  }

  /** Consecutive runs with one clock; `sizes` are the table sizes they read, `ds` what they delete. */
  ghost predicate Runs(p: Policy, now: int, batch: nat, stores: seq<Store>, sizes: seq<Option<nat>>, ds: seq<Deletions>) {
    && |stores| == |ds| + 1 && |sizes| == |ds|
    && forall i :: 0 <= i < |ds| ==> Step(p, now, batch, sizes[i], stores[i], ds[i], stores[i + 1])
  }

  function Size(s: Store): (n: nat) {
    |s.events| + |s.groups|
  }

  /** A run on an unsettled store makes it smaller. */
  lemma UnsettledShrinks(p: Policy, now: int, batch: nat, size: Option<nat>, s: Store, d: Deletions, next: Store)
    requires batch >= 1 && Step(p, now, batch, size, s, d, next)
    ensures Settled(p, now, size, s.events, s.groups) || Size(next) < Size(s)
  {
    QuietExactlyWhenSettled(p, now, batch, size, s.events, s.groups, d);
    RunCounts(p, now, batch, size, s.events, s.groups, d);
    assert d != Deletions({}, {}, {}, {}) ==> |d.expired| + |d.excess| + |d.oversize| + |d.groups| > 0;
  }

  lemma StepForgets(p: Policy, now: int, batch: nat, size: Option<nat>, s: Store, d: Deletions, next: Store)
    requires Step(p, now, batch, size, s, d, next)
    ensures Forgotten(p, now, next.events) <= Forgotten(p, now, s.events)
  {
    ForgottenOutlivesRetention(p, now, batch, size, s.events, s.groups, d);
  }

  /**
   Whatever the table size query answers, after at most as many runs as there are events and groups
   the store is settled. Of the overdue events it then keeps exactly the forgotten ones that the cap
   and the storage limit left, hence none if there was none to begin with.
   */
  lemma RunsConverge(p: Policy, now: int, batch: nat, stores: seq<Store>, sizes: seq<Option<nat>>, ds: seq<Deletions>)
    returns (i: nat)
    requires batch >= 1 && Runs(p, now, batch, stores, sizes, ds)
    requires |ds| > Size(stores[0])
    ensures i <= Size(stores[0]) && i < |ds|
    ensures Settled(p, now, sizes[i], stores[i].events, stores[i].groups)
    ensures Overdue(p, now, stores[i].events) == Forgotten(p, now, stores[i].events) <= Forgotten(p, now, stores[0].events)
  {
    i := 0;
    while !Settled(p, now, sizes[i], stores[i].events, stores[i].groups)
      invariant i <= Size(stores[0])
      invariant i + Size(stores[i]) <= Size(stores[0])
      invariant Forgotten(p, now, stores[i].events) <= Forgotten(p, now, stores[0].events)
      decreases Size(stores[i])
    {
      UnsettledShrinks(p, now, batch, sizes[i], stores[i], ds[i], stores[i + 1]);
      StepForgets(p, now, batch, sizes[i], stores[i], ds[i], stores[i + 1]);
      i := i + 1;
    }
    SettledMeaning(p, now, sizes[i], stores[i].events, stores[i].groups);
  }

  /** Without pressure from the cap and the storage limit, runs free the store of overdue events
      if and only if none of them was forgotten to begin with. */
  lemma FreedExactly(p: Policy, now: int, batch: nat, stores: seq<Store>, sizes: seq<Option<nat>>, ds: seq<Deletions>)
    returns (i: nat)
    requires batch >= 1 && Runs(p, now, batch, stores, sizes, ds)
    requires |ds| > Size(stores[0])
    requires |stores[0].events| <= p.maxRecords && forall j :: 0 <= j < |sizes| ==> !OverStorage(p, sizes[j])
    ensures i <= Size(stores[0]) && i < |ds|
    ensures Overdue(p, now, stores[i].events) == {} <==> Forgotten(p, now, stores[0].events) == {}
  {
    i := 0;
    while !Settled(p, now, sizes[i], stores[i].events, stores[i].groups)
      invariant i <= Size(stores[0])
      invariant i + Size(stores[i]) <= Size(stores[0])
      invariant |stores[i].events| <= p.maxRecords
      invariant Forgotten(p, now, stores[i].events) == Forgotten(p, now, stores[0].events)
      decreases Size(stores[i])
    {
      UnsettledShrinks(p, now, batch, sizes[i], stores[i], ds[i], stores[i + 1]);
      NoPressure(p, now, batch, sizes[i], stores[i], ds[i], stores[i + 1]);
      i := i + 1;
    }
    SettledMeaning(p, now, sizes[i], stores[i].events, stores[i].groups);
  }

  lemma NoPressure(p: Policy, now: int, batch: nat, size: Option<nat>, s: Store, d: Deletions, next: Store)
    requires Step(p, now, batch, size, s, d, next) && |s.events| <= p.maxRecords && !OverStorage(p, size)
    ensures |next.events| <= p.maxRecords && Forgotten(p, now, next.events) == Forgotten(p, now, s.events)
  {
    ForgottenOutlivesRetention(p, now, batch, size, s.events, s.groups, d);
    OnlyExpired(p, now, batch, size, s.events, s.groups, d);
    RemovedCount(s.events, d.expired);
  }

  lemma OnlyExpired(p: Policy, now: int, batch: nat, size: Option<nat>, before: Events, groups: Groups, d: Deletions)
    requires Run(p, now, batch, size, before, groups, d) && |before| <= p.maxRecords && !OverStorage(p, size)
    ensures d.excess == {} && d.oversize == {} && d.expired <= before.Keys && d.Events() == d.expired
  {
    ExpiredIsEligible(p, now, batch, size, before, groups, d);
    RemovedCount(before, d.expired);
    NoExcess(p, batch - |d.expired|, before - d.expired, d.excess);
    NoOversize(p, size, batch - |d.expired| - |d.excess|, before - d.expired - d.excess, d.oversize);
  }

  lemma NoExcess(p: Policy, budget: int, events: Events, ids: set<nat>)
    requires CapPhase(p, budget, events, ids)
    ensures |events| <= p.maxRecords ==> ids == {}
  {
  }

  lemma NoOversize(p: Policy, size: Option<nat>, budget: int, events: Events, ids: set<nat>)
    requires StoragePhase(p, budget, size, events, ids)
    ensures !OverStorage(p, size) ==> ids == {}
  {
  }
}
