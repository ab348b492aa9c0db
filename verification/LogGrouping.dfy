/**
 Log grouping and suppression: `persist_event` of paxalia/logging/services.py.

 Events with one fingerprint share a group row, which counts every occurrence and keeps at most
 a capped number of samples per window. Times are in microseconds.
 */
module LogGrouping {
  import opened Prelude
  import Sampler = WindowSampler

  datatype Payload = Payload(fingerprint: string, severity: string, source: string, category: string, timestamp: int)

  datatype Group = Group(
    severity: string, source: string, category: string,
    firstSeen: int, lastSeen: int,
    occurrences: nat, suppressed: nat,
    windowStartedAt: int, samples: nat)

  /** The configured limits as the code uses them. */
  datatype Limits = Limits(maxSamples: nat, windowLength: nat)

  function Effective(maxSamples: int, dedupeSeconds: int): (r: Limits)
    ensures r.windowLength >= 1_000_000
    ensures maxSamples >= 0 ==> r.maxSamples == maxSamples
    ensures maxSamples < 0 ==> r.maxSamples == 0
    ensures dedupeSeconds >= 1 ==> r.windowLength == dedupeSeconds * 1_000_000
    ensures dedupeSeconds < 1 ==> r.windowLength == 1_000_000
  {
    Limits(Max(0, maxSamples), Max(1, dedupeSeconds) * 1_000_000)
  }

  // ----- What one group does with its payloads ------------------------------

  function Created(p: Payload): (g: Group) {
    Group(p.severity, p.source, p.category, p.timestamp, p.timestamp, 1, 0, p.timestamp, 0)
  }

  /** The row after `p` was counted, before its sample is decided. */
  function Counted(l: Limits, group: Option<Group>, p: Payload): (g: Group) {
    match group
    case None => Created(p)
    case Some(g) =>
      var reopens := p.timestamp - g.windowStartedAt >= l.windowLength;
      g.(windowStartedAt := if reopens then p.timestamp else g.windowStartedAt,
         samples := if reopens then 0 else g.samples,
         lastSeen := p.timestamp, occurrences := g.occurrences + 1,
         severity := p.severity, source := p.source, category := p.category)
  }

  predicate Samples(l: Limits, group: Option<Group>, p: Payload) {
    Counted(l, group, p).samples < l.maxSamples
  }

  function Absorbed(l: Limits, group: Option<Group>, p: Payload): (g: Group) {
    var c := Counted(l, group, p);
    if Samples(l, group, p) then c.(samples := c.samples + 1)
    else if group.None? then c
    else c.(suppressed := c.suppressed + 1)
  }

  /** The group row after the payloads `ps`, in order. */
  function GroupAfter(l: Limits, ps: seq<Payload>): (g: Option<Group>) {
    if ps == [] then None else Some(Absorbed(l, GroupAfter(l, ps[..|ps| - 1]), ps[|ps| - 1]))
  }

  /** The payloads stored as events. */
  function Stored(l: Limits, ps: seq<Payload>): (r: seq<Payload>) {
    if ps == [] then []
    else
      var earlier, p := ps[..|ps| - 1], ps[|ps| - 1];
      Stored(l, earlier) + if Samples(l, GroupAfter(l, earlier), p) then [p] else []
  }

  /**
   Conservation: every payload is counted, and every counted payload was stored or suppressed,
   except the group-creating one when no samples are kept at all.
   */
  lemma {:induction false} Conservation(l: Limits, ps: seq<Payload>)
    requires ps != []
    ensures GroupAfter(l, ps).Some?
    ensures var g := GroupAfter(l, ps).value;
            && g.occurrences == |ps|
            && g.occurrences == |Stored(l, ps)| + g.suppressed + (if l.maxSamples == 0 then 1 else 0)
            && g.samples <= l.maxSamples
            && g.firstSeen == ps[0].timestamp && g.lastSeen == ps[|ps| - 1].timestamp
            && g.severity == ps[|ps| - 1].severity && g.source == ps[|ps| - 1].source
            && g.category == ps[|ps| - 1].category
  {
    if |ps| > 1 {
      Conservation(l, ps[..|ps| - 1]);
    } else {
      assert ps[..0] == [];
    }
  }

  /** With a cap of 0 nothing is ever stored; with any other cap the first payload is. */
  lemma {:induction false} StoredAtAll(l: Limits, ps: seq<Payload>)
    requires ps != []
    ensures l.maxSamples == 0 ==> Stored(l, ps) == []
    ensures l.maxSamples > 0 ==> Stored(l, ps) != [] && Stored(l, ps)[0] == ps[0]
  {
    var earlier := ps[..|ps| - 1];
    if earlier == [] {
      assert GroupAfter(l, earlier) == None;
    } else {
      StoredAtAll(l, earlier);
    }
  }

  /** The books balance exactly when at least one sample is kept per window. */
  lemma {:induction false} BalanceExactly(l: Limits, ps: seq<Payload>)
    requires ps != []
    ensures GroupAfter(l, ps).Some?
    ensures GroupAfter(l, ps).value.occurrences == |Stored(l, ps)| + GroupAfter(l, ps).value.suppressed
            <==> l.maxSamples >= 1
  {
    Conservation(l, ps);
  }

  function Times(ps: seq<Payload>): (ts: seq<int>)
    ensures |ts| == |ps|
  {
    if ps == [] then [] else Times(ps[..|ps| - 1]) + [ps[|ps| - 1].timestamp]
  }

  /** The sampling columns of a row, seen as a window of a fixed-window sampler. */
  function AsWindow(g: Option<Group>): (w: Sampler.Window) {
    if g.None? then Sampler.Idle else Sampler.Window(g.value.windowStartedAt, g.value.samples)
  }

  lemma SampleStep(l: Limits, g: Option<Group>, p: Payload)
    requires l.maxSamples >= 1 && l.windowLength >= 1
    ensures Samples(l, g, p) <==> Sampler.Accepts(l.maxSamples, l.windowLength, AsWindow(g), p.timestamp)
    ensures AsWindow(Some(Absorbed(l, g, p))) ==
            Sampler.Observe(l.maxSamples, l.windowLength, AsWindow(g), p.timestamp)
  {
  }

  lemma GroupAfterSnoc(l: Limits, ps: seq<Payload>, p: Payload)
    ensures GroupAfter(l, ps + [p]) == Some(Absorbed(l, GroupAfter(l, ps), p))
    ensures Stored(l, ps + [p]) == Stored(l, ps) + if Samples(l, GroupAfter(l, ps), p) then [p] else []
  {
    assert (ps + [p])[..|ps|] == ps;
  }

  lemma TimesSnoc(ps: seq<Payload>, p: Payload)
    ensures Times(ps + [p]) == Times(ps) + [p.timestamp]
  {
    assert (ps + [p])[..|ps|] == ps;
  }

  ghost predicate SamplesAlike(l: Limits, ps: seq<Payload>) {
    && AsWindow(GroupAfter(l, ps)) == Sampler.After(l.maxSamples, l.windowLength, Times(ps))
    && Times(Stored(l, ps)) == Sampler.Accepted(l.maxSamples, l.windowLength, Times(ps))
  }

  lemma WindowSnoc(l: Limits, ps: seq<Payload>, p: Payload)
    requires l.maxSamples >= 1 && l.windowLength >= 1 && SamplesAlike(l, ps)
    ensures AsWindow(GroupAfter(l, ps + [p])) == Sampler.After(l.maxSamples, l.windowLength, Times(ps) + [p.timestamp])
  {
    GroupAfterSnoc(l, ps, p);
    SampleStep(l, GroupAfter(l, ps), p);
    Sampler.Snoc(l.maxSamples, l.windowLength, Times(ps), p.timestamp);
  }

  lemma StoredSnoc(l: Limits, ps: seq<Payload>, p: Payload)
    requires l.maxSamples >= 1 && l.windowLength >= 1 && SamplesAlike(l, ps)
    ensures Times(Stored(l, ps + [p])) == Sampler.Accepted(l.maxSamples, l.windowLength, Times(ps) + [p.timestamp])
  {
    var stored := Stored(l, ps);
    GroupAfterSnoc(l, ps, p);
    SampleStep(l, GroupAfter(l, ps), p);
    Sampler.Snoc(l.maxSamples, l.windowLength, Times(ps), p.timestamp);
    if Samples(l, GroupAfter(l, ps), p) {
      TimesSnoc(stored, p);
    } else {
      assert stored + [] == stored && Times(stored) + [] == Times(stored);
    }
  }

  lemma SamplesAlikeSnoc(l: Limits, ps: seq<Payload>, p: Payload)
    requires l.maxSamples >= 1 && l.windowLength >= 1 && SamplesAlike(l, ps)
    ensures SamplesAlike(l, ps + [p])
  {
    TimesSnoc(ps, p);
    WindowSnoc(l, ps, p);
    StoredSnoc(l, ps, p);
  }

  /** The sampling columns of the row are a fixed-window sampler, and it stores what that accepts. */
  lemma {:induction false} SamplesLikeAWindow(l: Limits, ps: seq<Payload>)
    requires l.maxSamples >= 1 && l.windowLength >= 1
    ensures SamplesAlike(l, ps)
  {
    if ps == [] {
    } else {
      SamplesLikeAWindow(l, ps[..|ps| - 1]);
      assert ps == ps[..|ps| - 1] + [ps[|ps| - 1]];
      SamplesAlikeSnoc(l, ps[..|ps| - 1], ps[|ps| - 1]);
    }
  }

  /** The opening times of the sampling windows of a group, oldest first. */
  function WindowStarts(l: Limits, ps: seq<Payload>): (r: seq<int>) {
    if ps == [] then []
    else
      var earlier, p := ps[..|ps| - 1], ps[|ps| - 1];
      var before := GroupAfter(l, earlier);
      if before.None? || p.timestamp - before.value.windowStartedAt >= l.windowLength
      then WindowStarts(l, earlier) + [p.timestamp]
      else WindowStarts(l, earlier)
  }

  /** Windows open at least one window length apart, in whatever order the timestamps arrive. */
  lemma {:induction false} WindowsApart(l: Limits, ps: seq<Payload>, i: nat, j: nat)
    requires i < j < |WindowStarts(l, ps)|
    ensures WindowStarts(l, ps)[j] - WindowStarts(l, ps)[i] >= l.windowLength * (j - i)
    decreases |ps|, j
  {
    var earlier := ps[..|ps| - 1];
    var starts := WindowStarts(l, earlier);
    NewestWindow(l, ps);
    NewestWindow(l, earlier);
    if j < |starts| {
      WindowsApart(l, earlier, i, j);
    } else if i < j - 1 {
      WindowsApart(l, earlier, i, j - 1);
      assert l.windowLength * (j - i) == l.windowLength * (j - 1 - i) + l.windowLength;
    }
  }

  lemma {:induction false} NewestWindow(l: Limits, ps: seq<Payload>)
    ensures ps != [] ==> var g := GroupAfter(l, ps);
                         var starts := WindowStarts(l, ps);
                         g.Some? && starts != [] && starts[|starts| - 1] == g.value.windowStartedAt
    ensures ps == [] ==> WindowStarts(l, ps) == []
  {
    if ps == [] {
    } else {
      NewestWindow(l, ps[..|ps| - 1]);
    }
  }

  /**
   When timestamps do not go back, any half-open interval of length `span` holds at most
   maxSamples * (ceil(span / windowLength) + 1) - 1 stored events of one fingerprint.
   */
  lemma StoredRate(l: Limits, ps: seq<Payload>, a: int, span: nat)
    requires l.maxSamples >= 1 && l.windowLength >= 1 && span >= 1
    requires Sampler.Nondecreasing(Times(ps))
    ensures Sampler.CountIn(Times(Stored(l, ps)), a, a + span) <=
            l.maxSamples * (Sampler.Ceil(span, l.windowLength) + 1) - 1
  {
    Sampler.RateBound(l.maxSamples, l.windowLength, Times(ps), a, span);
    assert Times(Stored(l, ps)) == Sampler.Accepted(l.maxSamples, l.windowLength, Times(ps)) by {
      SamplesLikeAWindow(l, ps);
    }
  }

  // ----- The tables ---------------------------------------------------------

  /**
   What the database does to one attempt. A race is lost to `winner`, another payload of the same
   fingerprint whose transaction commits between the lookup and the insert.
   */
  datatype Fault = NoFault | InsertRace(winner: Payload) | OtherFault

  datatype Outcome = EventStored | GroupReturned | NotStored

  function With(ps: seq<Payload>, fingerprint: string): (r: seq<Payload>) {
    if ps == [] then []
    else With(ps[..|ps| - 1], fingerprint) +
         if ps[|ps| - 1].fingerprint == fingerprint then [ps[|ps| - 1]] else []
  }

  lemma WithSnoc(ps: seq<Payload>, p: Payload, fingerprint: string)
    ensures With(ps + [p], fingerprint) == With(ps, fingerprint) + if p.fingerprint == fingerprint then [p] else []
  {
  }

  /** Each fingerprint's row and events are what its own payloads in `history` amount to. */
  ghost predicate Consistent(l: Limits, groups: map<string, Group>, events: seq<Payload>, history: seq<Payload>) {
    forall f :: ConsistentFor(l, groups, events, history, f)
  }

  ghost predicate ConsistentFor(l: Limits, groups: map<string, Group>, events: seq<Payload>, history: seq<Payload>,
                                f: string) {
    && GroupAfter(l, With(history, f)) == Find(groups, f)
    && With(events, f) == Stored(l, With(history, f))
  }

  function Find(groups: map<string, Group>, f: string): (g: Option<Group>) {
    if f in groups then Some(groups[f]) else None
  }

  /** The events after `p` was or was not sampled. */
  function Kept(events: seq<Payload>, p: Payload, sampled: bool): (r: seq<Payload>) {
    if sampled then events + [p] else events
  }

  lemma KeptWith(events: seq<Payload>, p: Payload, sampled: bool, f: string)
    ensures With(Kept(events, p, sampled), f) ==
            With(events, f) + if sampled && p.fingerprint == f then [p] else []
  {
  }

  /** One more payload changes only the group and the events of its own fingerprint. */
  lemma CommitConsistent(l: Limits, groups: map<string, Group>, events: seq<Payload>, history: seq<Payload>, p: Payload)
    requires Consistent(l, groups, events, history)
    ensures var found := Find(groups, p.fingerprint);
            Consistent(l, groups[p.fingerprint := Absorbed(l, found, p)],
                       Kept(events, p, Samples(l, found, p)), history + [p])
  {
    var found := Find(groups, p.fingerprint);
    var sampled := Samples(l, found, p);
    var groups' := groups[p.fingerprint := Absorbed(l, found, p)];
    forall f ensures ConsistentFor(l, groups', Kept(events, p, sampled), history + [p], f) {
      assert ConsistentFor(l, groups, events, history, f);
      WithSnoc(history, p, f);
      KeptWith(events, p, sampled, f);
      if f == p.fingerprint {
        GroupAfterSnoc(l, With(history, f), p);
      } else {
        assert With(history + [p], f) == With(history, f);
      }
    }
  }

  /** The payload that wins the race for a new group, if there is one to lose. */
  function Winners(groups: map<string, Group>, p: Payload, enabled: bool, fault: Fault): (winners: seq<Payload>) {
    if enabled && fault.InsertRace? && p.fingerprint !in groups then [fault.winner.(fingerprint := p.fingerprint)]
    else []
  }

  class LogTables {
    const limits: Limits
    var groups: map<string, Group>
    var events: seq<Payload>
    /** Every payload that was persisted, in order. */
    ghost var history: seq<Payload>

    ghost predicate Valid()
      reads this
    {
      Consistent(limits, groups, events, history)
    }

    constructor (maxSamples: int, dedupeSeconds: int)
      ensures Valid() && history == [] && groups == map[] && events == []
      ensures limits == Effective(maxSamples, dedupeSeconds)
      ensures maxSamples >= 0 && dedupeSeconds >= 1 ==>
                limits.maxSamples == maxSamples && limits.windowLength == dedupeSeconds * 1_000_000
    {
      limits := Effective(maxSamples, dedupeSeconds);
      groups := map[];
      events := [];
      history := [];
    }

    /** Up to two attempts; only a lost insert race is tried again, and the retry finds the winner's group. */
    method PersistEvent(p: Payload, enabled: bool, faults: (Fault, Fault)) returns (outcome: Outcome)
      requires Valid()
      modifies this
      ensures Valid()
      // Nothing is lost and nothing is counted twice: neither this payload nor that of a winner.
      ensures var winners := Winners(old(groups), p, enabled, faults.0);
              && history == old(history) + winners + (if outcome == NotStored then [] else [p])
              && (winners == [] ==>
                    && (outcome == NotStored ==> groups == old(groups))
                    && events == old(events) + if outcome == EventStored then [p] else [])
      // Only disabled logging or another fault gives up: a race is lost at most once.
      ensures outcome == NotStored <==>
              (!enabled || faults.0 == OtherFault ||
               (Winners(old(groups), p, enabled, faults.0) != [] && faults.1 == OtherFault))
    {
      if !enabled {
        return NotStored;
      }
      var attempt := 0;
      ghost var winners: seq<Payload> := [];
      while attempt < 2
        invariant 0 <= attempt < 2 && Valid()
        invariant attempt == 0 ==> winners == [] && groups == old(groups) && events == old(events)
        invariant attempt == 1 ==> winners != [] && p.fingerprint in groups
        invariant attempt == 1 ==> winners == Winners(old(groups), p, enabled, faults.0)
        invariant history == old(history) + winners
      {
        var fault := if attempt == 0 then faults.0 else faults.1;
        var found := Find(groups, p.fingerprint);
        if fault == OtherFault {
          return NotStored;
        }
        if fault.InsertRace? && found.None? {
          // This happens at the first attempt only: a winner's group is found at the second.
          var winner := fault.winner.(fingerprint := p.fingerprint);
          var _ := Commit(winner, found);
          winners := [winner];
          attempt := attempt + 1;
          continue;
        }
        outcome := Commit(p, found);
        return;
      }
    }

    /** The transaction of one successful attempt. */
    method Commit(p: Payload, found: Option<Group>) returns (outcome: Outcome)
      requires Valid()
      requires found == Find(groups, p.fingerprint)
      modifies this
      ensures Valid() && history == old(history) + [p]
      ensures outcome == if Samples(limits, found, p) then EventStored else GroupReturned
      ensures events == if outcome == EventStored then old(events) + [p] else old(events)
      ensures groups == old(groups)[p.fingerprint := Absorbed(limits, found, p)]
    {
      CommitConsistent(limits, groups, events, history, p);
      var group: Group;
      if found.None? {
        group := Created(p);
      } else {
        group := found.value;
        if p.timestamp - group.windowStartedAt >= limits.windowLength {
          group := group.(windowStartedAt := p.timestamp, samples := 0);
        }
        group := group.(lastSeen := p.timestamp, occurrences := group.occurrences + 1,
                        severity := p.severity, source := p.source, category := p.category);
      }
      if found.None? && limits.maxSamples <= 0 {
        outcome := GroupReturned;
      } else if found.Some? && group.samples >= limits.maxSamples {
        group := group.(suppressed := group.suppressed + 1);
        outcome := GroupReturned;
      } else {
        events := events + [p];
        group := group.(samples := group.samples + 1);
        outcome := EventStored;
      }
      groups := groups[p.fingerprint := group];
      history := history + [p];
    }

    /** In every state, a group counts its payloads, and its stored events and suppressions add up to them. */
    lemma GroupsBalance(f: string)
      requires Valid() && f in groups
      ensures groups[f].occurrences == |With(history, f)|
      ensures groups[f].occurrences ==
              |With(events, f)| + groups[f].suppressed + (if limits.maxSamples == 0 then 1 else 0)
      ensures groups[f].samples <= limits.maxSamples
      ensures With(history, f) != [] && groups[f].firstSeen == With(history, f)[0].timestamp
      ensures var newest := With(history, f)[|With(history, f)| - 1];
              && groups[f].lastSeen == newest.timestamp && groups[f].severity == newest.severity
              && groups[f].source == newest.source && groups[f].category == newest.category
    {
      assert ConsistentFor(limits, groups, events, history, f);
      Conservation(limits, With(history, f));
    }
  }
}
