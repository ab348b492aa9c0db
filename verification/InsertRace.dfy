/**
 The first-insert race of `persist_event` (paxalia/logging/services.py).

 Several emitters persist payloads with one new fingerprint at once. Each looks the group up under
 a row lock, inserts it when there is none, and tries once more when the unique fingerprint rejects
 its insert. A row that is being inserted is invisible to lookups, and blocks other inserts of the
 same fingerprint, until its transaction commits.
 */
module InsertRace {
  import opened Prelude
  import opened LogGrouping

  /** Where an emitter's transaction stands. `attempt` is 0 or 1. */
  datatype Stage =
    | Looking(attempt: nat)
    | Inserting(attempt: nat)
    | Creating           // its new row is in the table, not yet committed
    | Updating           // it holds the row lock
    | Finished
    | GaveUp

  datatype State = State(
    group: Option<Group>,
    creator: Option<nat>,
    lockHolder: Option<nat>,
    stages: seq<Stage>,
    events: seq<Payload>,
    order: seq<nat>)      // the emitters whose transaction committed, in order

  function Start(emitters: nat): (s: State) {
    State(None, None, None, seq(emitters, i => Looking(0)), [], [])
  }

  /** A blocked emitter waits for another transaction to end. */
  predicate CanMove(s: State, i: nat) {
    && i < |s.stages|
    && match s.stages[i]
       case Looking(_) => s.group.None? || s.lockHolder.None?
       case Inserting(_) => s.creator.None?
       case Creating => true
       case Updating => true
       case Finished => false
       case GaveUp => false
  }

  function Commit(l: Limits, s: State, i: nat, p: Payload): (r: State)
    requires i < |s.stages|
  {
    State(Some(Absorbed(l, s.group, p)), None, None, s.stages[i := Finished],
          Kept(s.events, p, Samples(l, s.group, p)), s.order + [i])
  }

  function Move(l: Limits, s: State, i: nat, p: Payload): (r: State)
    requires CanMove(s, i)
  {
    match s.stages[i]
    case Looking(attempt) =>
      if s.group.None? then s.(stages := s.stages[i := Inserting(attempt)])
      else s.(lockHolder := Some(i), stages := s.stages[i := Updating])
    case Inserting(attempt) =>
      if s.group.None? then s.(creator := Some(i), stages := s.stages[i := Creating])
      else s.(stages := s.stages[i := if attempt == 0 then Looking(1) else GaveUp])
    case Creating => Commit(l, s, i, p)
    case Updating => Commit(l, s, i, p)
  }

  /** The payloads of `ps` in commit order. */
  function InOrder(ps: seq<Payload>, order: seq<nat>): (r: seq<Payload>)
    requires forall k :: 0 <= k < |order| ==> order[k] < |ps|
    ensures |r| == |order|
  {
    if order == [] then [] else InOrder(ps, order[..|order| - 1]) + [ps[order[|order| - 1]]]
  }

  /** Each commit is one finished emitter, once. */
  ghost predicate CommitsOnce(n: nat, s: State) {
    && |s.stages| == n
    && (forall k :: 0 <= k < |s.order| ==> s.order[k] < n)
    && Distinct(s.order)
    && (forall i :: 0 <= i < n ==> (s.stages[i] == Finished <==> i in s.order))
  }

  /** The committed tables are those of a sequential run in commit order. */
  ghost predicate Serial(l: Limits, ps: seq<Payload>, s: State)
    requires CommitsOnce(|ps|, s)
  {
    && s.group == GroupAfter(l, InOrder(ps, s.order))
    && s.events == Stored(l, InOrder(ps, s.order))
  }

  /** The transactions in progress. */
  ghost predicate Exclusive(s: State) {
    && (forall i :: 0 <= i < |s.stages| ==> (s.stages[i] == Creating <==> s.creator == Some(i)))
    && (forall i :: 0 <= i < |s.stages| ==> (s.stages[i] == Updating <==> s.lockHolder == Some(i)))
    && (s.creator.Some? ==> s.creator.value < |s.stages| && s.group.None?)
    && (s.lockHolder.Some? ==> s.lockHolder.value < |s.stages| && s.group.Some?)
  }

  /** A retry always finds the winner's row. */
  ghost predicate RetryFinds(s: State) {
    forall i :: 0 <= i < |s.stages| ==>
      match s.stages[i]
      case Looking(attempt) => attempt == 0 || (attempt == 1 && s.group.Some?)
      case Inserting(attempt) => attempt == 0
      case GaveUp => false
      case _ => true
  }

  /** What every interleaving keeps. */
  ghost predicate Inv(l: Limits, ps: seq<Payload>, s: State) {
    CommitsOnce(|ps|, s) && Serial(l, ps, s) && Exclusive(s) && RetryFinds(s)
  }

  lemma StartInv(l: Limits, ps: seq<Payload>)
    ensures Inv(l, ps, Start(|ps|))
  {
  }

  predicate InTransaction(s: State, i: nat) {
    i < |s.stages| && (s.stages[i] == Creating || s.stages[i] == Updating)
  }

  lemma InOrderSnoc(ps: seq<Payload>, order: seq<nat>, i: nat)
    requires (forall k :: 0 <= k < |order| ==> order[k] < |ps|) && i < |ps|
    ensures forall k :: 0 <= k < |order| + 1 ==> (order + [i])[k] < |ps|
    ensures InOrder(ps, order + [i]) == InOrder(ps, order) + [ps[i]]
  {
    assert (order + [i])[..|order|] == order;
  }

  /** A commit adds its emitter to the order, once. */
  lemma CommitIsOnce(l: Limits, n: nat, s: State, i: nat, p: Payload)
    requires CommitsOnce(n, s) && InTransaction(s, i)
    ensures CommitsOnce(n, Commit(l, s, i, p))
  {
    var order := s.order + [i];
    assert i !in s.order;
    assert order[|s.order|] == i && forall k :: 0 <= k < |s.order| ==> order[k] == s.order[k];
    DistinctSnoc(s.order, i);
    forall j | 0 <= j < n ensures s.stages[i := Finished][j] == Finished <==> j in order {
      assert j in order <==> j in s.order || j == i;
    }
  }

  /** What is committed stays a sequential run in commit order. */
  lemma CommitIsSerial(l: Limits, ps: seq<Payload>, s: State, i: nat)
    requires CommitsOnce(|ps|, s) && Serial(l, ps, s) && InTransaction(s, i)
    requires CommitsOnce(|ps|, Commit(l, s, i, ps[i]))
    ensures Serial(l, ps, Commit(l, s, i, ps[i]))
  {
    InOrderSnoc(ps, s.order, i);
    GroupAfterSnoc(l, InOrder(ps, s.order), ps[i]);
    assert s.events + [] == s.events;
  }

  /** A commit ends the only transaction in progress. */
  lemma CommitIsExclusive(l: Limits, s: State, i: nat, p: Payload)
    requires Exclusive(s) && InTransaction(s, i)
    ensures Exclusive(Commit(l, s, i, p))
  {
    var t := Commit(l, s, i, p);
    forall j | 0 <= j < |t.stages| ensures t.stages[j] != Creating && t.stages[j] != Updating {
      assert j != i ==> t.stages[j] == s.stages[j];
    }
  }

  lemma CommitLeavesRetries(l: Limits, s: State, i: nat, p: Payload)
    requires RetryFinds(s) && InTransaction(s, i)
    ensures RetryFinds(Commit(l, s, i, p))
  {
    var t := Commit(l, s, i, p);
    assert forall j :: 0 <= j < |t.stages| ==> t.stages[j] == if j == i then Finished else s.stages[j];
  }

  lemma CommitInv(l: Limits, ps: seq<Payload>, s: State, i: nat)
    requires Inv(l, ps, s) && i < |ps| && InTransaction(s, i)
    ensures Inv(l, ps, Commit(l, s, i, ps[i]))
  {
    CommitIsOnce(l, |ps|, s, i, ps[i]);
    CommitIsSerial(l, ps, s, i);
    CommitIsExclusive(l, s, i, ps[i]);
    CommitLeavesRetries(l, s, i, ps[i]);
  }

  lemma MoveInv(l: Limits, ps: seq<Payload>, s: State, i: nat)
    requires Inv(l, ps, s) && i < |ps| && CanMove(s, i)
    ensures Inv(l, ps, Move(l, s, i, ps[i]))
  {
    if s.stages[i] == Creating || s.stages[i] == Updating {
      CommitInv(l, ps, s, i);
    }
  }

  // ----- Progress -----------------------------------------------------------

  /** Some emitter can move until all have finished: waiting never becomes deadlock. */
  lemma NoDeadlock(l: Limits, ps: seq<Payload>, s: State, i: nat) returns (j: nat)
    requires Inv(l, ps, s) && i < |ps| && s.stages[i] != Finished
    ensures j < |ps| && CanMove(s, j)
  {
    j := if s.creator.Some? then s.creator.value else if s.lockHolder.Some? then s.lockHolder.value else i;
    assert s.creator.Some? ==> s.stages[s.creator.value] == Creating;
    assert s.creator.None? && s.lockHolder.Some? ==> s.stages[s.lockHolder.value] == Updating;
  }

  function Work(stage: Stage): (n: nat)
    ensures n <= 4
  {
    match stage
    case Looking(attempt) => if attempt == 0 then 4 else 2
    case Inserting(_) => 3
    case Creating => 1
    case Updating => 1
    case Finished => 0
    case GaveUp => 0
  }

  function TotalWork(stages: seq<Stage>): (n: nat)
    ensures n <= 4 * |stages|
  {
    if stages == [] then 0 else TotalWork(stages[..|stages| - 1]) + Work(stages[|stages| - 1])
  }

  lemma {:induction false} TotalWorkUpdate(stages: seq<Stage>, i: nat, next: Stage)
    requires i < |stages|
    ensures TotalWork(stages[i := next]) == TotalWork(stages) - Work(stages[i]) + Work(next)
  {
    var last := |stages| - 1;
    if i < last {
      TotalWorkUpdate(stages[..last], i, next);
      assert stages[i := next][..last] == stages[..last][i := next];
    } else {
      assert stages[i := next][..last] == stages[..last];
    }
  }

  lemma MoveDoesWork(l: Limits, ps: seq<Payload>, s: State, i: nat)
    requires Inv(l, ps, s) && i < |ps| && CanMove(s, i)
    ensures TotalWork(Move(l, s, i, ps[i]).stages) < TotalWork(s.stages)
  {
    var t := Move(l, s, i, ps[i]);
    TotalWorkUpdate(s.stages, i, t.stages[i]);
    assert t.stages == s.stages[i := t.stages[i]];
  }

  // ----- Whole runs ---------------------------------------------------------

  /** `schedule` names, move by move, the emitter that moves next. */
  ghost predicate Runs(l: Limits, ps: seq<Payload>, s: State, schedule: seq<nat>, end: State)
    decreases |schedule|
  {
    if schedule == [] then end == s
    else
      var i := schedule[0];
      i < |ps| && CanMove(s, i) && Runs(l, ps, Move(l, s, i, ps[i]), schedule[1..], end)
  }

  lemma {:induction false} RunInv(l: Limits, ps: seq<Payload>, s: State, schedule: seq<nat>, end: State)
    requires Inv(l, ps, s) && Runs(l, ps, s, schedule, end)
    ensures Inv(l, ps, end)
    ensures |schedule| + TotalWork(end.stages) <= TotalWork(s.stages)
    decreases |schedule|
  {
    if schedule == [] {
    } else {
      var i := schedule[0];
      MoveInv(l, ps, s, i);
      MoveDoesWork(l, ps, s, i);
      RunInv(l, ps, Move(l, s, i, ps[i]), schedule[1..], end);
    }
  }

  /**
   Every interleaving of `|ps|` emitters takes at most four moves each; at every moment nobody has
   exhausted its retry, and what is committed is what a sequential run in commit order leaves.
   Once nobody can move, everybody has finished and one group counts them all.
   */
  lemma EveryInterleaving(l: Limits, ps: seq<Payload>, schedule: seq<nat>, end: State)
    requires Runs(l, ps, Start(|ps|), schedule, end)
    ensures |schedule| <= 4 * |ps|
    ensures |end.stages| == |ps| && forall i :: 0 <= i < |ps| ==> end.stages[i] != GaveUp
    ensures (forall k :: 0 <= k < |end.order| ==> end.order[k] < |ps|)
            && end.group == GroupAfter(l, InOrder(ps, end.order))
            && end.events == Stored(l, InOrder(ps, end.order))
    ensures (forall i: nat :: !CanMove(end, i)) && |ps| > 0 ==>
              && (forall i :: 0 <= i < |ps| ==> end.stages[i] == Finished && i in end.order)
              && |end.order| == |ps|
              && end.group.Some? && end.group.value.occurrences == |ps|
              && end.group.value.occurrences ==
                 |end.events| + end.group.value.suppressed + (if l.maxSamples == 0 then 1 else 0)
  {
    StartInv(l, ps);
    RunInv(l, ps, Start(|ps|), schedule, end);
    if (forall i: nat :: !CanMove(end, i)) && |ps| > 0 {
      AtRest(l, ps, end);
    }
  }

  /** Where nobody can move, everybody has finished. */
  lemma AtRest(l: Limits, ps: seq<Payload>, end: State)
    requires Inv(l, ps, end) && |ps| > 0 && forall i: nat :: !CanMove(end, i)
    ensures forall i :: 0 <= i < |ps| ==> end.stages[i] == Finished && i in end.order
    ensures |end.order| == |ps|
    ensures end.group.Some? && end.group.value.occurrences == |ps|
    ensures end.group.value.occurrences ==
            |end.events| + end.group.value.suppressed + (if l.maxSamples == 0 then 1 else 0)
  {
    forall i | 0 <= i < |ps| ensures end.stages[i] == Finished {
      if end.stages[i] != Finished {
        var j := NoDeadlock(l, ps, end, i);
      }
    }
    ListingSize(end.order, |ps|);
    Conservation(l, InOrder(ps, end.order));
  }
}
