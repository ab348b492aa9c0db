/**
 The authentication throttle of paxalia/security_rate_limit.py: a counter in a shared cache entry
 that expires `window` after it was added.

 Two views. `AttemptCounter` runs whole calls one after another on a clock, through expiry.
 `Protocol` runs many callers at once, one cache operation at a time, within one entry's lifetime.
 */
module RateLimiter {
  import opened Prelude
  import opened WindowSampler

  datatype Entry = Entry(value: nat, expiresAt: int)

  /** The cache entry of one throttling key. */
  class AttemptCounter {
    const limit: int
    const window: int
    var entry: Option<Entry>
    /** The calls since the last `Clear`, and the granted ones among them. */
    ghost var calls: seq<int>
    ghost var granted: seq<int>

    /** The limit and the window as the code uses them: at least 1. */
    function Limit(): (r: nat)
      ensures limit >= 1 ==> r == limit
      ensures limit < 1 ==> r == 1
    {
      Max(1, limit)
    }

    function Width(): (r: nat)
      ensures window >= 1 ==> r == window
      ensures window < 1 ==> r == 1
    {
      Max(1, window)
    }

    ghost function Abstract(): (w: Window)
      reads this
    {
      match entry
      case None => Idle
      case Some(e) => Window(e.expiresAt - Width(), e.value)
    }

    /** The entry is the window that a fixed-window sampler has after the same calls. */
    ghost predicate Valid()
      reads this
    {
      && Abstract() == After(Limit(), Width(), calls)
      && granted == Accepted(Limit(), Width(), calls)
      && Nondecreasing(calls)
      && (entry.Some? ==> entry.value.value >= 1)
    }

    constructor (limit: int, window: int)
      ensures Valid() && entry.None? && calls == []
      ensures this.limit == limit && this.window == window
    {
      this.limit := limit;
      this.window := window;
      entry := None;
      calls := [];
      granted := [];
    }

    /** An entry is gone from the moment it expires. */
    function Get(now: int): (value: Option<nat>)
      reads this
    {
      if entry.Some? && now < entry.value.expiresAt then Some(entry.value.value) else None
    }

    method Add(value: nat, timeout: nat, now: int) returns (added: bool)
      modifies this`entry
      ensures added <==> old(Get(now)).None?
      ensures entry == if added then Some(Entry(value, now + timeout)) else old(entry)
    {
      added := Get(now).None?;
      if added {
        entry := Some(Entry(value, now + timeout));
      }
    }

    method Incr(now: int) returns (value: nat)
      requires Get(now).Some?
      modifies this`entry
      ensures value == old(Get(now)).value + 1
      ensures entry == Some(Entry(value, old(entry).value.expiresAt))
    {
      value := entry.value.value + 1;
      entry := Some(entry.value.(value := value));
    }

    method Allowed(now: int) returns (ok: bool, remaining: nat)
      requires Valid()
      requires calls != [] ==> calls[|calls| - 1] <= now
      modifies this
      ensures Valid() && calls == old(calls) + [now]
      ensures ok <==> Accepts(Limit(), Width(), After(Limit(), Width(), old(calls)), now)
      // In the entry's own terms: granted if there is none, if it has expired or if it counts less than the limit.
      ensures ok <==> old(entry).None? || now >= old(entry).value.expiresAt || old(entry).value.value < Limit()
      ensures granted == old(granted) + if ok then [now] else []
      ensures entry.Some? && now < entry.value.expiresAt
      ensures remaining == Limit() - entry.value.value
      ensures !ok ==> entry == old(entry)
    {
      var max := Limit();
      var width := Width();
      ghost var before := calls;
      Snoc(max, width, before, now);
      WindowIsBounded(max, width, before);
      calls := calls + [now];
      granted := Accepted(max, width, calls);

      var current := Get(now);
      var seen := 0;
      if current.None? {
        var added := Add(1, width, now);
        if added {
          return true, Max(0, max - 1);
        }
        // Losing the add needs another caller in between; `Protocol` below has that case.
        assert false;
      } else {
        seen := current.value;
      }
      if seen >= max {
        return false, 0;
      }
      var value := Incr(now);
      return value <= max, Max(0, max - value);
    }

    method Clear()
      modifies this
      ensures Valid() && entry.None? && calls == []
    {
      entry := None;
      calls := [];
      granted := [];
    }

    /** Since the last `Clear`, no half-open interval of one window's length contains 2 * limit grants. */
    lemma GrantsPerInterval(a: int)
      requires Valid()
      ensures CountIn(granted, a, a + Width()) <= 2 * Limit() - 1
      ensures limit >= 1 && window >= 1 ==> CountIn(granted, a, a + window) <= 2 * limit - 1
    {
      OneWidthBound(Limit(), Width(), calls, a);
    }

    /** The entry counts the grants since it was added, and expires `window` after that. */
    lemma EntryMeaning(b: int)
      requires Valid() && calls != [] && calls[|calls| - 1] < b
      ensures entry.Some?
      ensures limit >= 1 && window >= 1 ==>
                var start := entry.value.expiresAt - window;
                && start <= calls[|calls| - 1] < entry.value.expiresAt
                && entry.value.value == CountIn(granted, start, b) <= limit
    {
      WindowMeaning(Limit(), Width(), calls, b);
      WindowIsBounded(Limit(), Width(), calls);
    }
  }

  // ----- Concurrent callers ------------------------------------------------

  /** Where a caller stands between two cache operations. */
  datatype Stage = Outside | Adding | Rereading | Incrementing

  datatype Protocol = Protocol(cell: Option<nat>, stages: seq<Stage>, grants: nat, denials: nat)

  function Start(callers: nat): (s: Protocol) {
    Protocol(None, seq(callers, i => Outside), 0, 0)
  }

  /** After reading `seen`, a caller gives up at the limit and increments below it. */
  function Decide(limit: nat, s: Protocol, i: nat, seen: nat): (r: Protocol)
    requires i < |s.stages|
  {
    if seen >= limit then s.(stages := s.stages[i := Outside], denials := s.denials + 1)
    else s.(stages := s.stages[i := Incrementing])
  }

  /** Caller `i` performs its next cache operation; callers that are outside may call again. */
  function Operate(limit: nat, s: Protocol, i: nat): (r: Protocol)
    requires i < |s.stages|
  {
    match s.stages[i]
    case Outside =>
      if s.cell.None? then s.(stages := s.stages[i := Adding]) else Decide(limit, s, i, s.cell.value)
    case Adding =>
      if s.cell.None? then s.(cell := Some(1), stages := s.stages[i := Outside], grants := s.grants + 1)
      else s.(stages := s.stages[i := Rereading])
    case Rereading =>
      Decide(limit, s, i, if s.cell.Some? then s.cell.value else 0)
    case Incrementing =>
      var value := (if s.cell.Some? then s.cell.value else 0) + 1;
      var t := s.(cell := Some(value), stages := s.stages[i := Outside]);
      if value <= limit then t.(grants := s.grants + 1) else t.(denials := s.denials + 1)
  }

  predicate Callers(schedule: seq<nat>, callers: nat) {
    forall k :: 0 <= k < |schedule| ==> schedule[k] < callers
  }

  /** The state after the callers named in `schedule` took their turns. */
  function Execute(limit: nat, callers: nat, schedule: seq<nat>): (s: Protocol)
    requires Callers(schedule, callers)
    ensures |s.stages| == callers
  {
    if schedule == [] then Start(callers)
    else Operate(limit, Execute(limit, callers, schedule[..|schedule| - 1]), schedule[|schedule| - 1])
  }

  /** A caller that is outside starts a call with its turn. */
  function Calls(limit: nat, callers: nat, schedule: seq<nat>): (n: nat)
    requires Callers(schedule, callers)
  {
    if schedule == [] then 0
    else
      var earlier, i := schedule[..|schedule| - 1], schedule[|schedule| - 1];
      Calls(limit, callers, earlier) + if Execute(limit, callers, earlier).stages[i] == Outside then 1 else 0
  }

  /** The callers in the middle of a call. */
  function InCall(stages: seq<Stage>): (n: nat)
    ensures n <= |stages|
  {
    if stages == [] then 0 else InCall(stages[..|stages| - 1]) + if stages[|stages| - 1] != Outside then 1 else 0
  }

  lemma {:induction false} InCallUpdate(stages: seq<Stage>, i: nat, next: Stage)
    requires i < |stages|
    ensures InCall(stages[i := next]) ==
            InCall(stages) - (if stages[i] != Outside then 1 else 0) + (if next != Outside then 1 else 0)
  {
    var last := |stages| - 1;
    if i == last {
      assert stages[i := next][..last] == stages[..last];
    } else {
      InCallUpdate(stages[..last], i, next);
      assert stages[i := next][..last] == stages[..last][i := next];
    }
  }

  lemma {:induction false} NobodyInCall(stages: seq<Stage>)
    requires forall i :: 0 <= i < |stages| ==> stages[i] == Outside
    ensures InCall(stages) == 0
  {
    if stages == [] {
    } else {
      NobodyInCall(stages[..|stages| - 1]);
    }
  }

  /** A turn ends at most one call, with one verdict, and starts one exactly if the caller was outside. */
  lemma TurnIsAccounted(limit: nat, s: Protocol, i: nat)
    requires i < |s.stages|
    ensures var t := Operate(limit, s, i);
            t.grants + t.denials + InCall(t.stages)
            == s.grants + s.denials + InCall(s.stages) + if s.stages[i] == Outside then 1 else 0
  {
    var t := Operate(limit, s, i);
    InCallUpdate(s.stages, i, t.stages[i]);
    assert t.stages == s.stages[i := t.stages[i]];
  }

  /** Every call that was started got exactly one verdict or is still going on. */
  lemma {:induction false} EveryCallIsAnswered(limit: nat, callers: nat, schedule: seq<nat>)
    requires Callers(schedule, callers)
    ensures var s := Execute(limit, callers, schedule);
            Calls(limit, callers, schedule) == s.grants + s.denials + InCall(s.stages)
  {
    if schedule == [] {
      NobodyInCall(Start(callers).stages);
    } else {
      var earlier := schedule[..|schedule| - 1];
      EveryCallIsAnswered(limit, callers, earlier);
      TurnIsAccounted(limit, Execute(limit, callers, earlier), schedule[|schedule| - 1]);
    }
  }

  function Pending(stages: seq<Stage>): (n: nat)
    ensures n <= |stages|
  {
    if stages == [] then 0 else Pending(stages[..|stages| - 1]) + if stages[|stages| - 1] == Incrementing then 1 else 0
  }

  lemma {:induction false} PendingUpdate(stages: seq<Stage>, i: nat, next: Stage)
    requires i < |stages|
    ensures Pending(stages[i := next]) ==
            Pending(stages) - (if stages[i] == Incrementing then 1 else 0) + (if next == Incrementing then 1 else 0)
  {
    var last := |stages| - 1;
    if i < last {
      PendingUpdate(stages[..last], i, next);
      assert stages[i := next][..last] == stages[..last][i := next];
    } else {
      assert stages[i := next][..last] == stages[..last];
    }
  }

  /** What every interleaving keeps. */
  ghost predicate Safe(limit: nat, s: Protocol) {
    match s.cell
    case None =>
      && s.grants == 0 && s.denials == 0
      && Pending(s.stages) == 0 && forall i :: 0 <= i < |s.stages| ==> s.stages[i] != Rereading && s.stages[i] != Incrementing
    case Some(v) =>
      && v >= 1 && s.grants == Min(v, limit)
      && (s.denials > 0 ==> v >= limit)
      && (v >= limit ==> v + Pending(s.stages) <= limit - 1 + |s.stages|)
      && (limit == 1 ==> v == 1 && Pending(s.stages) == 0)
  }

  lemma {:induction false} PendingWitness(stages: seq<Stage>, i: nat)
    requires i < |stages| && stages[i] == Incrementing
    ensures Pending(stages) >= 1
  {
    var last := |stages| - 1;
    if i < last {
      PendingWitness(stages[..last], i);
    }
  }

  lemma OperateSafe(limit: nat, s: Protocol, i: nat)
    requires limit >= 1 && i < |s.stages| && Safe(limit, s)
    ensures Safe(limit, Operate(limit, s, i))
  {
    PendingUpdate(s.stages, i, Operate(limit, s, i).stages[i]);
    assert Operate(limit, s, i).stages == s.stages[i := Operate(limit, s, i).stages[i]];
    if s.stages[i] == Incrementing {
      PendingWitness(s.stages, i);
    }
  }

  lemma {:induction false} StartSafe(callers: nat, limit: nat)
    ensures Safe(limit, Start(callers))
  {
    NoPending(Start(callers).stages);
  }

  lemma {:induction false} NoPending(stages: seq<Stage>)
    requires forall i :: 0 <= i < |stages| ==> stages[i] != Incrementing
    ensures Pending(stages) == 0
  {
    if stages == [] {
    } else {
      NoPending(stages[..|stages| - 1]);
    }
  }

  /**
   Under every interleaving of any number of calls by `callers` concurrent callers: exactly
   min(counter, limit) attempts have been granted, a denial happens only once all `limit` grants
   are taken, and the counter overshoots the limit by at most callers - 1 (and not at all for limit 1).
   */
  lemma {:induction false} EveryInterleavingIsSafe(limit: nat, callers: nat, schedule: seq<nat>)
    requires limit >= 1 && Callers(schedule, callers)
    ensures var s := Execute(limit, callers, schedule);
            && Safe(limit, s)
            && s.grants == Min(if s.cell.Some? then s.cell.value else 0, limit)
            && (s.denials > 0 ==> s.grants == limit)
            && (s.cell.Some? ==> s.cell.value <= limit + callers - 1)
            && (s.cell.Some? && limit == 1 ==> s.cell.value == 1)
  {
    if schedule == [] {
      StartSafe(callers, limit);
    } else {
      var earlier := schedule[..|schedule| - 1];
      EveryInterleavingIsSafe(limit, callers, earlier);
      OperateSafe(limit, Execute(limit, callers, earlier), schedule[|schedule| - 1]);
    }
  }
}
