/**
 The bounded persistence queue of paxalia/logging/handler.py: handlers offer records, one worker
 thread persists them in order, a full queue drops the newest record.

 Each method of `LogQueue` is one atomic step of some thread; any thread may take the next one.
 A record is identified by a number, and `captured` holds the records whose capture flag is set.
 */
module AsyncLogQueue {
  import opened Prelude

  const MAXSIZE := 128

  /** What travels through the queue: a record, or the request to stop the worker. */
  datatype Item = Work(record: nat) | Sentinel

  datatype Verdict = Filtered | AppsNotReady | AlreadyCaptured | QueueFull | Queued | PersistedInline

  datatype Step =
    | Offer(record: nat, wanted: bool, ready: bool, inAsync: bool)
    | Take
    | Finish
    | Stop

  /** The records among `items`. */
  function Records(items: seq<Item>): (r: set<nat>) {
    if items == [] then {}
    else
      var last := items[|items| - 1];
      if last.Work? then Records(items[..|items| - 1]) + {last.record} else Records(items[..|items| - 1])
  }

  /** No record is queued twice. */
  predicate QueuedOnce(items: seq<Item>) {
    items == [] ||
    var p, last := items[..|items| - 1], items[|items| - 1];
    QueuedOnce(p) && (last.Work? ==> last.record !in Records(p))
  }

  lemma RecordsSnoc(items: seq<Item>, item: Item)
    ensures Records(items + [item]) == if item.Work? then Records(items) + {item.record} else Records(items)
    ensures QueuedOnce(items + [item]) <==> QueuedOnce(items) && (item.Work? ==> item.record !in Records(items))
  {
  }

  lemma {:induction false} RecordsAppend(a: seq<Item>, b: seq<Item>)
    ensures Records(a + b) == Records(a) + Records(b)
    ensures QueuedOnce(a + b) <==> QueuedOnce(a) && QueuedOnce(b) && Records(a) !! Records(b)
    decreases |b|
  {
    if b == [] {
      assert a + b == a;
    } else {
      var p, last := b[..|b| - 1], b[|b| - 1];
      assert a + b == (a + p) + [last] && b == p + [last];
      RecordsAppend(a, p);
      RecordsSnoc(a + p, last);
      RecordsSnoc(p, last);
    }
  }

  function AsSeq(current: Option<Item>): (r: seq<Item>) {
    if current.None? then [] else [current.value]
  }

  /** Every captured record went to exactly one place. */
  ghost predicate Ledger(captured: set<nat>, dropped: set<nat>, inline: set<nat>, enqueued: seq<Item>) {
    && captured == dropped + inline + Records(enqueued)
    && dropped !! inline && dropped !! Records(enqueued) && inline !! Records(enqueued)
    && QueuedOnce(enqueued)
  }

  /** The queue is first in, first out: what finished is a prefix of what was enqueued. */
  ghost predicate Fifo(enqueued: seq<Item>, finished: seq<Item>, current: Option<Item>, queue: seq<Item>) {
    enqueued == finished + AsSeq(current) + queue
  }

  lemma FifoPut(enqueued: seq<Item>, finished: seq<Item>, current: Option<Item>, queue: seq<Item>, item: Item)
    requires Fifo(enqueued, finished, current, queue)
    ensures Fifo(enqueued + [item], finished, current, queue + [item])
  {
  }

  lemma FifoTake(enqueued: seq<Item>, finished: seq<Item>, queue: seq<Item>)
    requires Fifo(enqueued, finished, None, queue) && queue != []
    ensures Fifo(enqueued, finished, Some(queue[0]), queue[1..])
  {
  }

  lemma FifoFinish(enqueued: seq<Item>, finished: seq<Item>, item: Item, queue: seq<Item>)
    requires Fifo(enqueued, finished, Some(item), queue)
    ensures Fifo(enqueued, finished + [item], None, queue)
  {
  }

  /** The persisted records are the inline ones and the finished ones, each persisted once. */
  ghost predicate Persisted(persistCalls: seq<nat>, inline: set<nat>, finished: seq<Item>) {
    Distinct(persistCalls) && Elements(persistCalls) == inline + Records(finished)
  }

  lemma LedgerSnoc(captured: set<nat>, dropped: set<nat>, inline: set<nat>, enqueued: seq<Item>, r: nat)
    requires Ledger(captured, dropped, inline, enqueued) && r !in captured
    ensures Ledger(captured + {r}, dropped + {r}, inline, enqueued)
    ensures Ledger(captured + {r}, dropped, inline + {r}, enqueued)
    ensures Ledger(captured + {r}, dropped, inline, enqueued + [Work(r)])
  {
  }

  lemma LedgerSentinel(captured: set<nat>, dropped: set<nat>, inline: set<nat>, enqueued: seq<Item>)
    requires Ledger(captured, dropped, inline, enqueued)
    ensures Ledger(captured, dropped, inline, enqueued + [Sentinel])
  {
  }

  lemma PersistedInlineSnoc(persistCalls: seq<nat>, inline: set<nat>, finished: seq<Item>, r: nat)
    requires Persisted(persistCalls, inline, finished) && r !in inline && r !in Records(finished)
    ensures Persisted(persistCalls + [r], inline + {r}, finished)
  {
    DistinctSnoc(persistCalls, r);
  }

  lemma PersistedFinish(captured: set<nat>, dropped: set<nat>, inline: set<nat>, enqueued: seq<Item>,
                        persistCalls: seq<nat>, finished: seq<Item>, item: Item, queue: seq<Item>)
    requires Ledger(captured, dropped, inline, enqueued)
    requires Persisted(persistCalls, inline, finished) && Fifo(enqueued, finished, Some(item), queue)
    ensures Persisted(if item.Work? then persistCalls + [item.record] else persistCalls, inline, finished + [item])
  {
    RecordsSnoc(finished, item);
    RecordsAppend(finished + [item], queue);
    if item.Work? {
      DistinctSnoc(persistCalls, item.record);
    }
  }

  /** The records of the queue's three parts. */
  lemma Split(finished: seq<Item>, current: Option<Item>, queue: seq<Item>)
    ensures var all := finished + AsSeq(current) + queue;
            && Records(all) == Records(finished) + Records(AsSeq(current)) + Records(queue)
            && (QueuedOnce(all) ==> && Records(finished) !! Records(AsSeq(current))
                                    && Records(finished) !! Records(queue) && Records(AsSeq(current)) !! Records(queue))
  {
    RecordsAppend(finished + AsSeq(current), queue);
    RecordsAppend(finished, AsSeq(current));
  }

  class LogQueue {
    var queue: seq<Item>
    var unfinishedTasks: nat
    var workerAlive: bool
    var current: Option<Item>
    var captured: set<nat>
    /** What happened so far: everything enqueued and finished, in order, and where each record went. */
    ghost var enqueued: seq<Item>
    ghost var finished: seq<Item>
    ghost var dropped: set<nat>
    ghost var inline: set<nat>
    ghost var persistCalls: seq<nat>

    ghost predicate Valid()
      reads this
    {
      && Fifo(enqueued, finished, current, queue)
      && |queue| <= MAXSIZE
      && unfinishedTasks == |queue| + (if current.Some? then 1 else 0)
      && (current.Some? ==> workerAlive)
      && Ledger(captured, dropped, inline, enqueued)
      && Persisted(persistCalls, inline, finished)
    }

    constructor ()
      ensures Valid() && queue == [] && captured == {} && enqueued == []
    {
      queue := [];
      unfinishedTasks := 0;
      workerAlive := false;
      current := None;
      captured := {};
      enqueued, finished, dropped, inline, persistCalls := [], [], {}, {}, [];
    }

    /** `queue.put_nowait`. */
    method PutNowait(item: Item) returns (full: bool)
      modifies this`queue, this`unfinishedTasks, this`enqueued
      ensures full <==> |old(queue)| >= MAXSIZE
      ensures full ==> queue == old(queue) && unfinishedTasks == old(unfinishedTasks) && enqueued == old(enqueued)
      ensures !full ==> && queue == old(queue) + [item] && unfinishedTasks == old(unfinishedTasks) + 1
                        && enqueued == old(enqueued) + [item]
    {
      full := |queue| >= MAXSIZE;
      if !full {
        queue := queue + [item];
        unfinishedTasks := unfinishedTasks + 1;
        enqueued := enqueued + [item];
      }
    }

    /** A handler is offered a record. */
    method Emit(record: nat, wanted: bool, ready: bool, inAsync: bool) returns (verdict: Verdict)
      requires Valid()
      modifies this`queue, this`unfinishedTasks, this`workerAlive, this`captured,
               this`enqueued, this`dropped, this`inline, this`persistCalls
      ensures Valid()
      ensures verdict == (if !wanted then Filtered else if !ready then AppsNotReady
                          else if record in old(captured) then AlreadyCaptured
                          else if !inAsync then PersistedInline
                          else if |old(queue)| >= 128 then QueueFull else Queued)
      // A record that is filtered or already captured changes nothing at all.
      ensures verdict == Filtered || verdict == AppsNotReady || verdict == AlreadyCaptured ==> unchanged(this)
      ensures verdict == QueueFull ==>
                && captured == old(captured) + {record} && dropped == old(dropped) + {record}
                && enqueued == old(enqueued) && inline == old(inline) && persistCalls == old(persistCalls)
      ensures verdict == Queued ==>
                && captured == old(captured) + {record} && dropped == old(dropped)
                && enqueued == old(enqueued) + [Work(record)] && inline == old(inline) && persistCalls == old(persistCalls)
                && workerAlive
      ensures verdict == PersistedInline ==>
                && captured == old(captured) + {record} && dropped == old(dropped) && enqueued == old(enqueued)
                && inline == old(inline) + {record} && persistCalls == old(persistCalls) + [record]
    {
      if !wanted {
        verdict := Filtered;
      } else if !ready {
        verdict := AppsNotReady;
      } else if record in captured {
        verdict := AlreadyCaptured;
      } else if inAsync {
        verdict := EmitAsync(record);
      } else {
        EmitInline(record);
        verdict := PersistedInline;
      }
    }

    /** On an event-loop thread a record is queued, or dropped when the queue is full. */
    method EmitAsync(record: nat) returns (verdict: Verdict)
      requires Valid() && record !in captured
      modifies this`queue, this`unfinishedTasks, this`workerAlive, this`captured, this`enqueued, this`dropped
      ensures Valid() && workerAlive && captured == old(captured) + {record}
      ensures verdict == if |old(queue)| >= MAXSIZE then QueueFull else Queued
      ensures dropped == if verdict == QueueFull then old(dropped) + {record} else old(dropped)
      ensures enqueued == if verdict == Queued then old(enqueued) + [Work(record)] else old(enqueued)
    {
      LedgerSnoc(captured, dropped, inline, enqueued, record);
      FifoPut(enqueued, finished, current, queue, Work(record));
      captured := captured + {record};
      workerAlive := true;
      var full := PutNowait(Work(record));
      if full {
        dropped := dropped + {record};
        verdict := QueueFull;
      } else {
        verdict := Queued;
      }
    }

    /** On any other thread a record is persisted before the handler returns. */
    method EmitInline(record: nat)
      requires Valid() && record !in captured
      modifies this`captured, this`inline, this`persistCalls
      ensures Valid() && captured == old(captured) + {record}
      ensures inline == old(inline) + {record} && persistCalls == old(persistCalls) + [record]
    {
      LedgerSnoc(captured, dropped, inline, enqueued, record);
      FinishedWasEnqueued(record);
      PersistedInlineSnoc(persistCalls, inline, finished, record);
      captured := captured + {record};
      inline := inline + {record};
      persistCalls := persistCalls + [record];
    }

    lemma FinishedWasEnqueued(record: nat)
      requires Fifo(enqueued, finished, current, queue)
      ensures record in Records(finished) ==> record in Records(enqueued)
    {
      Split(finished, current, queue);
    }

    /** The worker takes the oldest item. */
    method WorkerTake() returns (taken: bool)
      requires Valid()
      modifies this`current, this`queue
      ensures Valid()
      ensures taken <==> old(workerAlive) && old(current).None? && old(queue) != []
      ensures taken ==> current == Some(old(queue)[0]) && queue == old(queue)[1..]
      ensures !taken ==> current == old(current) && queue == old(queue)
    {
      taken := workerAlive && current.None? && queue != [];
      if taken {
        FifoTake(enqueued, finished, queue);
        current := Some(queue[0]);
        queue := queue[1..];
      }
    }

    /** The worker is done with its item: a record was persisted, or the worker stops. */
    method WorkerFinish() returns (done: bool)
      requires Valid()
      modifies this`current, this`unfinishedTasks, this`workerAlive, this`finished, this`persistCalls
      ensures Valid()
      ensures done <==> old(current).Some?
      ensures current == None
      ensures finished == if done then old(finished) + [old(current).value] else old(finished)
      ensures persistCalls == if done && old(current).value.Work?
                              then old(persistCalls) + [old(current).value.record] else old(persistCalls)
      ensures workerAlive <==> old(workerAlive) && old(current) != Some(Sentinel)
    {
      done := current.Some?;
      if done {
        var item := current.value;
        FifoFinish(enqueued, finished, item, queue);
        PersistedFinish(captured, dropped, inline, enqueued, persistCalls, finished, item, queue);
        if item == Sentinel {
          workerAlive := false;
        } else {
          persistCalls := persistCalls + [item.record];
        }
        finished := finished + [item];
        current := None;
        unfinishedTasks := unfinishedTasks - 1;
      }
    }

    /** Asks the worker to stop, if there is one and the queue has room. */
    method Shutdown()
      requires Valid()
      modifies this`queue, this`unfinishedTasks, this`enqueued
      ensures Valid()
      ensures enqueued == if workerAlive && |old(queue)| < 128 then old(enqueued) + [Sentinel] else old(enqueued)
    {
      if !workerAlive {
        return;
      }
      LedgerSentinel(captured, dropped, inline, enqueued);
      FifoPut(enqueued, finished, current, queue, Sentinel);
      var full := PutNowait(Sentinel);
    }

    method Perform(step: Step)
      requires Valid()
      modifies this
      ensures Valid()
      ensures old(enqueued) <= enqueued
    {
      match step
      case Offer(record, wanted, ready, inAsync) =>
        var verdict := Emit(record, wanted, ready, inAsync);
        assert verdict != Queued ==> enqueued == old(enqueued);
      case Take =>
        var _ := WorkerTake();
      case Finish =>
        var _ := WorkerFinish();
      case Stop =>
        Shutdown();
    }

    /**
     Waits until nothing is unfinished. While it sleeps for the i-th time the other threads take
     the steps `naps[i]`; the deadline falls after the last nap.
     */
    method FlushAsync(naps: seq<seq<Step>>) returns (flushed: bool)
      requires Valid()
      modifies this
      ensures Valid()
      ensures old(enqueued) <= enqueued
      // True means that everything enqueued so far is finished; what was enqueued before the call in any case.
      ensures flushed ==> finished == enqueued && old(enqueued) <= finished
      ensures flushed <==> unfinishedTasks == 0
    {
      var i := 0;
      while unfinishedTasks != 0
        invariant 0 <= i <= |naps| && Valid() && old(enqueued) <= enqueued
        decreases |naps| - i
      {
        if i == |naps| {
          return false;
        }
        for k := 0 to |naps[i]|
          invariant Valid() && old(enqueued) <= enqueued
        {
          Perform(naps[i][k]);
        }
        i := i + 1;
      }
      return true;
    }

    /** What every reachable state shows. */
    lemma EveryRecordOnce(record: nat)
      requires Valid()
      ensures |queue| <= 128 && unfinishedTasks <= 129
      ensures finished <= enqueued
      // A captured record is in exactly one of the five places, any other record in none.
      ensures Places(record) == if record in captured then 1 else 0
      // It is persisted at most once, and exactly if it was handled inline or finished.
      ensures Distinct(persistCalls)
      ensures record in Elements(persistCalls) <==> record in inline || record in Records(finished)
    {
      Split(finished, current, queue);
    }

    /** In how many of dropped, inline, queued, in flight and finished a record is. */
    ghost function Places(record: nat): (n: nat)
      reads this
    {
      (if record in dropped then 1 else 0) + (if record in inline then 1 else 0)
      + (if record in Records(queue) then 1 else 0)
      + (if record in Records(AsSeq(current)) then 1 else 0)
      + (if record in Records(finished) then 1 else 0)
    }
  }
}
