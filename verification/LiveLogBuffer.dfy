/**
 The live log buffer of paxalia/logging/handler.py and a client that polls it.

 The buffer keeps the newest lines under strictly increasing cursors. A client passes back the
 cursor it was given; `reset` tells it that lines it never saw are gone.
 */
module LiveLogBuffer {
  import opened Prelude

  /** A line: its cursor, its creation time in microseconds and its sanitised text. */
  datatype Entry = Entry(sequence: int, timestamp: int, message: string)

  datatype Snapshot = Snapshot(entries: seq<Entry>, latest: int, oldest: int, reset: bool, limit: nat)

  /** A log record; every handler that sees it shares its flag. */
  class Record {
    const created: int
    const message: string
    var liveBuffered: bool

    constructor (created: int, message: string)
      ensures this.created == created && this.message == message && !liveBuffered
    {
      this.created := created;
      this.message := message;
      liveBuffered := false;
    }
  }

  // ----- Cursors ------------------------------------------------------------

  /** The cursor counter after the first `n` lines of `log`, starting from 0. */
  function Cursor(log: seq<Entry>, n: nat): (c: int)
    requires n <= |log|
  {
    if n == 0 then 0 else Max(Cursor(log, n - 1) + 1, log[n - 1].timestamp)
  }

  /** Every line carries the counter value it was given. */
  ghost predicate Numbered(log: seq<Entry>) {
    forall i :: 0 <= i < |log| ==> log[i].sequence == Cursor(log, i + 1)
  }

  lemma {:induction false} CursorFrame(log: seq<Entry>, more: seq<Entry>, n: nat)
    requires n <= |log|
    ensures Cursor(log + more, n) == Cursor(log, n)
  {
    if n == 0 {
    } else {
      CursorFrame(log, more, n - 1);
    }
  }

  lemma NumberedSnoc(log: seq<Entry>, e: Entry)
    requires Numbered(log) && e.sequence == Max(Cursor(log, |log|) + 1, e.timestamp)
    ensures Numbered(log + [e]) && Cursor(log + [e], |log| + 1) == e.sequence
  {
    forall n: nat | n <= |log| ensures Cursor(log + [e], n) == Cursor(log, n) {
      CursorFrame(log, [e], n);
    }
  }

  /**
   The counter is the largest of the number of lines and, for each line, its time plus the number
   of lines after it.
   */
  lemma {:induction false} CursorMeaning(log: seq<Entry>, n: nat)
    requires n <= |log|
    ensures Cursor(log, n) >= n
    ensures forall i :: 0 <= i < n ==> Cursor(log, n) >= log[i].timestamp + (n - 1 - i)
    ensures Cursor(log, n) == n || exists i :: 0 <= i < n && Cursor(log, n) == log[i].timestamp + (n - 1 - i)
  {
    if n == 0 {
    } else {
      CursorMeaning(log, n - 1);
    }
  }

  /** The counter grows by at least one with every line. */
  lemma {:induction false} CursorGrows(log: seq<Entry>, m: nat, n: nat)
    requires m <= n <= |log|
    ensures Cursor(log, m) + (n - m) <= Cursor(log, n)
  {
    if m == n {
    } else {
      CursorGrows(log, m, n - 1);
    }
  }

  predicate StrictlyIncreasing(es: seq<Entry>) {
    forall i, j :: 0 <= i < j < |es| ==> es[i].sequence < es[j].sequence
  }

  lemma NumberedIncreases(log: seq<Entry>)
    requires Numbered(log)
    ensures StrictlyIncreasing(log)
  {
    forall i, j | 0 <= i < j < |log| ensures log[i].sequence < log[j].sequence {
      CursorGrows(log, i + 1, j + 1);
    }
  }

  // ----- Selection ----------------------------------------------------------

  /** The last `n` of `es`: Python's `es[-n:]` for a positive `n`. */
  function Last(es: seq<Entry>, n: nat): (r: seq<Entry>)
    ensures |r| == Min(n, |es|) && forall i :: 0 <= i < |r| ==> r[i] == es[|es| - |r| + i]
  {
    if n < |es| then es[|es| - n..] else es
  }

  /** The lines of `es` from position `i` on that come after the cursor `since`. */
  function NewerThan(es: seq<Entry>, since: int, i: nat): (r: seq<Entry>)
    requires i <= |es|
    decreases |es| - i
  {
    if i == |es| then []
    else if es[i].sequence > since then [es[i]] + NewerThan(es, since, i + 1)
    else NewerThan(es, since, i + 1)
  }

  lemma {:induction false} NewerIsSuffix(es: seq<Entry>, since: int, i: nat, k: nat)
    requires i <= |es| && k <= |es|
    requires forall j :: 0 <= j < |es| ==> (es[j].sequence > since <==> j >= k)
    ensures NewerThan(es, since, i) == es[Max(i, k)..]
    decreases |es| - i
  {
    if i == |es| {
    } else {
      NewerIsSuffix(es, since, i + 1, k);
    }
  }

  /** How many of the first `n` lines a client that holds the cursor `since` is past. */
  function SeenBy(log: seq<Entry>, since: Option<int>, n: nat): (k: nat)
    requires n <= |log|
    ensures k <= n
  {
    if since.None? || n == 0 then 0
    else if log[n - 1].sequence <= since.value then n
    else SeenBy(log, since, n - 1)
  }

  lemma {:induction false} SeenByMeaning(log: seq<Entry>, since: int, n: nat)
    requires StrictlyIncreasing(log) && n <= |log|
    ensures forall i :: 0 <= i < n ==> (i < SeenBy(log, Some(since), n) <==> log[i].sequence <= since)
  {
    if n > 0 && log[n - 1].sequence > since {
      SeenByMeaning(log, since, n - 1);
    }
  }

  /** The cursor handed out after `seen` lines is past exactly those. */
  lemma SeenByCursor(log: seq<Entry>, seen: nat)
    requires Numbered(log) && seen <= |log|
    ensures SeenBy(log, Some(Cursor(log, seen)), |log|) == seen
  {
    NumberedIncreases(log);
    SeenByMeaning(log, Cursor(log, seen), |log|);
    if seen < |log| {
      CursorGrows(log, seen, seen + 1);
      assert log[seen].sequence > Cursor(log, seen);
    }
    if seen > 0 {
      assert log[seen - 1].sequence <= Cursor(log, seen);
    }
  }

  /** The lines that are both unseen and still held, when the buffer holds `log` from `first` on. */
  function Unseen(log: seq<Entry>, since: Option<int>, first: nat): (r: seq<Entry>)
    requires first <= |log|
  {
    log[Max(SeenBy(log, since, |log|), first)..]
  }

  /** What a snapshot selects, before its limit, whether or not it is a reset. */
  lemma SelectedLines(log: seq<Entry>, entries: seq<Entry>, since: Option<int>, first: nat)
    requires Numbered(log) && first <= |log| && entries == log[first..]
    ensures var reset := since.Some? && entries != [] && since.value < entries[0].sequence - 1;
            (if since.None? || reset then entries else NewerThan(entries, since.value, 0))
            == Unseen(log, since, first)
  {
    if since.Some? {
      NumberedIncreases(log);
      SeenByMeaning(log, since.value, |log|);
      var k := Max(SeenBy(log, since, |log|), first) - first;
      NewerIsSuffix(entries, since.value, 0, k);
      assert entries[k..] == Unseen(log, since, first);
    }
  }

  /** `got` are the newest of the lines held, those after the cursor, up to the limit. */
  ghost predicate AreNewest(held: seq<Entry>, since: Option<int>, limit: nat, got: seq<Entry>) {
    && |got| <= |held| && |got| <= limit
    && (forall i :: 0 <= i < |got| ==>
          got[i] == held[|held| - |got| + i] && (since.Some? ==> got[i].sequence > since.value))
    && (|got| < limit ==>
          forall i :: 0 <= i < |held| - |got| ==> since.Some? && held[i].sequence <= since.value)
  }

  lemma NewestUnseen(log: seq<Entry>, entries: seq<Entry>, since: Option<int>, first: nat, limit: nat)
    requires Numbered(log) && first <= |log| && entries == log[first..]
    ensures AreNewest(entries, since, limit, Last(Unseen(log, since, first), limit))
  {
    UnseenMeaning(log, entries, since, first);
  }

  /** The unseen lines are the newest ones held, those after the cursor. */
  lemma UnseenMeaning(log: seq<Entry>, entries: seq<Entry>, since: Option<int>, first: nat)
    requires Numbered(log) && first <= |log| && entries == log[first..]
    ensures var unseen := Unseen(log, since, first);
            && |unseen| <= |entries|
            && (forall i :: 0 <= i < |unseen| ==>
                  unseen[i] == entries[|entries| - |unseen| + i] && (since.Some? ==> unseen[i].sequence > since.value))
            && forall i :: 0 <= i < |entries| - |unseen| ==> since.Some? && entries[i].sequence <= since.value
  {
    if since.Some? {
      NumberedIncreases(log);
      SeenByMeaning(log, since.value, |log|);
    }
  }

  /**
   A poll by a client that has seen `seen` lines reports a reset exactly when lines it never saw
   are gone, or nothing is gone but the first line it has not seen is the oldest one left and its
   cursor jumped.
   */
  lemma ResetMeaning(log: seq<Entry>, first: nat, seen: nat)
    requires Numbered(log) && first < |log| && seen <= |log|
    ensures Cursor(log, seen) + 1 < log[first].sequence <==>
            first > seen || (first == seen && log[seen].timestamp > Cursor(log, seen) + 1)
  {
    if first >= seen {
      CursorGrows(log, seen, first);
    } else {
      CursorGrows(log, first + 1, seen);
    }
  }

  // ----- The buffer ---------------------------------------------------------

  class Buffer {
    /** The configured bound, `None` when it is not a number. */
    const configuredEntries: Option<int>
    var entries: seq<Entry>
    var sequence: int
    /** Every line ever appended, and how many of them were appended before the last `Clear`. */
    ghost var log: seq<Entry>
    ghost var cleared: nat

    function MaxEntries(): (n: nat)
      ensures 1 <= n <= 50000
      ensures configuredEntries.Some? && 1 <= configuredEntries.value <= 50000 ==> n == configuredEntries.value
      ensures configuredEntries.Some? && configuredEntries.value > 50000 ==> n == 50000
      ensures configuredEntries.Some? && configuredEntries.value < 1 ==> n == 1
      ensures configuredEntries.None? ==> n == 5000
    {
      if configuredEntries.None? then 5000 else Max(1, Min(50000, configuredEntries.value))
    }

    /** The position in `log` of the oldest line held. */
    ghost function First(): (n: nat)
      requires cleared <= |log|
      reads this
    {
      Max(cleared, |log| - MaxEntries())
    }

    /** The buffer holds the newest lines since the last `Clear`, up to its bound. */
    ghost predicate Valid()
      reads this
    {
      && Numbered(log) && sequence == Cursor(log, |log|)
      && cleared <= |log|
      && entries == log[First()..]
    }

    /** Without `clear` the buffer holds the newest lines, as many as its bound allows. */
    lemma HoldsNewest()
      requires Valid() && cleared == 0
      ensures |entries| == if |log| <= MaxEntries() then |log| else MaxEntries()
      ensures forall i :: 0 <= i < |entries| ==> entries[i] == log[|log| - |entries| + i]
    {
    }

    constructor (configuredEntries: Option<int>)
      ensures Valid() && log == [] && entries == []
      ensures this.configuredEntries == configuredEntries
    {
      this.configuredEntries := configuredEntries;
      entries := [];
      sequence := 0;
      log := [];
      cleared := 0;
    }

    method Append(record: Record)
      requires Valid()
      modifies this`entries, this`sequence, this`log, record
      ensures Valid() && record.liveBuffered
      // A record is buffered once, however many handlers see it; blank lines never are.
      ensures old(record.liveBuffered) || record.message == "" ==> log == old(log) && entries == old(entries)
      ensures !old(record.liveBuffered) && record.message != "" ==>
                log == old(log) + [Entry(sequence, record.created, record.message)]
    {
      if record.liveBuffered {
        return;
      }
      record.liveBuffered := true;
      if record.message == "" {
        return;
      }
      var candidate := record.created;
      sequence := Max(sequence + 1, candidate);
      var entry := Entry(sequence, record.created, record.message);
      NumberedSnoc(log, entry);
      ghost var held := First();
      assert entries + [entry] == (log + [entry])[held..];
      log := log + [entry];
      entries := entries + [entry];
      Trim(held);
    }

    /** Drops the oldest lines beyond the bound. */
    method Trim(ghost held: nat)
      requires cleared <= |log| && cleared <= held <= First() && entries == log[held..]
      modifies this`entries
      ensures entries == log[First()..]
    {
      var maxEntries := MaxEntries();
      ghost var from := held;
      while |entries| > maxEntries
        invariant held <= from <= First() && entries == log[from..]
      {
        entries := entries[1..];
        from := from + 1;
      }
    }

    method Clear()
      requires Valid()
      modifies this`entries, this`cleared
      ensures Valid() && entries == [] && cleared == |log|
    {
      entries := [];
      cleared := |log|;
    }

    /** The lines after the cursor `since`, the newest `limit` of them. */
    method TakeSnapshot(since: Option<int>, limit: Option<int>) returns (s: Snapshot)
      requires Valid()
      ensures s.limit == (if limit.None? then MaxEntries() else Max(1, Min(MaxEntries(), limit.value)))
      ensures s.latest == Cursor(log, |log|)
      ensures s.oldest == (if entries != [] then entries[0].sequence else s.latest)
      ensures s.reset <==> since.Some? && entries != [] && since.value + 1 < entries[0].sequence
      ensures s.entries == Last(Unseen(log, since, First()), s.limit)
      // In plain terms: the newest lines held, all of them after the cursor, none left out but for the limit.
      ensures AreNewest(entries, since, s.limit, s.entries)
    {
      var maxEntries := MaxEntries();
      var bounded := if limit.None? then maxEntries else Max(1, Min(maxEntries, limit.value));
      var oldest := if entries != [] then entries[0].sequence else sequence;
      var reset := since.Some? && entries != [] && since.value < oldest - 1;
      var selected := if since.None? || reset then entries else NewerThan(entries, since.value, 0);
      SelectedLines(log, entries, since, First());
      NewestUnseen(log, entries, since, First(), bounded);
      s := Snapshot(Last(selected, bounded), sequence, oldest, reset, bounded);
    }
  }

  /** Lines delivered from `from` on extend what was received before, with no repetition. */
  lemma Delivery(log: seq<Entry>, received: seq<Entry>, seen: nat, from: nat)
    requires Numbered(log) && seen <= from <= |log|
    requires StrictlyIncreasing(received) && forall e <- received :: e.sequence <= Cursor(log, seen)
    ensures StrictlyIncreasing(received + log[from..])
    ensures forall e <- received + log[from..] :: e.sequence <= Cursor(log, |log|)
  {
    NumberedIncreases(log);
    CursorGrows(log, seen, |log|);
    var unseen := log[from..];
    forall k | 0 <= k < |unseen|
      ensures unseen[k] == log[from + k] && Cursor(log, seen) < unseen[k].sequence <= Cursor(log, |log|)
    {
      CursorGrows(log, seen, from + k + 1);
      CursorGrows(log, from + k + 1, |log|);
    }
  }

  // ----- A polling client ---------------------------------------------------

  /**
   What a client with cursor `since` holds when `seen` of the lines in `log` had been appended at its
   last poll: increasing lines up to its cursor, and, unless some were lost, all lines from `start` on.
   */
  ghost predicate Holds(log: seq<Entry>, since: Option<int>, received: seq<Entry>, seen: nat, start: nat, lossless: bool) {
    && start <= seen <= |log|
    && (if since.None? then seen == 0 && received == [] else since.value == Cursor(log, seen))
    && StrictlyIncreasing(received)
    && (forall e <- received :: e.sequence <= Cursor(log, seen))
    && (lossless ==> received == log[start..seen])
  }

  lemma HoldsFrame(log: seq<Entry>, more: seq<Entry>, since: Option<int>, received: seq<Entry>, seen: nat, start: nat,
                   lossless: bool)
    requires Holds(log, since, received, seen, start, lossless)
    ensures Holds(log + more, since, received, seen, start, lossless)
  {
    CursorFrame(log, more, seen);
    assert (log + more)[start..seen] == log[start..seen];
  }

  /** What a client holds after a poll that finds the lines from `first` on. */
  lemma HoldsAfterPoll(log: seq<Entry>, since: Option<int>, received: seq<Entry>, seen: nat, start: nat, lossless: bool,
                       first: nat)
    requires Numbered(log) && Holds(log, since, received, seen, start, lossless) && first <= |log|
    ensures Holds(log, Some(Cursor(log, |log|)), received + log[Max(seen, first)..], |log|,
                  if since.None? then first else start, if since.None? then true else lossless && first <= seen)
  {
    Delivery(log, received, seen, Max(seen, first));
    if since.None? {
      NothingMissing(log, received, first, first, first);
    } else if lossless && first <= seen {
      NothingMissing(log, received, start, seen, Max(seen, first));
    }
  }

  lemma NothingMissing(log: seq<Entry>, received: seq<Entry>, start: nat, seen: nat, from: nat)
    requires start <= seen == from <= |log| && received == log[start..seen]
    ensures received + log[from..] == log[start..|log|]
  {
  }

  class Client {
    var since: Option<int>
    var received: seq<Entry>
    /** How many lines had been appended at the last poll, and how many were gone at the first. */
    ghost var seen: nat
    ghost var start: nat
    /** No line appended after the start was lost. */
    ghost var lossless: bool

    constructor ()
      ensures InStep([]) && since.None? && received == [] && lossless
    {
      since := None;
      received := [];
      seen, start, lossless := 0, 0, true;
    }

    /** What holds between a client and the lines appended so far, whoever appends in between. */
    ghost predicate InStep(log: seq<Entry>)
      reads this
    {
      Holds(log, since, received, seen, start, lossless)
    }

    /** Appending lines does not disturb a client. */
    lemma StaysInStep(log: seq<Entry>, more: seq<Entry>)
      requires InStep(log)
      ensures InStep(log + more)
    {
      HoldsFrame(log, more, since, received, seen, start, lossless);
    }

    /** The answer to a poll with the default limit. */
    method Fetch(buffer: Buffer) returns (s: Snapshot)
      requires buffer.Valid() && InStep(buffer.log)
      ensures s.entries == buffer.log[Max(seen, buffer.First())..] && s.latest == buffer.sequence
      ensures since.Some? && seen < buffer.First() ==> (s.reset <==> buffer.entries != [])
      ensures since.Some? && !s.reset && buffer.entries != [] ==> buffer.First() <= seen
    {
      BeforePoll(buffer);
      s := buffer.TakeSnapshot(since, None);
    }

    /** Polls with the default limit and keeps what arrives. */
    method Poll(buffer: Buffer) returns (s: Snapshot)
      requires buffer.Valid() && InStep(buffer.log)
      modifies this
      ensures InStep(buffer.log) && seen == |buffer.log| && since == Some(buffer.sequence)
      // The client gets exactly the lines it has not seen that are still there, in order.
      ensures s.entries == buffer.log[Max(old(seen), buffer.First())..]
      ensures received == old(received) + s.entries
      // Lines lost before they were delivered are reported, unless the buffer is empty.
      ensures old(since).Some? && old(seen) < buffer.First() ==> (s.reset <==> buffer.entries != [])
      // Without a reset and with a non-empty buffer nothing was lost.
      ensures old(since).Some? && !s.reset && buffer.entries != [] ==> buffer.First() <= old(seen)
      // The first poll starts the record; a later one keeps it whole unless lines were lost.
      ensures if old(since).None? then start == buffer.First() && lossless
              else start == old(start) && (lossless <==> old(lossless) && buffer.First() <= old(seen))
    {
      s := Fetch(buffer);
      Keep(s, buffer.log, buffer.First());
    }

    /** Keeps the lines that arrived and the cursor for the next poll. */
    method Keep(s: Snapshot, ghost log: seq<Entry>, ghost first: nat)
      requires Numbered(log) && InStep(log) && first <= |log|
      requires s.entries == log[Max(seen, first)..] && s.latest == Cursor(log, |log|)
      modifies this
      ensures InStep(log) && seen == |log| && since == Some(s.latest) && received == old(received) + s.entries
      ensures if old(since).None? then start == first && lossless
              else start == old(start) && (lossless <==> old(lossless) && first <= old(seen))
    {
      HoldsAfterPoll(log, since, received, seen, start, lossless, first);
      ghost var begun := if since.None? then first else start;
      ghost var whole := if since.None? then true else lossless && first <= seen;
      received := received + s.entries;
      since, seen, start, lossless := Some(s.latest), |log|, begun, whole;
    }

    /** What a poll at this moment would find. */
    lemma BeforePoll(buffer: Buffer)
      requires buffer.Valid() && InStep(buffer.log)
      ensures var unseen := Unseen(buffer.log, since, buffer.First());
              && unseen == buffer.log[Max(seen, buffer.First())..]
              && Last(unseen, buffer.MaxEntries()) == unseen
      ensures since.Some? && buffer.entries != [] ==>
                && (since.value + 1 < buffer.entries[0].sequence ==> seen <= buffer.First())
                && (seen < buffer.First() ==> since.value + 1 < buffer.entries[0].sequence)
    {
      if since.Some? {
        SeenByCursor(buffer.log, seen);
        if buffer.First() < |buffer.log| {
          ResetMeaning(buffer.log, buffer.First(), seen);
        }
      }
    }
  }

  /** A new record reaches the buffer while a client is between two polls. */
  method LogLine(buffer: Buffer, client: Client, created: int, message: string)
    requires buffer.Valid() && client.InStep(buffer.log)
    modifies buffer
    ensures buffer.Valid() && client.InStep(buffer.log) && buffer.cleared == old(buffer.cleared)
    ensures old(buffer.log) <= buffer.log
    ensures message != "" ==> |buffer.log| == |old(buffer.log)| + 1 && buffer.log[|buffer.log| - 1].message == message
  {
    ghost var before := buffer.log;
    var record := new Record(created, message);
    buffer.Append(record);
    client.StaysInStep(before, buffer.log[|before|..]);
    assert before + buffer.log[|before|..] == buffer.log;
  }

  /** What may happen next: a line is logged, or the client polls. */
  datatype Turn = Line(created: int, message: string) | Ask

  /**
   Any mix of lines and polls, without `clear`. If no poll reports a reset, the client has received
   exactly every line appended from its start up to its last poll, in order; in any case no line twice.
   */
  method Converse(buffer: Buffer, client: Client, turns: seq<Turn>) returns (resets: nat)
    requires buffer.Valid() && buffer.cleared == 0 && client.InStep(buffer.log) && client.lossless
    modifies buffer, client
    ensures buffer.Valid() && buffer.cleared == 0 && client.InStep(buffer.log)
    ensures old(buffer.log) <= buffer.log
    ensures resets == 0 ==> client.received == buffer.log[client.start..client.seen]
    ensures StrictlyIncreasing(client.received)
    ensures turns != [] && turns[|turns| - 1] == Ask ==> client.seen == |buffer.log|
  {
    resets := 0;
    for i := 0 to |turns|
      invariant buffer.Valid() && buffer.cleared == 0 && client.InStep(buffer.log)
      invariant old(buffer.log) <= buffer.log
      invariant resets == 0 ==> client.lossless
      invariant i > 0 && turns[i - 1] == Ask ==> client.seen == |buffer.log|
    {
      match turns[i]
      case Line(created, message) =>
        LogLine(buffer, client, created, message);
      case Ask =>
        var s := client.Poll(buffer);
        if s.reset {
          resets := resets + 1;
        }
    }
  }
}
