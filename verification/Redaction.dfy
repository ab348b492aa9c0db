/**
 The tree sanitiser `redact` of paxalia/logging/redaction.py. The text redactor for strings and the
 normalisation of keys are parameters: everything here holds whatever their regular expressions do.
 */
module Redaction {
  import opened OrderedDict
  import opened Prelude

  const TEXT_LIMIT := 4000
  const KEY_LIMIT := 200

  const TRUNCATED_DEPTH := Text("[TRUNCATED_DEPTH]")
  const TRUNCATED_ITEMS := Text("[TRUNCATED_ITEMS]")
  const REDACTED := Text("[REDACTED]")
  const BYTES_REDACTED := "[BYTES REDACTED]"
  const UNSERIALIZABLE := "[UNSERIALIZABLE]"
  const TRUNCATED_KEY := "_paxalia_truncated"

  /**
   Application data. `Items` is any list, tuple or set, in the order it is iterated; `Dict` lists the
   items of a mapping with `str(key)` for each key, so that a text may occur twice; `Other` is any
   other object with its text, `None` if asking for the text raises.
   */
  datatype Value =
    | Null
    | Boolean(b: bool)
    | Int(n: int)
    | Float(x: real)
    | Text(s: string)
    | Bytes(octets: seq<bv8>)
    | Dict(entries: seq<Entry<string, Value>>)
    | Items(items: seq<Value>)
    | Other(text: Option<string>)

  type Field = Entry<string, Value>

  /** `sensitive` holds normalised key names. */
  datatype Config = Config(
    sensitive: set<string>, maxDepth: int, maxItems: int, leaf: string -> string, normalise: string -> string)

  function Cut<T>(s: seq<T>, n: nat): (t: seq<T>)
    ensures t <= s && |t| <= n && (|s| <= n ==> t == s)
  {
    if |s| <= n then s else s[..n]
  }

  function KeyText(e: Field): (key: string) {
    Cut(e.key, KEY_LIMIT)
  }

  function LeafText(c: Config, s: string): (t: string) {
    c.leaf(Cut(s, TEXT_LIMIT))
  }

  predicate IsSensitive(c: Config, key: string) {
    c.normalise(key) in c.sensitive
  }

  // ----- The walk -----------------------------------------------------------

  /** How many entries a dictionary may have without being cut. */
  function Cap(c: Config): (n: nat) {
    Max(0, c.maxItems)
  }

  /** How many of its entries are visited. */
  function Visited(c: Config, length: nat): (n: nat)
    ensures n <= length && n <= Cap(c)
  {
    Min(length, Cap(c))
  }

  /** How many items `items[:max_items]` keeps: a negative limit drops that many from the end. */
  function Kept(c: Config, length: nat): (n: nat)
    ensures n <= length && (c.maxItems >= 0 ==> n <= c.maxItems)
  {
    if c.maxItems >= 0 then Min(length, c.maxItems) else Max(0, length + c.maxItems)
  }

  /** What `redact` makes of a value found at the given depth. */
  function Walk(c: Config, v: Value, depth: int): (r: Value)
    decreases v
  {
    if depth > c.maxDepth then TRUNCATED_DEPTH
    else
      match v
      case Text(s) => Text(LeafText(c, s))
      case Bytes(_) => Text(BYTES_REDACTED)
      case Dict(es) =>
        var n := Visited(c, |es|);
        var shown := Assigned(WalkEntries(c, v, n, depth), n);
        Dict(if |es| > Cap(c) then Put(shown, TRUNCATED_KEY, Boolean(true)) else shown)
      case Items(vs) =>
        var shown := WalkItems(c, v, Kept(c, |vs|), depth);
        Items(if |vs| > c.maxItems then shown + [TRUNCATED_ITEMS] else shown)
      case Other(text) => Text(if text.Some? then LeafText(c, text.value) else UNSERIALIZABLE)
      case _ => v
  }

  /** What is assigned for each of the first `n` entries. */
  function WalkEntries(c: Config, v: Value, n: nat, depth: int): (r: seq<Field>)
    requires v.Dict? && n <= |v.entries|
    ensures |r| == n
    ensures forall i :: 0 <= i < n ==>
              r[i] == Entry(KeyText(v.entries[i]),
                            if IsSensitive(c, KeyText(v.entries[i])) then REDACTED
                            else Walk(c, v.entries[i].value, depth + 1))
    decreases v, n
  {
    if n == 0 then []
    else
      var e := v.entries[n - 1];
      WalkEntries(c, v, n - 1, depth)
      + [Entry(KeyText(e), if IsSensitive(c, KeyText(e)) then REDACTED else Walk(c, e.value, depth + 1))]
  }

  function WalkItems(c: Config, v: Value, n: nat, depth: int): (r: seq<Value>)
    requires v.Items? && n <= |v.items|
    ensures |r| == n && forall i :: 0 <= i < n ==> r[i] == Walk(c, v.items[i], depth + 1)
    decreases v, n
  {
    if n == 0 then [] else WalkItems(c, v, n - 1, depth) + [Walk(c, v.items[n - 1], depth + 1)]
  }

  /** What is shown for an entry. */
  function Shown(c: Config, e: Field, depth: int): (r: Value) {
    if IsSensitive(c, KeyText(e)) then REDACTED else Walk(c, e.value, depth + 1)
  }

  method Redact(c: Config, value: Value) returns (r: Value)
    ensures r == Walk(c, value, 0)
  {
    r := RedactAt(c, value, 0);
  }

  method RedactAt(c: Config, v: Value, depth: int) returns (r: Value)
    ensures r == Walk(c, v, depth)
    decreases v, 1
  {
    if depth > c.maxDepth {
      return TRUNCATED_DEPTH;
    }
    match v {
      case Text(s) => r := Text(c.leaf(Cut(s, TEXT_LIMIT)));
      case Bytes(_) => r := Text(BYTES_REDACTED);
      case Dict(_) => r := RedactEntries(c, v, depth);
      case Items(_) => r := RedactItems(c, v, depth);
      case Other(text) => r := Text(if text.Some? then c.leaf(Cut(text.value, TEXT_LIMIT)) else UNSERIALIZABLE);
      case _ => r := v;
    }
  }

  /** The loop over a mapping, with its early break. */
  method RedactEntries(c: Config, v: Value, depth: int) returns (r: Value)
    requires v.Dict? && depth <= c.maxDepth
    ensures r == Walk(c, v, depth)
    decreases v, 0
  {
    var es := v.entries;
    var result: seq<Field> := [];
    ghost var log := WalkEntries(c, v, Visited(c, |es|), depth);
    var i := 0;
    while i < |es|
      invariant 0 <= i <= |log|
      invariant result == Assigned(log, i)
    {
      if i >= c.maxItems {
        result := Put(result, TRUNCATED_KEY, Boolean(true));
        break;
      }
      var e := es[i];
      var key := Cut(e.key, KEY_LIMIT);
      var shown := REDACTED;
      if c.normalise(key) !in c.sensitive {
        shown := RedactAt(c, e.value, depth + 1);
      }
      assert log[i] == Entry(key, shown);
      result := Put(result, key, shown);
      i := i + 1;
    }
    r := Dict(result);
  }

  /** The comprehension over a list, and its marker. */
  method RedactItems(c: Config, v: Value, depth: int) returns (r: Value)
    requires v.Items? && depth <= c.maxDepth
    ensures r == Walk(c, v, depth)
    decreases v, 0
  {
    var vs := v.items;
    var result: seq<Value> := [];
    for i := 0 to Kept(c, |vs|)
      invariant result == WalkItems(c, v, i, depth)
    {
      var shown := RedactAt(c, vs[i], depth + 1);
      result := result + [shown];
    }
    if |vs| > c.maxItems {
      result := result + [TRUNCATED_ITEMS];
    }
    r := Items(result);
  }

  // ----- What the result does not depend on ---------------------------------

  /**
   Two values that differ at most in what must stay hidden: in values under sensitive keys, in bytes,
   in whatever lies deeper than the limit or after the last item that is kept.
   */
  predicate Alike(c: Config, a: Value, b: Value, depth: int)
    decreases a
  {
    depth > c.maxDepth ||
    match (a, b)
    case (Dict(es), Dict(fs)) =>
      && Visited(c, |es|) == Visited(c, |fs|)
      && (|es| > Cap(c) <==> |fs| > Cap(c))
      && (forall i :: 0 <= i < Visited(c, |es|) ==>
            && KeyText(es[i]) == KeyText(fs[i])
            && (IsSensitive(c, KeyText(es[i])) || Alike(c, es[i].value, fs[i].value, depth + 1)))
    case (Items(vs), Items(ws)) =>
      && Kept(c, |vs|) == Kept(c, |ws|)
      && (|vs| > c.maxItems <==> |ws| > c.maxItems)
      && (forall i :: 0 <= i < Kept(c, |vs|) ==> Alike(c, vs[i], ws[i], depth + 1))
    case (Bytes(_), Bytes(_)) => true
    case _ => a == b
  }

  /** What must stay hidden has no influence on the result. */
  lemma {:induction false} HiddenStaysHidden(c: Config, a: Value, b: Value, depth: int)
    requires Alike(c, a, b, depth)
    ensures Walk(c, a, depth) == Walk(c, b, depth)
    decreases a
  {
    if depth <= c.maxDepth {
      if a.Dict? && b.Dict? {
        forall i | 0 <= i < Visited(c, |a.entries|)
          ensures Shown(c, a.entries[i], depth) == Shown(c, b.entries[i], depth)
        {
          if !IsSensitive(c, KeyText(a.entries[i])) {
            HiddenStaysHidden(c, a.entries[i].value, b.entries[i].value, depth + 1);
          }
        }
        var n := Visited(c, |a.entries|);
        assert WalkEntries(c, a, n, depth) == WalkEntries(c, b, n, depth);
      } else if a.Items? && b.Items? {
        var n := Kept(c, |a.items|);
        forall i | 0 <= i < n ensures Walk(c, a.items[i], depth + 1) == Walk(c, b.items[i], depth + 1) {
          HiddenStaysHidden(c, a.items[i], b.items[i], depth + 1);
        }
        assert WalkItems(c, a, n, depth) == WalkItems(c, b, n, depth);
      }
    }
  }

  // ----- The bounds of the result -------------------------------------------

  const MARKER := Entry(TRUNCATED_KEY, Boolean(true))

  /**
   Nothing lies deeper than the limit, no collection holds more than `maxItems` items and a marker, keys
   are short and occur once, a sensitive key shows only that it was redacted, and bytes and
   foreign objects are gone.
   */
  predicate Clean(c: Config, v: Value, depth: int)
    decreases v
  {
    if depth > c.maxDepth then v == TRUNCATED_DEPTH
    else
      match v
      case Dict(es) =>
        && |es| <= Cap(c) + 1
        && DistinctKeys(es)
        && forall i :: 0 <= i < |es| ==>
             && |es[i].key| <= KEY_LIMIT
             && (es[i] == MARKER
                 || if IsSensitive(c, es[i].key) then es[i].value == REDACTED else Clean(c, es[i].value, depth + 1))
      case Items(vs) =>
        && (c.maxItems >= 0 ==> |vs| <= c.maxItems + 1)
        && (|vs| > c.maxItems ==> vs != [] && vs[|vs| - 1] == TRUNCATED_ITEMS)
        && forall i :: 0 <= i < (if |vs| > c.maxItems then |vs| - 1 else |vs|) ==> Clean(c, vs[i], depth + 1)
      case Bytes(_) => false
      case Other(_) => false
      case _ => true
  }

  lemma {:induction false} OutputIsClean(c: Config, v: Value, depth: int)
    ensures Clean(c, Walk(c, v, depth), depth)
    decreases v
  {
    if depth <= c.maxDepth {
      match v {
        case Dict(es) =>
          forall i | 0 <= i < Visited(c, |es|) ensures Clean(c, Walk(c, es[i].value, depth + 1), depth + 1) {
            OutputIsClean(c, es[i].value, depth + 1);
          }
          DictIsClean(c, v, depth);
        case Items(vs) =>
          forall i | 0 <= i < Kept(c, |vs|) ensures Clean(c, Walk(c, vs[i], depth + 1), depth + 1) {
            OutputIsClean(c, vs[i], depth + 1);
          }
        case _ =>
      }
    }
  }

  /** An entry of a dictionary in the result. */
  predicate IsCleanEntry(c: Config, e: Field, depth: int) {
    && |e.key| <= KEY_LIMIT
    && (e == MARKER || if IsSensitive(c, e.key) then e.value == REDACTED else Clean(c, e.value, depth + 1))
  }

  lemma LogIsClean(c: Config, v: Value, depth: int, n: nat, e: Field)
    requires v.Dict? && n <= |v.entries| && e in Lasts(WalkEntries(c, v, n, depth), n)
    requires forall i :: 0 <= i < n ==> Clean(c, Walk(c, v.entries[i].value, depth + 1), depth + 1)
    ensures IsCleanEntry(c, e, depth)
  {
    var log := WalkEntries(c, v, n, depth);
    var i :| 0 <= i < n && IsLast(log, n, i) && log[i] == e;
  }

  lemma EntriesAreClean(c: Config, es: seq<Field>, depth: int)
    requires depth <= c.maxDepth && DistinctKeys(es) && |es| <= Cap(c) + 1
    requires forall e :: e in es ==> IsCleanEntry(c, e, depth)
    ensures Clean(c, Dict(es), depth)
  {
    forall i | 0 <= i < |es| ensures IsCleanEntry(c, es[i], depth) {
      assert es[i] in es;
    }
  }

  lemma DictIsClean(c: Config, v: Value, depth: int)
    requires v.Dict? && depth <= c.maxDepth
    requires forall i :: 0 <= i < Visited(c, |v.entries|) ==>
               Clean(c, Walk(c, v.entries[i].value, depth + 1), depth + 1)
    ensures Clean(c, Walk(c, v, depth), depth)
  {
    var n := Visited(c, |v.entries|);
    var shown := AssignedMeaning(WalkEntries(c, v, n, depth), n);
    var cut := Put(shown, TRUNCATED_KEY, Boolean(true));
    PutMeaning(shown, TRUNCATED_KEY, Boolean(true));
    forall e | e in shown ensures IsCleanEntry(c, e, depth) {
      assert e in Elements(shown);
      LogIsClean(c, v, depth, n, e);
    }
    EntriesAreClean(c, shown, depth);
    EntriesAreClean(c, cut, depth);
    assert Walk(c, v, depth) == Dict(if |v.entries| > Cap(c) then cut else shown);
  }

  // ----- What the result keeps ----------------------------------------------

  /**
   Data with nothing to hide and within every limit: texts of at most 4000 characters that the text
   redactor leaves alone, lists and mappings of at most `maxItems`, keys of at most 200 characters that
   are different and not sensitive, and nothing too deep.
   */
  predicate IsHarmless(c: Config, v: Value, depth: int)
    decreases v
  {
    && depth <= c.maxDepth
    && match v
       case Text(s) => |s| <= 4000 && c.leaf(s) == s
       case Items(vs) => |vs| <= c.maxItems && forall i :: 0 <= i < |vs| ==> IsHarmless(c, vs[i], depth + 1)
       case Dict(es) =>
         && |es| <= c.maxItems
         && (forall i, j :: 0 <= i < j < |es| ==> es[i].key != es[j].key)
         && forall i :: 0 <= i < |es| ==>
              |es[i].key| <= 200 && c.normalise(es[i].key) !in c.sensitive && IsHarmless(c, es[i].value, depth + 1)
       case Bytes(_) => false
       case Other(_) => false
       case _ => true
  }

  /** Harmless data pass unchanged. */
  lemma {:induction false} HarmlessIsKept(c: Config, v: Value, depth: int)
    requires IsHarmless(c, v, depth)
    ensures Walk(c, v, depth) == v
    decreases v
  {
    match v {
      case Dict(es) =>
        forall i | 0 <= i < |es| ensures Walk(c, es[i].value, depth + 1) == es[i].value {
          HarmlessIsKept(c, es[i].value, depth + 1);
        }
        var log := WalkEntries(c, v, |es|, depth);
        assert log == es;
        AssignedDistinct(log, |es|);
      case Items(vs) =>
        forall i | 0 <= i < |vs| ensures Walk(c, vs[i], depth + 1) == vs[i] {
          HarmlessIsKept(c, vs[i], depth + 1);
        }
        assert WalkItems(c, v, |vs|, depth) == vs;
      case _ =>
    }
  }

  /** In mixed data too, an entry that is visited, not replaced later and harmless keeps its key and its value. */
  lemma EntryIsKept(c: Config, es: seq<Field>, depth: int, i: nat)
    requires depth <= c.maxDepth && i < |es| && i < c.maxItems
    requires |es[i].key| <= 200 && c.normalise(es[i].key) !in c.sensitive && IsHarmless(c, es[i].value, depth + 1)
    requires forall j :: i < j < |es| && j < c.maxItems ==> Cut(es[j].key, 200) != es[i].key
    requires |es| > c.maxItems ==> es[i].key != "_paxalia_truncated"
    ensures Walk(c, Dict(es), depth).Dict? && es[i] in Walk(c, Dict(es), depth).entries
  {
    HarmlessIsKept(c, es[i].value, depth + 1);
    LogIsLeft(c, Dict(es), depth, i);
  }

  /** A visited entry under a sensitive key shows only that it was redacted. */
  lemma SecretIsReplaced(c: Config, es: seq<Field>, depth: int, i: nat)
    requires depth <= c.maxDepth && i < |es| && i < c.maxItems && c.normalise(Cut(es[i].key, 200)) in c.sensitive
    requires forall j :: i < j < |es| && j < c.maxItems ==> Cut(es[j].key, 200) != Cut(es[i].key, 200)
    requires |es| > c.maxItems ==> Cut(es[i].key, 200) != "_paxalia_truncated"
    ensures Walk(c, Dict(es), depth).Dict?
    ensures Entry(Cut(es[i].key, 200), Text("[REDACTED]")) in Walk(c, Dict(es), depth).entries
  {
    LogIsLeft(c, Dict(es), depth, i);
  }

  /** What is assigned last for a key other than the marker's is in the result. */
  lemma LogIsLeft(c: Config, v: Value, depth: int, i: nat)
    requires v.Dict? && depth <= c.maxDepth && i < Visited(c, |v.entries|)
    requires forall j :: i < j < Visited(c, |v.entries|) ==> KeyText(v.entries[j]) != KeyText(v.entries[i])
    requires |v.entries| > Cap(c) ==> KeyText(v.entries[i]) != TRUNCATED_KEY
    ensures Walk(c, v, depth).Dict?
    ensures Entry(KeyText(v.entries[i]), Shown(c, v.entries[i], depth)) in Walk(c, v, depth).entries
  {
    var n := Visited(c, |v.entries|);
    var log := WalkEntries(c, v, n, depth);
    var shown := AssignedMeaning(log, n);
    assert IsLast(log, n, i);
    assert log[i] in Elements(shown);
    PutMeaning(shown, TRUNCATED_KEY, Boolean(true));
  }

  /** Texts are cut and redacted; bytes, foreign objects that cannot be shown and whatever is too deep are named. */
  lemma LeavesAreShown(c: Config, s: string, b: seq<bv8>, v: Value, depth: int)
    ensures depth > c.maxDepth ==> Walk(c, v, depth) == Text("[TRUNCATED_DEPTH]")
    ensures depth <= c.maxDepth ==>
              && Walk(c, Text(s), depth) == Text(c.leaf(if |s| <= 4000 then s else s[..4000]))
              && Walk(c, Other(Some(s)), depth) == Walk(c, Text(s), depth)
              && Walk(c, Other(None), depth) == Text("[UNSERIALIZABLE]")
              && Walk(c, Bytes(b), depth) == Text("[BYTES REDACTED]")
  {
  }

  /**
   Of a list as many items are shown as the limit allows, in order, and a marker says that there were
   more. A negative limit drops that many items from the end and always sets the marker.
   */
  lemma ListsAreShown(c: Config, vs: seq<Value>, depth: int)
    requires depth <= c.maxDepth
    ensures Walk(c, Items(vs), depth).Items?
    ensures var r := Walk(c, Items(vs), depth).items;
            && (|vs| <= c.maxItems ==> |r| == |vs|)
            && (0 <= c.maxItems < |vs| ==> |r| == c.maxItems + 1)
            && (c.maxItems < 0 && |vs| + c.maxItems >= 0 ==> |r| == |vs| + c.maxItems + 1)
            && (c.maxItems < 0 && |vs| + c.maxItems < 0 ==> |r| == 1)
            && (|vs| > c.maxItems ==> r[|r| - 1] == Text("[TRUNCATED_ITEMS]"))
            && forall i :: 0 <= i < (if |vs| > c.maxItems then |r| - 1 else |r|) ==> r[i] == Walk(c, vs[i], depth + 1)
  {
  }

  /** A mapping that is cut says so. */
  lemma CutsAreMarked(c: Config, es: seq<Field>, depth: int)
    requires depth <= c.maxDepth
    ensures Walk(c, Dict(es), depth).Dict?
    ensures |es| > c.maxItems && es != [] ==>
              Entry("_paxalia_truncated", Boolean(true)) in Walk(c, Dict(es), depth).entries
  {
    var n := Visited(c, |es|);
    var shown := Assigned(WalkEntries(c, Dict(es), n, depth), n);
    if |es| > Cap(c) {
      assert Walk(c, Dict(es), depth) == Dict(Put(shown, TRUNCATED_KEY, Boolean(true)));
      var p := Position(shown, TRUNCATED_KEY);
      assert Put(shown, TRUNCATED_KEY, Boolean(true))[p] == MARKER;
    }
  }

  // ----- Redacting twice ----------------------------------------------------

  /** Redacting the value again, where it stands, changes nothing. */
  predicate IsFixed(c: Config, w: Value, depth: int) {
    Walk(c, w, depth) == w
  }

  /** The text is what it becomes when it is cut and redacted. */
  predicate Refits(c: Config, t: string) {
    LeafText(c, t) == t
  }

  /** The truncation marker of a dictionary at this depth survives being visited. */
  predicate MarkerStays(c: Config, depth: int) {
    !IsSensitive(c, TRUNCATED_KEY) && depth < c.maxDepth
  }

  /** The marker of a cut dictionary follows as many others as fit, so it is cut and set again. */
  predicate MarkerIsLast(c: Config, es: seq<Field>) {
    var n := Visited(c, |es|);
    && (forall i :: 0 <= i < n ==> KeyText(es[i]) != TRUNCATED_KEY)
    && forall i, j :: 0 <= i < j < n ==> KeyText(es[i]) != KeyText(es[j])
  }

  /** The value of entry `i` is visited and not overwritten later. */
  predicate IsKept(c: Config, es: seq<Field>, i: nat) {
    var n := Visited(c, |es|);
    && i < n
    && (forall j :: i < j < n ==> KeyText(es[j]) != KeyText(es[i]))
    && !(|es| > Cap(c) && KeyText(es[i]) == TRUNCATED_KEY)
  }

  /** The condition, on the input, for `redact` to be idempotent. */
  predicate Stable(c: Config, v: Value, depth: int)
    decreases v
  {
    depth > c.maxDepth ||
    match v
    case Text(s) => Refits(c, LeafText(c, s))
    case Bytes(_) => Refits(c, BYTES_REDACTED)
    case Other(text) => Refits(c, if text.Some? then LeafText(c, text.value) else UNSERIALIZABLE)
    case Items(vs) =>
      && (c.maxItems >= -1 || Kept(c, |vs|) == 0)
      && forall i :: 0 <= i < Kept(c, |vs|) ==> Stable(c, vs[i], depth + 1)
    case Dict(es) =>
      && (|es| > Cap(c) ==> MarkerIsLast(c, es) || MarkerStays(c, depth))
      && forall i :: 0 <= i < Visited(c, |es|) ==>
           IsKept(c, es, i) && !IsSensitive(c, KeyText(es[i])) ==> Stable(c, es[i].value, depth + 1)
    case _ => true
  }

  /** The form of a dictionary in the result: distinct short keys, cut only by its own marker. */
  ghost predicate IsResultDict(c: Config, w: seq<Field>) {
    && DistinctKeys(w)
    && (forall e :: e in w ==> |e.key| <= KEY_LIMIT)
    && (|w| <= Cap(c) || (|w| == Cap(c) + 1 && w[Cap(c)] == MARKER))
  }

  /** Walking such a dictionary assigns every visited entry in its place. */
  lemma DistinctLog(c: Config, w: seq<Field>, depth: int)
    requires IsResultDict(c, w)
    ensures var n := Visited(c, |w|);
            var log := WalkEntries(c, Dict(w), n, depth);
            && (forall j :: 0 <= j < n ==> log[j] == Entry(w[j].key, Shown(c, w[j], depth)))
            && KeysDiffer(log, n)
            && (|w| > Cap(c) ==> !HasKey(log, TRUNCATED_KEY))
  {
  }

  lemma AssignedLog(c: Config, w: seq<Field>, depth: int)
    requires IsResultDict(c, w)
    ensures var n := Visited(c, |w|);
            var log := WalkEntries(c, Dict(w), n, depth);
            && Assigned(log, n) == log
            && (|w| > Cap(c) ==> Put(log, TRUNCATED_KEY, Boolean(true)) == log + [MARKER])
  {
    var n := Visited(c, |w|);
    var log := WalkEntries(c, Dict(w), n, depth);
    DistinctLog(c, w, depth);
    AssignedDistinct(log, n);
    assert log[..n] == log;
    if |w| > Cap(c) {
      PutNew(log, TRUNCATED_KEY, Boolean(true));
    }
  }

  lemma DistinctWalk(c: Config, w: seq<Field>, depth: int)
    requires depth <= c.maxDepth && IsResultDict(c, w)
    ensures var log := WalkEntries(c, Dict(w), Visited(c, |w|), depth);
            Walk(c, Dict(w), depth) == Dict(if |w| > Cap(c) then log + [MARKER] else log)
  {
    AssignedLog(c, w, depth);
  }

  /** A result dictionary is fixed if and only if its visited entries are. */
  lemma FixedDict(c: Config, w: seq<Field>, depth: int)
    requires depth <= c.maxDepth && IsResultDict(c, w)
    ensures IsFixed(c, Dict(w), depth)
            <==> forall j :: 0 <= j < Visited(c, |w|) ==> Shown(c, w[j], depth) == w[j].value
  {
    DistinctWalk(c, w, depth);
    DistinctLog(c, w, depth);
    var n := Visited(c, |w|);
    SameUpTo(WalkEntries(c, Dict(w), n, depth), w, n);
  }

  lemma SameUpTo(log: seq<Field>, w: seq<Field>, n: nat)
    requires |log| == n <= |w| <= n + 1 && (|w| > n ==> w[n] == MARKER)
    requires forall j :: 0 <= j < n ==> log[j].key == w[j].key
    ensures (if |w| > n then log + [MARKER] else log) == w <==> forall j :: 0 <= j < n ==> log[j].value == w[j].value
  {
  }

  /** The entries of the first walk that stay and do not give way to the marker. */
  ghost predicate IsKeptEntry(c: Config, v: Value, depth: int, e: Field)
    requires v.Dict?
  {
    exists i :: 0 <= i < Visited(c, |v.entries|) && IsKept(c, v.entries, i)
                && e == Entry(KeyText(v.entries[i]), Shown(c, v.entries[i], depth))
  }

  /** The second walk visits the entries kept by the first, and the marker unless it is the last. */
  ghost predicate SecondVisit(c: Config, v: Value, depth: int, w: seq<Field>)
    requires v.Dict?
  {
    && IsResultDict(c, w)
    && (forall e :: e in w[..Visited(c, |w|)] <==>
          IsKeptEntry(c, v, depth, e) || (e == MARKER && |v.entries| > Cap(c) && !MarkerIsLast(c, v.entries)))
  }

  lemma KeptMeaning(c: Config, v: Value, depth: int, e: Field)
    requires v.Dict?
    ensures var n := Visited(c, |v.entries|);
            IsKeptEntry(c, v, depth, e)
            <==> e in Lasts(WalkEntries(c, v, n, depth), n) && !(|v.entries| > Cap(c) && e.key == TRUNCATED_KEY)
  {
  }

  lemma ShortKeys(c: Config, v: Value, depth: int, e: Field)
    requires v.Dict?
    requires var n := Visited(c, |v.entries|); e in Lasts(WalkEntries(c, v, n, depth), n)
    ensures |e.key| <= KEY_LIMIT
  {
  }

  lemma UncutMembers(c: Config, v: Value, depth: int, w: seq<Field>)
    requires v.Dict? && |v.entries| <= Cap(c)
    requires Elements(w) == Lasts(WalkEntries(c, v, |v.entries|, depth), |v.entries|)
    ensures forall e :: e in w <==> IsKeptEntry(c, v, depth, e)
    ensures forall e :: e in w ==> |e.key| <= KEY_LIMIT
  {
    forall e ensures e in w <==> IsKeptEntry(c, v, depth, e) {
      KeptMeaning(c, v, depth, e);
      assert e in w <==> e in Elements(w);
    }
    forall e | e in w ensures |e.key| <= KEY_LIMIT {
      assert e in Elements(w);
      ShortKeys(c, v, depth, e);
    }
  }

  lemma VisitUncut(c: Config, v: Value, depth: int, w: seq<Field>)
    requires v.Dict? && |w| <= |v.entries| <= Cap(c) && DistinctKeys(w)
    requires forall e :: e in w <==> IsKeptEntry(c, v, depth, e)
    requires forall e :: e in w ==> |e.key| <= KEY_LIMIT
    ensures SecondVisit(c, v, depth, w)
  {
    assert w[..Visited(c, |w|)] == w;
  }

  lemma SecondVisitUncut(c: Config, v: Value, depth: int)
    requires v.Dict? && depth <= c.maxDepth && |v.entries| <= Cap(c)
    ensures SecondVisit(c, v, depth, Walk(c, v, depth).entries)
  {
    var n := |v.entries|;
    var w := AssignedMeaning(WalkEntries(c, v, n, depth), n);
    assert Walk(c, v, depth) == Dict(w);
    UncutMembers(c, v, depth, w);
    VisitUncut(c, v, depth, w);
  }

  lemma LastMarkerMeaning(c: Config, v: Value, depth: int)
    requires v.Dict?
    ensures var n := Visited(c, |v.entries|);
            var log := WalkEntries(c, v, n, depth);
            MarkerIsLast(c, v.entries) <==> KeysDiffer(log, n) && !HasKey(log, TRUNCATED_KEY)
  {
  }

  lemma CutMembers(c: Config, v: Value, depth: int, shown: seq<Field>, w: seq<Field>)
    requires v.Dict? && |v.entries| > Cap(c) && DistinctKeys(shown)
    requires Elements(shown) == Lasts(WalkEntries(c, v, Cap(c), depth), Cap(c))
    requires w == Put(shown, TRUNCATED_KEY, Boolean(true))
    ensures forall e :: e in w <==> e == MARKER || IsKeptEntry(c, v, depth, e)
    ensures forall e :: e in w ==> |e.key| <= KEY_LIMIT
  {
    PutMeaning(shown, TRUNCATED_KEY, Boolean(true));
    forall e ensures e in w <==> e == MARKER || IsKeptEntry(c, v, depth, e) {
      KeptMeaning(c, v, depth, e);
      assert e in shown <==> e in Elements(shown);
    }
    forall e | e in w ensures |e.key| <= KEY_LIMIT {
      if e != MARKER {
        assert e in Elements(shown);
        ShortKeys(c, v, depth, e);
      }
    }
  }

  /** The second walk cuts at the marker exactly if the marker follows `n` other entries. */
  lemma CutSize(shown: seq<Field>, n: nat, w: seq<Field>, last: bool)
    requires DistinctKeys(shown) && |shown| <= n && w == Put(shown, TRUNCATED_KEY, Boolean(true))
    requires last <==> |shown| == n && !HasKey(shown, TRUNCATED_KEY)
    ensures DistinctKeys(w)
    ensures if last then |w| == n + 1 && w[n] == MARKER else |w| <= n
    ensures forall e :: e in w[..Min(|w|, n)] <==> e in w && !(last && e == MARKER)
  {
  }

  lemma SecondVisitCut(c: Config, v: Value, depth: int)
    requires v.Dict? && depth <= c.maxDepth && |v.entries| > Cap(c)
    ensures SecondVisit(c, v, depth, Walk(c, v, depth).entries)
  {
    var n := Cap(c);
    var log := WalkEntries(c, v, n, depth);
    var shown := AssignedMeaning(log, n);
    var w := Put(shown, TRUNCATED_KEY, Boolean(true));
    assert Walk(c, v, depth) == Dict(w);
    CutMembers(c, v, depth, shown, w);
    CutAtLast(c, v, depth, shown);
    CutSize(shown, n, w, MarkerIsLast(c, v.entries));
    VisitAfterCut(c, v, depth, w, MarkerIsLast(c, v.entries));
  }

  lemma CutAtLast(c: Config, v: Value, depth: int, shown: seq<Field>)
    requires v.Dict? && |v.entries| > Cap(c)
    requires var log := WalkEntries(c, v, Cap(c), depth);
             Elements(shown) == Lasts(log, Cap(c)) && (|shown| == Cap(c) <==> KeysDiffer(log, Cap(c)))
    ensures MarkerIsLast(c, v.entries) <==> |shown| == Cap(c) && !HasKey(shown, TRUNCATED_KEY)
  {
    var log := WalkEntries(c, v, Cap(c), depth);
    KeysLeft(log, Cap(c), shown, TRUNCATED_KEY);
    assert log[..Cap(c)] == log;
    LastMarkerMeaning(c, v, depth);
  }

  /** Putting the parts together. */
  lemma VisitAfterCut(c: Config, v: Value, depth: int, w: seq<Field>, last: bool)
    requires v.Dict? && |v.entries| > Cap(c) && (last <==> MarkerIsLast(c, v.entries)) && DistinctKeys(w)
    requires forall e :: e in w <==> e == MARKER || IsKeptEntry(c, v, depth, e)
    requires forall e :: e in w ==> |e.key| <= KEY_LIMIT
    requires if last then |w| == Cap(c) + 1 && w[Cap(c)] == MARKER else |w| <= Cap(c)
    requires forall e :: e in w[..Min(|w|, Cap(c))] <==> e in w && !(last && e == MARKER)
    ensures SecondVisit(c, v, depth, w)
  {
    forall e | IsKeptEntry(c, v, depth, e) ensures e != MARKER {
      KeptMeaning(c, v, depth, e);
    }
  }

  /** A kept entry stays fixed if it shows that it was redacted, or if its value is fixed one level deeper. */
  lemma EntryAgain(c: Config, x: Field, depth: int)
    ensures var e := Entry(KeyText(x), Shown(c, x, depth));
            Shown(c, e, depth) == e.value
            <==> IsSensitive(c, KeyText(x)) || IsFixed(c, Walk(c, x.value, depth + 1), depth + 1)
  {
  }

  lemma MarkerAgain(c: Config, depth: int)
    requires depth <= c.maxDepth
    ensures Shown(c, MARKER, depth) == MARKER.value <==> MarkerStays(c, depth)
  {
  }

  /** The values of a dictionary meet the claim about redacting twice. */
  ghost predicate ValuesAgain(c: Config, v: Value, depth: int)
    requires v.Dict?
  {
    forall i :: 0 <= i < Visited(c, |v.entries|) ==>
      (IsFixed(c, Walk(c, v.entries[i].value, depth + 1), depth + 1)
       <==> Stable(c, v.entries[i].value, depth + 1))
  }

  lemma EntriesAreStable(c: Config, v: Value, depth: int, w: seq<Field>, k: nat)
    requires v.Dict? && ValuesAgain(c, v, depth) && k <= |w|
    requires forall e :: IsKeptEntry(c, v, depth, e) ==> e in w[..k]
    requires forall j :: 0 <= j < k ==> Shown(c, w[j], depth) == w[j].value
    ensures forall i :: 0 <= i < Visited(c, |v.entries|) ==>
              IsKept(c, v.entries, i) && !IsSensitive(c, KeyText(v.entries[i])) ==>
                Stable(c, v.entries[i].value, depth + 1)
  {
    var es := v.entries;
    forall i | 0 <= i < Visited(c, |es|) && IsKept(c, es, i) && !IsSensitive(c, KeyText(es[i]))
      ensures Stable(c, es[i].value, depth + 1)
    {
      EntryAgain(c, es[i], depth);
      var e := Entry(KeyText(es[i]), Shown(c, es[i], depth));
      assert IsKeptEntry(c, v, depth, e);
      var j :| 0 <= j < k && w[..k][j] == e;
      assert w[j] == e;
    }
  }

  lemma EntriesAreFixed(c: Config, v: Value, depth: int, e: Field)
    requires v.Dict? && ValuesAgain(c, v, depth) && IsKeptEntry(c, v, depth, e)
    requires forall i :: 0 <= i < Visited(c, |v.entries|) ==>
              IsKept(c, v.entries, i) && !IsSensitive(c, KeyText(v.entries[i])) ==>
                Stable(c, v.entries[i].value, depth + 1)
    ensures Shown(c, e, depth) == e.value
  {
  }

  /** A dictionary is redacted for good exactly if it is stable, given that this is so for its values. */
  lemma DictAgain(c: Config, v: Value, depth: int)
    requires v.Dict? && depth <= c.maxDepth && ValuesAgain(c, v, depth)
    ensures IsFixed(c, Walk(c, v, depth), depth) <==> Stable(c, v, depth)
  {
    var es := v.entries;
    var w := Walk(c, v, depth).entries;
    if |es| > Cap(c) {
      SecondVisitCut(c, v, depth);
    } else {
      SecondVisitUncut(c, v, depth);
    }
    FixedDict(c, w, depth);
    MarkerAgain(c, depth);
    var k := Visited(c, |w|);
    if IsFixed(c, Dict(w), depth) {
      EntriesAreStable(c, v, depth, w, k);
      if |es| > Cap(c) && !MarkerIsLast(c, es) {
        assert MARKER in w[..k];
        var j :| 0 <= j < k && w[..k][j] == MARKER;
        assert w[j] == MARKER;
      }
    }
    if Stable(c, v, depth) {
      forall j | 0 <= j < k ensures Shown(c, w[j], depth) == w[j].value {
        assert w[..k][j] == w[j];
        if IsKeptEntry(c, v, depth, w[j]) {
          EntriesAreFixed(c, v, depth, w[j]);
        }
      }
    }
  }

  lemma ItemsAgain(c: Config, v: Value, depth: int)
    requires v.Items? && depth <= c.maxDepth
    requires forall i :: 0 <= i < Kept(c, |v.items|) ==>
               (IsFixed(c, Walk(c, v.items[i], depth + 1), depth + 1) <==> Stable(c, v.items[i], depth + 1))
    ensures IsFixed(c, Walk(c, v, depth), depth) <==> Stable(c, v, depth)
  {
    var n := Kept(c, |v.items|);
    var w := Walk(c, v, depth).items;
    var again := Walk(c, Items(w), depth).items;
    forall i | 0 <= i < n ensures w[i] == Walk(c, v.items[i], depth + 1) {
    }
    if c.maxItems < -1 && n > 0 {
      assert |again| < |w|;
    } else {
      SameItems(c, v, depth, w, again, n);
    }
  }

  lemma SameItems(c: Config, v: Value, depth: int, w: seq<Value>, again: seq<Value>, n: nat)
    requires v.Items? && depth <= c.maxDepth && n == Kept(c, |v.items|) && (c.maxItems >= -1 || n == 0)
    requires w == Walk(c, v, depth).items && again == Walk(c, Items(w), depth).items
    ensures again == w <==> forall i :: 0 <= i < n ==> IsFixed(c, Walk(c, v.items[i], depth + 1), depth + 1)
  {
    assert |again| == |w| && Kept(c, |w|) == n;
    forall i | 0 <= i < n
      ensures w[i] == Walk(c, v.items[i], depth + 1) && again[i] == Walk(c, w[i], depth + 1)
    {
    }
    assert |w| > n ==> |w| == n + 1 && w[n] == TRUNCATED_ITEMS == again[n];
    assert again == w <==> forall i :: 0 <= i < n ==> again[i] == w[i];
  }

  /**
   Redacting the result again leaves it as it is if and only if the input is stable: every text that is
   kept refits, and every cut dictionary either has its marker after `maxItems` different keys or lies
   where a visited marker survives.
   */
  lemma {:induction false} RedactedTwice(c: Config, v: Value, depth: int)
    ensures IsFixed(c, Walk(c, v, depth), depth) <==> Stable(c, v, depth)
    decreases v
  {
    if depth <= c.maxDepth {
      match v {
        case Dict(es) =>
          forall i | 0 <= i < Visited(c, |es|)
            ensures IsFixed(c, Walk(c, es[i].value, depth + 1), depth + 1) <==> Stable(c, es[i].value, depth + 1)
          {
            RedactedTwice(c, es[i].value, depth + 1);
          }
          DictAgain(c, v, depth);
        case Items(vs) =>
          forall i | 0 <= i < Kept(c, |vs|)
            ensures IsFixed(c, Walk(c, vs[i], depth + 1), depth + 1) <==> Stable(c, vs[i], depth + 1)
          {
            RedactedTwice(c, vs[i], depth + 1);
          }
          ItemsAgain(c, v, depth);
        case _ =>
      }
    }
  }

  // ----- When data are redacted once ----------------------------------------

  /** Every text that is kept refits once it is redacted, the markers for bytes and foreign objects included. */
  predicate TextsRefit(c: Config, v: Value)
    decreases v
  {
    match v
    case Text(s) => Refits(c, LeafText(c, s))
    case Bytes(_) => Refits(c, BYTES_REDACTED)
    case Other(text) => Refits(c, if text.Some? then LeafText(c, text.value) else UNSERIALIZABLE)
    case Dict(es) => forall i :: 0 <= i < Visited(c, |es|) ==> TextsRefit(c, es[i].value)
    case Items(vs) => forall i :: 0 <= i < Kept(c, |vs|) ==> TextsRefit(c, vs[i])
    case _ => true
  }

  /** Every dictionary that is cut keeps the full number of different keys, none of them the marker's. */
  predicate KeysAreRegular(c: Config, v: Value)
    decreases v
  {
    match v
    case Dict(es) =>
      && (|es| > Cap(c) ==> MarkerIsLast(c, es))
      && forall i :: 0 <= i < Visited(c, |es|) ==> KeysAreRegular(c, es[i].value)
    case Items(vs) => forall i :: 0 <= i < Kept(c, |vs|) ==> KeysAreRegular(c, vs[i])
    case _ => true
  }

  /** Such data are stable, at every depth and whatever keys are sensitive. */
  lemma {:induction false} RegularIsStable(c: Config, v: Value, depth: int)
    requires c.maxItems >= -1 && TextsRefit(c, v) && KeysAreRegular(c, v)
    ensures Stable(c, v, depth)
    decreases v
  {
    match v {
      case Dict(es) =>
        forall i | 0 <= i < Visited(c, |es|) ensures Stable(c, es[i].value, depth + 1) {
          RegularIsStable(c, es[i].value, depth + 1);
        }
      case Items(vs) =>
        forall i | 0 <= i < Kept(c, |vs|) ensures Stable(c, vs[i], depth + 1) {
          RegularIsStable(c, vs[i], depth + 1);
        }
      case _ =>
    }
  }

  lemma RegularDataAreRedactedOnce(c: Config, v: Value)
    requires c.maxItems >= -1 && TextsRefit(c, v) && KeysAreRegular(c, v)
    ensures Walk(c, Walk(c, v, 0), 0) == Walk(c, v, 0)
  {
    RegularIsStable(c, v, 0);
    RedactedTwice(c, v, 0);
  }

  /** A redacted text that still fits the cut refits if and only if redacting it again changes nothing. */
  lemma FittingText(c: Config, s: string)
    requires |LeafText(c, s)| <= TEXT_LIMIT
    ensures Refits(c, LeafText(c, s)) <==> c.leaf(LeafText(c, s)) == LeafText(c, s)
  {
  }

  /** A text that outgrows the cut when it is redacted loses its end the second time, unless the cut text grows again. */
  lemma GrownTextIsCut(c: Config, s: string)
    requires c.maxDepth >= 0
    requires |LeafText(c, s)| > TEXT_LIMIT && |LeafText(c, LeafText(c, s))| <= TEXT_LIMIT
    ensures !Stable(c, Text(s), 0)
    ensures Walk(c, Walk(c, Text(s), 0), 0) != Walk(c, Text(s), 0)
  {
    RedactedTwice(c, Text(s), 0);
  }

  /** `v` inside `n` lists of one item each. */
  function Nested(v: Value, n: nat): (r: Value) {
    if n == 0 then v else Items([Nested(v, n - 1)])
  }

  lemma {:induction false} NestedIsUnstable(c: Config, v: Value, n: nat, depth: int)
    requires c.maxItems >= 1 && depth + n <= c.maxDepth && !Stable(c, v, depth + n)
    ensures !Stable(c, Nested(v, n), depth)
    decreases n
  {
    if n == 0 {
    } else {
      NestedIsUnstable(c, v, n - 1, depth + 1);
      var r := Nested(v, n);
      assert r.items[0] == Nested(v, n - 1) && Kept(c, |r.items|) == 1;
    }
  }

  /**
   Idempotence fails where an item already bears the marker's key: the cut dictionary is then no longer
   cut, and its marker, visited as an ordinary value at the depth limit, is itself truncated. It takes
   one entry with that key and as many others as the limit.
   */
  lemma MarkerKeyIsUnstable(c: Config, others: seq<Field>)
    requires c.maxItems >= 1 && |others| >= c.maxItems && c.maxDepth >= 0
    ensures var v := Nested(Dict([Entry(TRUNCATED_KEY, Null)] + others), c.maxDepth);
            Walk(c, Walk(c, v, 0), 0) != Walk(c, v, 0)
  {
    var es := [Entry(TRUNCATED_KEY, Null)] + others;
    assert KeyText(es[0]) == TRUNCATED_KEY && Visited(c, |es|) >= 1;
    assert !Stable(c, Dict(es), c.maxDepth);
    NestedIsUnstable(c, Dict(es), c.maxDepth, 0);
    RedactedTwice(c, Nested(Dict(es), c.maxDepth), 0);
  }

  /** The limits that `redact` has when its caller gives none. */
  const DEFAULT_MAX_DEPTH := 6
  const DEFAULT_MAX_ITEMS := 100

  /** `n` entries under the keys "k", "kk", "kkk" and so on. */
  function PlainEntries(n: nat): (es: seq<Field>)
    ensures |es| == n && forall i :: 0 <= i < n ==> es[i].key == seq(i + 1, _ => 'k')
  {
    if n == 0 then [] else PlainEntries(n - 1) + [Entry(seq(n, _ => 'k'), Null)]
  }

  /** A mapping of 101 different keys, six lists deep, changes on the second pass with the default limits. */
  lemma TruncationMarkerIsLost(leaf: string -> string, normalise: string -> string, sensitive: set<string>)
    ensures var c := Config(sensitive, DEFAULT_MAX_DEPTH, DEFAULT_MAX_ITEMS, leaf, normalise);
            var es := [Entry(TRUNCATED_KEY, Null)] + PlainEntries(100);
            DistinctKeys(es) && Walk(c, Walk(c, Nested(Dict(es), 6), 0), 0) != Walk(c, Nested(Dict(es), 6), 0)
  {
    var c := Config(sensitive, DEFAULT_MAX_DEPTH, DEFAULT_MAX_ITEMS, leaf, normalise);
    var others := PlainEntries(100);
    MarkerKeyIsUnstable(c, others);
    var es := [Entry(TRUNCATED_KEY, Null)] + others;
    forall i, j | 0 <= i < j < |es| ensures es[i].key != es[j].key {
      if i == 0 {
        assert es[j].key[0] == 'k' && TRUNCATED_KEY[0] == '_';
      } else {
        assert |es[i].key| == i && |es[j].key| == j;
      }
    }
  }
}
