/**
 Dictionaries that keep the order of insertion, as Python's `dict` does: a list of entries in which a
 repeated assignment replaces the value but not the place.
 */
module OrderedDict {
  import opened Prelude

  datatype Entry<K, V> = Entry(key: K, value: V)

  predicate HasKey<K(==), V>(es: seq<Entry<K, V>>, key: K) {
    exists i :: 0 <= i < |es| && es[i].key == key
  }

  /** The position of a key, or the length if it is missing. */
  function Position<K(==), V>(es: seq<Entry<K, V>>, key: K, i: nat := 0): (p: nat)
    requires i <= |es|
    ensures i <= p <= |es| && (p < |es| ==> es[p].key == key)
    ensures forall j :: i <= j < p ==> es[j].key != key
    decreases |es| - i
  {
    if i == |es| || es[i].key == key then i else Position(es, key, i + 1)
  }

  /** `es[key] = value`: an old key keeps its place, a new one goes to the end. */
  function Put<K(==), V>(es: seq<Entry<K, V>>, key: K, value: V): (r: seq<Entry<K, V>>) {
    var p := Position(es, key);
    if p < |es| then es[p := Entry(key, value)] else es + [Entry(key, value)]
  }

  /** The dictionary after the first `n` of the assignments in `log`. */
  function Assigned<K(==), V>(log: seq<Entry<K, V>>, n: nat): (r: seq<Entry<K, V>>)
    requires n <= |log|
  {
    if n == 0 then [] else Put(Assigned(log, n - 1), log[n - 1].key, log[n - 1].value)
  }

  /** The first `n` keys are all different. */
  predicate KeysDiffer<K(==), V>(es: seq<Entry<K, V>>, n: nat)
    requires n <= |es|
  {
    forall i, j :: 0 <= i < j < n ==> es[i].key != es[j].key
  }

  predicate DistinctKeys<K(==), V>(es: seq<Entry<K, V>>) {
    KeysDiffer(es, |es|)
  }

  lemma PutMeaning<K, V>(es: seq<Entry<K, V>>, key: K, value: V)
    requires DistinctKeys(es)
    ensures var r := Put(es, key, value);
            && DistinctKeys(r)
            && |r| == |es| + (if HasKey(es, key) then 0 else 1)
            && (forall e :: e in r <==> e == Entry(key, value) || (e in es && e.key != key))
  {
    var r := Put(es, key, value);
    var p := Position(es, key);
    assert r[p] == Entry(key, value);
    forall e | e in es && e.key != key ensures e in r {
      var i :| 0 <= i < |es| && es[i] == e;
      assert r[i] == e;
    }
  }

  /** Assignments never move a key: the dictionary is ordered by first assignment. */
  lemma PutKeepsPlaces<K, V>(es: seq<Entry<K, V>>, key: K, value: V)
    ensures var r := Put(es, key, value);
            && (forall i :: 0 <= i < |es| ==> r[i].key == es[i].key)
            && (forall i :: |es| <= i < |r| ==> r[i] == Entry(key, value))
  {
  }

  lemma PutNew<K, V>(es: seq<Entry<K, V>>, key: K, value: V)
    requires !HasKey(es, key)
    ensures Put(es, key, value) == es + [Entry(key, value)]
  {
  }

  // ----- What assignments leave ---------------------------------------------

  /** `i` is the last of the first `n` assignments to its key, so its value is the one that stays. */
  predicate IsLast<K(==), V>(log: seq<Entry<K, V>>, n: nat, i: nat)
    requires n <= |log|
  {
    i < n && forall j :: i < j < n ==> log[j].key != log[i].key
  }

  /** The last of the first `n` assignments to each key. */
  ghost function Lasts<K, V>(log: seq<Entry<K, V>>, n: nat): (s: set<Entry<K, V>>)
    requires n <= |log|
  {
    set i | 0 <= i < n && IsLast(log, n, i) :: log[i]
  }

  /** One more assignment takes the place of an earlier one to the same key. */
  lemma LastsSnoc<K, V>(log: seq<Entry<K, V>>, n: nat, e: Entry<K, V>)
    requires 0 < n <= |log|
    ensures e in Lasts(log, n) <==> e == log[n - 1] || (e in Lasts(log, n - 1) && e.key != log[n - 1].key)
  {
  }

  lemma {:induction false} LastWith<K, V>(log: seq<Entry<K, V>>, n: nat, i: nat) returns (last: nat)
    requires i < n <= |log|
    ensures last < n && IsLast(log, n, last) && log[last].key == log[i].key
    decreases n - i
  {
    last := i;
    if !IsLast(log, n, i) {
      var j :| i < j < n && log[j].key == log[i].key;
      last := LastWith(log, n, j);
    }
  }

  /** A key is in the dictionary if and only if it was assigned to. */
  lemma KeysLeft<K, V>(log: seq<Entry<K, V>>, n: nat, r: seq<Entry<K, V>>, key: K)
    requires n <= |log| && Elements(r) == Lasts(log, n)
    ensures HasKey(r, key) <==> HasKey(log[..n], key)
  {
    if HasKey(r, key) {
      var p :| 0 <= p < |r| && r[p].key == key;
      assert r[p] in Elements(r);
      var i :| 0 <= i < n && IsLast(log, n, i) && log[i] == r[p];
      assert log[..n][i].key == key;
    }
    if HasKey(log[..n], key) {
      var i :| 0 <= i < n && log[..n][i].key == key;
      var last := LastWith(log, n, i);
      assert log[last] in Elements(r);
    }
  }

  lemma KeysDifferSnoc<K, V>(log: seq<Entry<K, V>>, n: nat)
    requires 0 < n <= |log|
    ensures KeysDiffer(log, n) <==> KeysDiffer(log, n - 1) && !HasKey(log[..n - 1], log[n - 1].key)
  {
  }

  lemma LeftSnoc<K, V>(log: seq<Entry<K, V>>, n: nat, before: seq<Entry<K, V>>)
    requires 0 < n <= |log| && Elements(before) == Lasts(log, n - 1) && DistinctKeys(before)
    ensures Elements(Put(before, log[n - 1].key, log[n - 1].value)) == Lasts(log, n)
  {
    var last := log[n - 1];
    PutMeaning(before, last.key, last.value);
    forall e ensures e in Put(before, last.key, last.value) <==> e in Lasts(log, n) {
      LastsSnoc(log, n, e);
    }
  }

  /** As many entries as assignments remain only if no key was assigned twice. */
  lemma SizeSnoc<K, V>(log: seq<Entry<K, V>>, n: nat, before: seq<Entry<K, V>>)
    requires 0 < n <= |log| && Elements(before) == Lasts(log, n - 1) && DistinctKeys(before)
    requires |before| <= n - 1 && (|before| == n - 1 <==> KeysDiffer(log, n - 1))
    ensures var r := Put(before, log[n - 1].key, log[n - 1].value);
            DistinctKeys(r) && |r| <= n && (|r| == n <==> KeysDiffer(log, n))
  {
    var last := log[n - 1];
    PutMeaning(before, last.key, last.value);
    KeysLeft(log, n - 1, before, last.key);
    KeysDifferSnoc(log, n);
  }

  /** The dictionary holds one entry a key, the last assigned, and is full-sized only if no key repeats. */
  lemma {:induction false} AssignedMeaning<K, V>(log: seq<Entry<K, V>>, n: nat) returns (r: seq<Entry<K, V>>)
    requires n <= |log|
    ensures r == Assigned(log, n)
    ensures DistinctKeys(r) && Elements(r) == Lasts(log, n)
    ensures |r| <= n && (|r| == n <==> KeysDiffer(log, n))
  {
    if n == 0 {
      return [];
    }
    var before := AssignedMeaning(log, n - 1);
    LeftSnoc(log, n, before);
    SizeSnoc(log, n, before);
    r := Put(before, log[n - 1].key, log[n - 1].value);
  }

  /** Assignments to different keys stay as they are. */
  lemma {:induction false} AssignedDistinct<K, V>(log: seq<Entry<K, V>>, n: nat)
    requires n <= |log| && KeysDiffer(log, n)
    ensures Assigned(log, n) == log[..n]
  {
    if n == 0 {
    } else {
      AssignedDistinct(log, n - 1);
      KeysDifferSnoc(log, n);
      assert log[..n] == log[..n - 1] + [log[n - 1]];
    }
  }
}
