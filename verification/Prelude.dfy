/** Small definitions and facts that the other modules share. */
module Prelude {

  datatype Option<+T> = None | Some(value: T)

  function Max(a: int, b: int): (r: int) {
    if a >= b then a else b
  }

  function Min(a: int, b: int): (r: int) {
    if a <= b then a else b
  }

  lemma MulNonnegative(d: int, k: int)
    requires d >= 0 && k >= 0
    ensures d * k >= 0
  {
  }

  /** Multiples of `d` are at least `d` apart. */
  lemma MulGap(d: int, x: int, y: int)
    requires d > 0
    ensures x < y ==> d * x + d <= d * y
    ensures x <= y ==> d * x <= d * y
  {
    if x < y {
      MulNonnegative(d, y - x - 1);
      assert d * (y - x - 1) == d * y - d * x - d;
    }
  }

  /** A quotient is determined by its remainder being in range. */
  lemma DivUnique(a: int, d: int, q: int, r: int)
    requires d > 0 && a == d * q + r && 0 <= r < d
    ensures a / d == q
  {
    assert a == d * (a / d) + a % d;
    MulGap(d, a / d, q);
    MulGap(d, q, a / d);
  }

  lemma DivPlus(a: int, d: int)
    requires d > 0
    ensures (a + d) / d == a / d + 1
  {
    assert a == d * (a / d) + a % d;
    assert d * (a / d + 1) == d * (a / d) + d;
    DivUnique(a + d, d, a / d + 1, a % d);
  }

  lemma DivMonotone(a: int, b: int, d: int)
    requires d > 0 && a <= b
    ensures a / d <= b / d
  {
    assert a == d * (a / d) + a % d && b == d * (b / d) + b % d;
    MulGap(d, b / d, a / d);
  }

  lemma PrefixMembers<T>(s: seq<T>, n: nat)
    requires n <= |s|
    ensures forall k :: 0 <= k < n ==> s[k] in s[..n]
  {
  }

  lemma SubsetSize<T>(a: set<T>, b: set<T>)
    requires a <= b
    ensures |a| <= |b|
  {
    assert b == a + (b - a);
  }

  predicate Distinct<T(==)>(s: seq<T>) {
    forall i, j :: 0 <= i < j < |s| ==> s[i] != s[j]
  }

  function Elements<T(==)>(s: seq<T>): (r: set<T>) {
    set x | x in s
  }

  lemma DistinctSnoc<T>(s: seq<T>, x: T)
    ensures Elements(s + [x]) == Elements(s) + {x}
    ensures Distinct(s + [x]) <==> Distinct(s) && x !in Elements(s)
  {
    var t := s + [x];
    assert t[|s|] == x && forall i :: 0 <= i < |s| ==> t[i] == s[i];
    if Distinct(t) {
      assert forall i :: 0 <= i < |s| ==> t[i] != t[|s|];
    }
  }

  /** The numbers grow from each position to the next. */
  predicate Ascending(s: seq<nat>) {
    forall i, j :: 0 <= i < j < |s| ==> s[i] < s[j]
  }

  lemma {:induction false} DistinctCount<T>(s: seq<T>)
    requires Distinct(s)
    ensures |Elements(s)| == |s|
  {
    if s == [] {
    } else {
      var p, last := s[..|s| - 1], s[|s| - 1];
      DistinctCount(p);
      assert s == p + [last] && last !in p;
      assert Elements(s) == Elements(p) + {last};
    }
  }

  function UpTo(n: nat): (r: set<int>)
    ensures forall i :: i in r <==> 0 <= i < n
  {
    if n == 0 then {} else UpTo(n - 1) + {n - 1}
  }

  lemma {:induction false} UpToSize(n: nat)
    ensures |UpTo(n)| == n
  {
    if n == 0 {
    } else {
      UpToSize(n - 1);
    }
  }

  /** A distinct list of exactly the numbers below `n` has `n` entries. */
  lemma ListingSize(s: seq<int>, n: nat)
    requires Distinct(s) && forall i :: i in s <==> 0 <= i < n
    ensures |s| == n
  {
    DistinctCount(s);
    UpToSize(n);
    assert Elements(s) == UpTo(n);
  }
}
