/**
 A fixed-window sampler: the rule that the log grouping window of paxalia/logging/services.py and
 the attempt counter of paxalia/security_rate_limit.py have in common.

 The first call opens a window. A call made at least `width` after the current window opened opens
 the next one. Each window accepts its first `limit` calls, the opening call included.
 */
module WindowSampler {
  import opened Prelude

  datatype Window = Idle | Window(start: int, count: nat)

  predicate Accepts(limit: nat, width: nat, w: Window, t: int) {
    w.Idle? || t >= w.start + width || w.count < limit
  }

  function Observe(limit: nat, width: nat, w: Window, t: int): (r: Window) {
    if w.Idle? || t >= w.start + width then Window(t, 1)
    else if w.count < limit then w.(count := w.count + 1)
    else w
  }

  /** The window after the calls at `times`, in order. */
  function After(limit: nat, width: nat, times: seq<int>): (w: Window) {
    if times == [] then Idle
    else Observe(limit, width, After(limit, width, times[..|times| - 1]), times[|times| - 1])
  }

  /** The accepted calls among `times`. */
  function Accepted(limit: nat, width: nat, times: seq<int>): (r: seq<int>) {
    if times == [] then []
    else
      var p, t := times[..|times| - 1], times[|times| - 1];
      Accepted(limit, width, p) + if Accepts(limit, width, After(limit, width, p), t) then [t] else []
  }

  function CountIn(ts: seq<int>, a: int, b: int): (n: nat) {
    if ts == [] then 0
    else CountIn(ts[..|ts| - 1], a, b) + if a <= ts[|ts| - 1] < b then 1 else 0
  }

  predicate Nondecreasing(ts: seq<int>) {
    |ts| <= 1 || (ts[|ts| - 2] <= ts[|ts| - 1] && Nondecreasing(ts[..|ts| - 1]))
  }

  /** One more call. */
  lemma Snoc(limit: nat, width: nat, ts: seq<int>, t: int)
    ensures var w := After(limit, width, ts);
            && After(limit, width, ts + [t]) == Observe(limit, width, w, t)
            && Accepted(limit, width, ts + [t]) ==
               Accepted(limit, width, ts) + if Accepts(limit, width, w, t) then [t] else []
    ensures Nondecreasing(ts + [t]) <==> Nondecreasing(ts) && (ts != [] ==> ts[|ts| - 1] <= t)
  {
    assert (ts + [t])[..|ts|] == ts;
  }

  lemma CountSnoc(limit: nat, width: nat, ts: seq<int>, t: int, a: int, b: int)
    ensures var w := After(limit, width, ts);
            CountIn(Accepted(limit, width, ts + [t]), a, b) ==
            CountIn(Accepted(limit, width, ts), a, b) + if Accepts(limit, width, w, t) && a <= t < b then 1 else 0
  {
    Snoc(limit, width, ts, t);
    var before := Accepted(limit, width, ts);
    assert (before + [t])[..|before|] == before && before + [] == before;
  }

  lemma {:induction false} NoneLater(limit: nat, width: nat, times: seq<int>, a: int, b: int)
    requires Nondecreasing(times) && (times != [] ==> times[|times| - 1] < a)
    ensures CountIn(Accepted(limit, width, times), a, b) == 0
  {
    if times == [] {
    } else {
      var p, t := times[..|times| - 1], times[|times| - 1];
      assert times == p + [t];
      NoneLater(limit, width, p, a, b);
      CountSnoc(limit, width, p, t, a, b);
    }
  }

  /**
   What a window knows: how many calls were accepted since it opened, which is less than `width` ago. So
   a call is refused exactly while the window lasts and `limit` calls were accepted in it.
   */
  lemma {:induction false} WindowMeaning(limit: nat, width: nat, times: seq<int>, b: int)
    requires limit >= 1 && width >= 1 && times != [] && Nondecreasing(times) && times[|times| - 1] < b
    ensures var w := After(limit, width, times);
            && w.Window? && w.start <= times[|times| - 1] < w.start + width
            && w.count == CountIn(Accepted(limit, width, times), w.start, b)
  {
    var p, t := times[..|times| - 1], times[|times| - 1];
    assert times == p + [t];
    Snoc(limit, width, p, t);
    if p == [] {
      CountSnoc(limit, width, p, t, t, b);
    } else {
      WindowMeaning(limit, width, p, b);
      var w := After(limit, width, p);
      if t >= w.start + width {
        NoneLater(limit, width, p, t, b);
        CountSnoc(limit, width, p, t, t, b);
      } else {
        CountSnoc(limit, width, p, t, w.start, b);
      }
    }
  }

  /** The verdict on one more call: accepted unless its window still lasts and has had `limit` calls. */
  lemma VerdictMeaning(limit: nat, width: nat, times: seq<int>, t: int)
    requires limit >= 1 && width >= 1 && times != [] && Nondecreasing(times) && times[|times| - 1] <= t
    ensures var w := After(limit, width, times);
            && w.Window?
            && (Accepts(limit, width, w, t) <==>
                t >= w.start + width || CountIn(Accepted(limit, width, times), w.start, t + 1) < limit)
  {
    WindowMeaning(limit, width, times, t + 1);
  }

  /** The number of whole windows that cover an interval of length `span`, rounded up. */
  function Ceil(span: int, width: nat): (k: int)
    requires width >= 1
  {
    (span + width - 1) / width
  }

  /** No window ever accepts more than its limit. */
  lemma {:induction false} WindowIsBounded(limit: nat, width: nat, times: seq<int>)
    requires limit >= 1
    ensures var w := After(limit, width, times); w.Window? ==> 1 <= w.count <= limit
    ensures times != [] ==> After(limit, width, times).Window?
  {
    if times == [] {
    } else {
      WindowIsBounded(limit, width, times[..|times| - 1]);
    }
  }

  /**
   While the calls stay before `b`, the calls accepted in [a, b) fit in what is left of the window
   that was open at `a`, `k - 1` whole windows and the current one; these `k` windows opened at
   least `width` apart. When the current window opened before `a`, its opening call is not counted.
   */
  lemma {:induction false} Fill(limit: nat, width: nat, times: seq<int>, a: int, b: int) returns (k: nat)
    requires limit >= 1 && width >= 1 && Nondecreasing(times)
    requires times != [] && times[|times| - 1] < b
    ensures Filled(limit, width, times, a, b, k)
  {
    var p, t := times[..|times| - 1], times[|times| - 1];
    assert times == p + [t];
    if p == [] {
      k := if t < a then 0 else 1;
      Snoc(limit, width, p, t);
      CountSnoc(limit, width, p, t, a, b);
    } else {
      k := Fill(limit, width, p, a, b);
      k := FillSnoc(limit, width, p, t, a, b, k);
    }
  }

  lemma FillSnoc(limit: nat, width: nat, p: seq<int>, t: int, a: int, b: int, k: nat) returns (k': nat)
    requires limit >= 1 && width >= 1 && p != [] && p[|p| - 1] <= t < b
    requires Filled(limit, width, p, a, b, k)
    ensures Filled(limit, width, p + [t], a, b, k')
  {
    Snoc(limit, width, p, t);
    CountSnoc(limit, width, p, t, a, b);
    k' := FillStep(limit, width, After(limit, width, p), CountIn(Accepted(limit, width, p), a, b), p[|p| - 1], t, a, b, k);
  }

  /** What one more call does to the window, to the number of calls accepted and to the windows counted. */
  lemma FillStep(limit: nat, width: nat, w: Window, n: nat, last: int, t: int, a: int, b: int, k: nat) returns (k': nat)
    requires limit >= 1 && width >= 1 && last <= t < b && FilledBy(limit, width, w, n, last, a, k)
    ensures FilledBy(limit, width, Observe(limit, width, w, t),
                     n + if Accepts(limit, width, w, t) && a <= t < b then 1 else 0, t, a, k')
  {
    k' := k;
    if t >= w.start + width && t >= a {
      k' := k + 1;
    }
  }

  /** `d` taken `k` times. */
  function Multiple(d: nat, k: nat): (n: nat) {
    if k == 0 then 0 else Multiple(d, k - 1) + d
  }

  lemma {:induction false} MultipleMeaning(d: nat, k: nat)
    ensures Multiple(d, k) == d * k
  {
    if k == 0 {
    } else {
      MultipleMeaning(d, k - 1);
    }
  }

  ghost predicate Filled(limit: nat, width: nat, times: seq<int>, a: int, b: int, k: nat)
    requires times != []
  {
    FilledBy(limit, width, After(limit, width, times), CountIn(Accepted(limit, width, times), a, b),
             times[|times| - 1], a, k)
  }

  ghost predicate FilledBy(limit: nat, width: nat, w: Window, n: nat, last: int, a: int, k: nat) {
    && w.Window? && w.start <= last && 1 <= w.count <= limit
    && (last < a ==> n == 0)
    && (w.start < a ==> k == 0 && n <= w.count - 1)
    && (w.start >= a ==>
          k >= 1 && Multiple(width, k - 1) <= w.start - a && n <= limit - 1 + Multiple(limit, k - 1) + w.count)
  }

  /** What is left of an earlier window and `k` whole ones hold the calls accepted in the interval. */
  lemma WindowsFilled(limit: nat, width: nat, times: seq<int>, a: int, span: nat) returns (k: nat)
    requires limit >= 1 && width >= 1 && Nondecreasing(times)
    requires times != [] ==> times[|times| - 1] < a + span
    ensures CountIn(Accepted(limit, width, times), a, a + span) <= limit - 1 + Multiple(limit, k)
    ensures k >= 1 ==> Multiple(width, k - 1) < span
  {
    if times == [] {
      k := 0;
    } else {
      k := Fill(limit, width, times, a, a + span);
    }
  }

  /** The rounded-up quotient covers the interval. */
  lemma CeilMeaning(span: nat, width: nat)
    requires width >= 1 && span >= 1
    ensures Ceil(span, width) >= 1 && width * Ceil(span, width) >= span
  {
    DivMonotone(width, span + width - 1, width);
    DivUnique(width, width, 1, 0);
    assert span + width - 1 == width * Ceil(span, width) + (span + width - 1) % width;
  }

  /** Windows that open within `span` of each other are at most the rounded-up quotient many. */
  lemma FewWindows(limit: nat, width: nat, span: nat, k: nat, n: nat)
    requires width >= 1 && span >= 1
    requires (k >= 1 ==> Multiple(width, k - 1) < span) && n <= limit - 1 + Multiple(limit, k)
    ensures n <= limit * (Ceil(span, width) + 1) - 1
  {
    var c := Ceil(span, width);
    CeilMeaning(span, width);
    if k > c {
      MultipleMeaning(width, k - 1);
      MulGap(width, c, k - 1);
    }
    MultipleMeaning(limit, k);
    MulNonnegative(limit, c - k);
    assert limit * (c + 1) == limit * k + limit * (c - k) + limit;
  }

  /**
   Any half-open interval [a, a + span) accepts at most limit * (ceil(span / width) + 1) - 1 calls,
   wherever it lies relative to the windows. Calls made after the interval do not matter.
   */
  lemma {:induction false} RateBound(limit: nat, width: nat, times: seq<int>, a: int, span: nat)
    requires limit >= 1 && width >= 1 && span >= 1 && Nondecreasing(times)
    ensures CountIn(Accepted(limit, width, times), a, a + span) <= limit * (Ceil(span, width) + 1) - 1
  {
    if times == [] || times[|times| - 1] < a + span {
      var k := WindowsFilled(limit, width, times, a, span);
      FewWindows(limit, width, span, k, CountIn(Accepted(limit, width, times), a, a + span));
    } else {
      var p, t := times[..|times| - 1], times[|times| - 1];
      assert times == p + [t];
      RateBound(limit, width, p, a, span);
      CountSnoc(limit, width, p, t, a, a + span);
    }
  }

  /** The sharp bound for an interval as long as one window; windows of one tick never straddle its ends. */
  function WidthBound(limit: nat, width: nat): (n: int) {
    if width == 1 then limit else 2 * limit - 1
  }

  /** In particular an interval as long as one window accepts at most 2 * limit - 1 calls. */
  lemma OneWidthBound(limit: nat, width: nat, times: seq<int>, a: int)
    requires limit >= 1 && width >= 1 && Nondecreasing(times)
    ensures CountIn(Accepted(limit, width, times), a, a + width) <= WidthBound(limit, width) <= 2 * limit - 1
  {
    if width == 1 && times != [] {
      OneTick(limit, times, a);
    } else if width > 1 {
      CeilOfOne(width);
      RateBound(limit, width, times, a, width);
    }
  }

  lemma CeilOfOne(width: nat)
    requires width >= 1
    ensures Ceil(width, width) == 1
  {
    DivUnique(2 * width - 1, width, 1, width - 1);
  }

  /** With windows of one tick, the calls accepted at a tick are those of the window that opened at it. */
  ghost predicate Ticking(limit: nat, w: Window, n: nat, last: int, a: int) {
    && w.Window? && w.start == last && 1 <= w.count <= limit
    && n <= limit && (last < a ==> n == 0) && (last == a ==> n == w.count)
  }

  lemma TickStep(limit: nat, w: Window, n: nat, last: int, t: int, a: int)
    requires limit >= 1 && last <= t && Ticking(limit, w, n, last, a)
    ensures Ticking(limit, Observe(limit, 1, w, t), n + if Accepts(limit, 1, w, t) && a <= t < a + 1 then 1 else 0, t, a)
  {
  }

  lemma {:induction false} OneTick(limit: nat, times: seq<int>, a: int)
    requires limit >= 1 && times != [] && Nondecreasing(times)
    ensures Ticking(limit, After(limit, 1, times), CountIn(Accepted(limit, 1, times), a, a + 1), times[|times| - 1], a)
  {
    var p, t := times[..|times| - 1], times[|times| - 1];
    assert times == p + [t];
    Snoc(limit, 1, p, t);
    CountSnoc(limit, 1, p, t, a, a + 1);
    if p == [] {
    } else {
      OneTick(limit, p, a);
      TickStep(limit, After(limit, 1, p), CountIn(Accepted(limit, 1, p), a, a + 1), p[|p| - 1], t, a);
    }
  }

  // ----- The bound is attained ---------------------------------------------

  /** The current window has `count` accepted calls, `n` of all calls were accepted in [a, b), none is later than `t`. */
  ghost predicate At(limit: nat, width: nat, times: seq<int>, t: int, start: int, count: nat, a: int, b: int, n: nat) {
    && times != [] && Nondecreasing(times) && times[|times| - 1] <= t
    && After(limit, width, times) == Window(start, count)
    && CountIn(Accepted(limit, width, times), a, b) == n
  }

  /** One more call in the current window. */
  lemma OneMore(limit: nat, width: nat, times: seq<int>, t: int, start: int, count: nat, a: int, b: int, n: nat)
    requires At(limit, width, times, t, start, count, a, b, n)
    requires a <= t < b && start <= t < start + width && count < limit
    ensures At(limit, width, times + [t], t, start, count + 1, a, b, n + 1)
  {
    Snoc(limit, width, times, t);
    CountSnoc(limit, width, times, t, a, b);
  }

  /** `m` more calls at `t` that still fit in the current window are accepted in full. */
  lemma {:induction false} Burst(limit: nat, width: nat, times: seq<int>, t: int, start: int, count: nat,
                                 a: int, b: int, n: nat, m: nat)
    returns (more: seq<int>)
    requires a <= t < b && start <= t < start + width && count + m <= limit
    requires At(limit, width, times, t, start, count, a, b, n)
    ensures At(limit, width, more, t, start, count + m, a, b, n + m)
    decreases m
  {
    if m == 0 {
      more := times;
    } else {
      var fewer := Burst(limit, width, times, t, start, count, a, b, n, m - 1);
      OneMore(limit, width, fewer, t, start, count + m - 1, a, b, n + m - 1);
      more := fewer + [t];
    }
  }

  /** A call made `width` after the current window opened opens the next one. */
  lemma OpensNext(limit: nat, width: nat, times: seq<int>, t: int, start: int, count: nat, a: int, b: int, n: nat)
    requires At(limit, width, times, t, start, count, a, b, n) && start + width <= t && a <= t < b
    ensures At(limit, width, times + [t], t, t, 1, a, b, n + 1)
  {
    Snoc(limit, width, times, t);
    CountSnoc(limit, width, times, t, a, b);
  }

  lemma FirstCall(limit: nat, width: nat, a: int, b: int)
    requires width >= 1
    ensures At(limit, width, [0], 0, 0, 1, a, b, if a <= 0 < b then 1 else 0)
  {
    Snoc(limit, width, [], 0);
    CountSnoc(limit, width, [], 0, a, b);
    assert [] + [0] == [0];
  }

  /** The bound is reached: by a burst at the end of one window and at the start of the next. */
  lemma BoundIsAttained(limit: nat, width: nat) returns (times: seq<int>, a: int)
    requires limit >= 1 && width >= 1
    ensures Nondecreasing(times)
    ensures CountIn(Accepted(limit, width, times), a, a + width) == WidthBound(limit, width)
  {
    if width == 1 {
      a := 0;
      FirstCall(limit, width, 0, 1);
      times := Burst(limit, width, [0], 0, 0, 1, 0, 1, 1, limit - 1);
    } else {
      a := 1;
      var b := 1 + width;
      FirstCall(limit, width, 1, b);
      var full := Burst(limit, width, [0], width - 1, 0, 1, 1, b, 0, limit - 1);
      OpensNext(limit, width, full, width, 0, limit, 1, b, limit - 1);
      times := Burst(limit, width, full + [width], width, width, 1, 1, b, limit, limit - 1);
    }
  }
}
