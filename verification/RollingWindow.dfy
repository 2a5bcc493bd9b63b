/** Modular arithmetic used to index circular buffers. */
module Modular {

  lemma ModIs(x: int, n: int, q: int, r: int)
    requires n > 0 && 0 <= r < n && x == q * n + r
    ensures x % n == r
  {
    var d := q - x / n;
    assert x == (x / n) * n + x % n;
    assert d * n == x % n - r;
    if d >= 1 { MulAtLeast(d, n); } else if d <= -1 { MulAtLeast(-d, n); }
  }

  lemma MulAtLeast(d: int, n: int)
    requires d >= 1 && n > 0
    ensures d * n >= n
  {
  }

  lemma ModSmall(x: int, n: int)
    requires 0 <= x < n
    ensures x % n == x
  {
    ModIs(x, n, 0, x);
  }

  lemma ModAddMultiple(x: int, n: int, k: int)
    requires n > 0
    ensures (x + k * n) % n == x % n
  {
    var q := x / n;
    assert x + k * n == (q + k) * n + x % n;
    ModIs(x + k * n, n, q + k, x % n);
  }

  /** Offsets between slots only depend on the unreduced positions. */
  lemma ModDifference(a: int, b: int, n: int)
    requires n > 0
    ensures (a % n - b % n - 1) % n == (a - b - 1) % n
  {
    var k := b / n - a / n;
    assert a == (a / n) * n + a % n;
    assert b == (b / n) * n + b % n;
    assert a % n - b % n - 1 == (a - b - 1) + k * n;
    ModAddMultiple(a - b - 1, n, k);
  }

  /** Slot `i` is `k` places after slot `a` exactly when it is slot `(a + k) % n`. */
  lemma ModOffset(i: int, a: int, k: int, n: int)
    requires 0 <= i < n && 0 <= k < n
    ensures (i - a) % n == k <==> i == (a + k) % n
  {
    if (i - a) % n == k {
      var q := (i - a) / n;
      assert i - a == q * n + k;
      assert a + k == -q * n + i;
      ModIs(a + k, n, -q, i);
    }
    if i == (a + k) % n {
      var q := (a + k) / n;
      assert a + k == q * n + i;
      assert i - a == -q * n + k;
      ModIs(i - a, n, -q, k);
    }
  }
}

/** Rolling-window counters: a circular buffer of buckets with a cached sum, against the
    log of everything that was recorded. */
module RollingWindows {
  import opened Modular

  datatype Window = Window(buckets: seq<nat>, bucketSecs: nat, last: nat, cached: nat)

  predicate WellFormed(w: Window) { |w.buckets| > 0 && w.bucketSecs > 0 }

  function Sum(s: seq<nat>): nat {
    if s == [] then 0 else Sum(s[..|s| - 1]) + s[|s| - 1]
  }

  function CeilDiv(a: nat, b: nat): (q: nat)
    requires b > 0
    ensures a <= q * b < a + b
  {
    var q := a / b;
    assert a == q * b + a % b;
    if a % b == 0 then q else (assert (q + 1) * b == q * b + b; q + 1)
  }

  function New(windowSecs: nat, numBuckets: nat, now: nat): (w: Window)
    requires windowSecs > 0 && numBuckets > 0
    ensures WellFormed(w)
    ensures w.bucketSecs == 1 <==> windowSecs <= numBuckets
  {
    var b := CeilDiv(windowSecs, numBuckets);
    assert b == 1 ==> b * numBuckets == numBuckets;
    assert b > 1 ==> b * numBuckets >= 2 * numBuckets;
    Window(seq(numBuckets, _ => 0), b, now, 0)
  }

  /** The slot that holds time `t`. */
  function Index(w: Window, t: nat): (i: nat)
    requires WellFormed(w)
    ensures i < |w.buckets|
  {
    (t / w.bucketSecs) % |w.buckets|
  }

  /** The buckets with the `k` slots that follow slot `from` set to zero. */
  function Zeroed(buckets: seq<nat>, from: int, k: nat): (r: seq<nat>)
    requires |buckets| > 0
    ensures |r| == |buckets|
  {
    seq(|buckets|, i requires 0 <= i < |buckets| =>
      if (i - from - 1) % |buckets| < k then 0 else buckets[i])
  }

  function Elapsed(w: Window, now: nat): nat { if now >= w.last then now - w.last else 0 }

  function Min(a: nat, b: nat): nat { if a <= b then a else b }

  /** Expire every bucket interval that has passed since the last advance. */
  function Advance(w: Window, now: nat): (r: Window)
    requires WellFormed(w)
    ensures WellFormed(r) && |r.buckets| == |w.buckets| && r.bucketSecs == w.bucketSecs
  {
    if Elapsed(w, now) < w.bucketSecs then w
    else
      var b := Zeroed(w.buckets, Index(w, w.last), Min(Elapsed(w, now) / w.bucketSecs, |w.buckets|));
      Window(b, w.bucketSecs, now, Sum(b))
  }

  function Record(w: Window, now: nat, count: nat): (r: Window)
    requires WellFormed(w)
    ensures WellFormed(r) && |r.buckets| == |w.buckets| && r.bucketSecs == w.bucketSecs
  {
    var a := Advance(w, now);
    var i := Index(a, now);
    a.(buckets := a.buckets[i := a.buckets[i] + count], cached := a.cached + count)
  }

  // ---------------------------------------------------------------------------
  // The log

  datatype Event = Event(time: nat, count: nat)

  /** Everything recorded at times in (lo, hi]. */
  function Total(log: seq<Event>, lo: int, hi: int): nat {
    if log == [] then 0
    else
      var e := log[|log| - 1];
      Total(log[..|log| - 1], lo, hi) + (if lo < e.time <= hi then e.count else 0)
  }

  /** Everything recorded in the `secs` seconds up to `at`. */
  function Trailing(log: seq<Event>, secs: nat, at: int): nat { Total(log, at - secs, at) }

  lemma TotalSplit(log: seq<Event>, lo: int, mid: int, hi: int)
    requires lo <= mid <= hi
    ensures Total(log, lo, hi) == Total(log, lo, mid) + Total(log, mid, hi)
  {
  }

  lemma TotalNone(log: seq<Event>, lo: int, hi: int)
    requires forall e :: e in log ==> !(lo < e.time <= hi)
    ensures Total(log, lo, hi) == 0
  {
  }

  lemma TotalAppend(log: seq<Event>, e: Event, lo: int, hi: int)
    ensures Total(log + [e], lo, hi) == Total(log, lo, hi) + (if lo < e.time <= hi then e.count else 0)
  {
    assert (log + [e])[..|log|] == log;
  }

  lemma TotalMonotone(log: seq<Event>, lo: int, hi: int, lo': int, hi': int)
    requires lo' <= lo && hi <= hi'
    ensures Total(log, lo, hi) <= Total(log, lo', hi')
  {
  }

  // ---------------------------------------------------------------------------
  // Circular sums

  ghost function RingSum(b: seq<nat>, lo: int, k: nat): nat
    requires |b| > 0
  {
    if k == 0 then 0 else RingSum(b, lo, k - 1) + b[(lo + k - 1) % |b|]
  }

  lemma {:induction false} RingSumFromZero(b: seq<nat>, k: nat)
    requires |b| > 0 && k <= |b|
    ensures RingSum(b, 0, k) == Sum(b[..k])
  {
    if k > 0 {
      RingSumFromZero(b, k - 1);
      ModSmall(k - 1, |b|);
      assert b[..k][..k - 1] == b[..k - 1];
    }
  }

  lemma {:induction false} RingSumPeel(b: seq<nat>, lo: int, k: nat)
    requires |b| > 0
    ensures RingSum(b, lo, k + 1) == b[lo % |b|] + RingSum(b, lo + 1, k)
  {
    if k > 0 { RingSumPeel(b, lo, k - 1); }
  }

  lemma RingSumShift(b: seq<nat>, lo: int)
    requires |b| > 0
    ensures RingSum(b, lo, |b|) == RingSum(b, lo + 1, |b|)
  {
    RingSumPeel(b, lo, |b|);
    ModAddMultiple(lo, |b|, 1);
  }

  /** A full turn adds up to the same from every starting slot. */
  lemma {:induction false} RingSumFull(b: seq<nat>, lo: int)
    requires |b| > 0
    ensures RingSum(b, lo, |b|) == Sum(b)
    decreases if lo < 0 then -lo else lo
  {
    if lo == 0 {
      RingSumFromZero(b, |b|);
      assert b[..|b|] == b;
    } else if lo > 0 {
      RingSumFull(b, lo - 1);
      RingSumShift(b, lo - 1);
    } else {
      RingSumFull(b, lo + 1);
      RingSumShift(b, lo);
    }
  }

  // ---------------------------------------------------------------------------
  // One-second buckets represent the log exactly

  /** The bucket that holds second `t`. */
  function Slot(buckets: seq<nat>, t: int): nat
    requires |buckets| > 0
  {
    buckets[t % |buckets|]
  }

  function AtTime(log: seq<Event>, t: int): nat { Total(log, t - 1, t) }

  ghost predicate Represents(w: Window, log: seq<Event>) {
    && WellFormed(w) && w.bucketSecs == 1
    && (forall e :: e in log ==> e.time <= w.last)
    && (forall t: int :: w.last - |w.buckets| < t <= w.last ==>
          Slot(w.buckets, t) == AtTime(log, t))
    && w.cached == Sum(w.buckets)
  }

  lemma {:induction false} RingSumIsTotal(w: Window, log: seq<Event>, k: nat)
    requires Represents(w, log) && k <= |w.buckets|
    ensures var lo := w.last - |w.buckets|; RingSum(w.buckets, lo + 1, k) == Total(log, lo, lo + k)
  {
    var lo := w.last - |w.buckets|;
    if k == 0 {
      TotalNone(log, lo, lo);
    } else {
      RingSumIsTotal(w, log, k - 1);
      TotalSplit(log, lo, lo + k - 1, lo + k);
      assert Slot(w.buckets, lo + k) == AtTime(log, lo + k);
    }
  }

  lemma CachedIsTotal(w: Window, log: seq<Event>)
    requires Represents(w, log)
    ensures w.cached == Total(log, w.last - |w.buckets|, w.last)
  {
    RingSumIsTotal(w, log, |w.buckets|);
    RingSumFull(w.buckets, w.last - |w.buckets| + 1);
  }

  /** What advancing by `now - last` seconds does to the slot of time `t`. */
  lemma SlotAfterAdvance(w: Window, now: nat, t: int)
    requires WellFormed(w) && w.bucketSecs == 1 && w.last < now
    requires now - |w.buckets| < t <= now
    ensures Slot(Advance(w, now).buckets, t) == if t <= w.last then Slot(w.buckets, t) else 0
  {
    var n := |w.buckets|;
    ModDifference(t, w.last, n);
    var d := t - w.last - 1;
    if t <= w.last {
      ModIs(d, n, -1, d + n);
    } else if d < n {
      ModSmall(d, n);
    }
  }

  lemma AdvanceRepresents(w: Window, log: seq<Event>, now: nat)
    requires Represents(w, log) && w.last <= now
    ensures Represents(Advance(w, now), log) && Advance(w, now).last == now
  {
    if w.last < now {
      var n, a := |w.buckets|, Advance(w, now);
      forall t: int | now - n < t <= now
        ensures Slot(a.buckets, t) == AtTime(log, t)
      {
        SlotAfterAdvance(w, now, t);
        if t > w.last { TotalNone(log, t - 1, t); }
      }
    }
  }

  lemma SumUpdate(s: seq<nat>, i: nat, v: nat)
    requires i < |s|
    ensures Sum(s[i := v]) + s[i] == Sum(s) + v
  {
    var n := |s| - 1;
    if i == n {
      assert s[i := v][..n] == s[..n];
    } else {
      SumUpdate(s[..n], i, v);
      assert s[i := v][..n] == s[..n][i := v];
    }
  }

  lemma SlotsDistinct(t: int, u: int, n: int)
    requires n > 0 && u - n < t <= u && t % n == u % n
    ensures t == u
  {
    if t < u {
      ModDifference(u, t, n);
      ModSmall(u - t - 1, n);
      ModIs(-1, n, -1, n - 1);
    }
  }

  lemma RecordRepresents(w: Window, log: seq<Event>, now: nat, count: nat)
    requires Represents(w, log) && w.last <= now
    ensures Represents(Record(w, now, count), log + [Event(now, count)])
    ensures Record(w, now, count).last == now
  {
    AdvanceRepresents(w, log, now);
    var a, r, e := Advance(w, now), Record(w, now, count), Event(now, count);
    var n := |a.buckets|;
    SumUpdate(a.buckets, now % n, a.buckets[now % n] + count);
    forall t: int | now - n < t <= now
      ensures Slot(r.buckets, t) == AtTime(log + [e], t)
    {
      assert Slot(a.buckets, t) == AtTime(log, t);
      TotalAppend(log, e, t - 1, t);
      if t % n == now % n { SlotsDistinct(t, now, n); }
    }
  }

  // ---------------------------------------------------------------------------
  // Whole runs

  datatype Call = RecordCall(now: nat, count: nat) | SumCall(now: nat)

  function After(w: Window, calls: seq<Call>): (r: Window)
    requires WellFormed(w)
    ensures WellFormed(r) && |r.buckets| == |w.buckets| && r.bucketSecs == w.bucketSecs
  {
    if calls == [] then w
    else
      var prev := After(w, calls[..|calls| - 1]);
      match calls[|calls| - 1]
      case RecordCall(now, count) => Record(prev, now, count)
      case SumCall(now) => Advance(prev, now)
  }

  /** What `sum` answers at `now` after the calls. */
  function SumAfter(w: Window, calls: seq<Call>, now: nat): nat
    requires WellFormed(w)
  {
    Advance(After(w, calls), now).cached
  }

  function LogOf(calls: seq<Call>): seq<Event> {
    if calls == [] then []
    else
      LogOf(calls[..|calls| - 1]) +
      match calls[|calls| - 1]
      case RecordCall(now, count) => [Event(now, count)]
      case SumCall(_) => []
  }

  /** The clock readings never go back, from the creation time to `end`. */
  predicate Clocked(start: nat, calls: seq<Call>, end: nat) {
    if calls == [] then start <= end
    else Clocked(start, calls[..|calls| - 1], calls[|calls| - 1].now) && calls[|calls| - 1].now <= end
  }

  lemma {:induction false} RunRepresents(windowSecs: nat, n: nat, start: nat, calls: seq<Call>, end: nat)
    requires 0 < windowSecs <= n && Clocked(start, calls, end)
    ensures Represents(After(New(windowSecs, n, start), calls), LogOf(calls))
    ensures After(New(windowSecs, n, start), calls).last <= end
    decreases |calls|
  {
    var w := New(windowSecs, n, start);
    if calls == [] {
      SumZeros(w.buckets);
    } else {
      var c, rest := calls[|calls| - 1], calls[..|calls| - 1];
      RunRepresents(windowSecs, n, start, rest, c.now);
      match c {
        case RecordCall(now, count) => RecordRepresents(After(w, rest), LogOf(rest), now, count);
        case SumCall(now) =>
          AdvanceRepresents(After(w, rest), LogOf(rest), now);
          assert LogOf(calls) == LogOf(rest);
      }
    }
  }

  lemma SumZeros(s: seq<nat>)
    requires forall i :: 0 <= i < |s| ==> s[i] == 0
    ensures Sum(s) == 0
  {
  }

  /** With one-second buckets `sum` is exactly what was recorded in the last `n` seconds. */
  lemma SumIsSlidingTotal(windowSecs: nat, n: nat, start: nat, calls: seq<Call>, now: nat)
    requires 0 < windowSecs <= n && Clocked(start, calls, now)
    ensures SumAfter(New(windowSecs, n, start), calls, now) == Total(LogOf(calls), now - n, now)
  {
    RunRepresents(windowSecs, n, start, calls, now);
    var w := After(New(windowSecs, n, start), calls);
    AdvanceRepresents(w, LogOf(calls), now);
    CachedIsTotal(Advance(w, now), LogOf(calls));
  }

  /** The promise of the type: `sum` is the total over the window the buckets span. */
  ghost predicate ExactInEveryRun(windowSecs: nat, n: nat)
    requires windowSecs > 0 && n > 0
  {
    forall start: nat, calls: seq<Call>, now: nat :: Clocked(start, calls, now) ==>
      SumAfter(New(windowSecs, n, start), calls, now)
      == Total(LogOf(calls), now - n * CeilDiv(windowSecs, n), now)
  }

  lemma SingleCall(w: Window, now: nat, count: nat)
    requires WellFormed(w)
    ensures var calls := [RecordCall(now, count)];
      && After(w, calls) == Record(w, now, count)
      && LogOf(calls) == [Event(now, count)]
      && (forall start: nat, end: nat :: start <= now <= end ==> Clocked(start, calls, end))
      && (forall lo: int, hi: int :: lo < now <= hi ==> Total(LogOf(calls), lo, hi) == count)
  {
    var calls := [RecordCall(now, count)];
    assert calls[..0] == [] && [Event(now, count)][..0] == [];
    assert After(w, calls[..0]) == w;
    assert LogOf(calls[..0]) == [];
  }

  /** One unit recorded just after the first bucket boundary is wiped one bucket later. */
  lemma WideBucketWiped(n: nat, b: nat)
    requires n > 0 && b >= 2
    ensures var w := Window(seq(n, _ => 0), b, b - 1, 0);
      Advance(Record(w, b, 1), 2 * b - 1).cached == 0
  {
    var w := Window(seq(n, _ => 0), b, b - 1, 0);
    assert b / b == 1 && (b - 1) / b == 0;
    var r := Record(w, b, 1);
    assert r == w.(buckets := w.buckets[1 % n := 1], cached := 1);
    ModSmall(0, n);
    if n == 1 { ModIs(1, 1, 1, 0); } else { ModSmall(1, n); }
    var z := Advance(r, 2 * b - 1);
    assert z.buckets == Zeroed(r.buckets, 0, 1);
    forall j | 0 <= j < n ensures z.buckets[j] == 0 {
      ModOffset(j, 1, 0, n);
    }
    SumZeros(z.buckets);
  }

  /** A counter-example for every larger bucket: created at b-1, one unit recorded at b,
      asked at 2b-1.  The unit is b-1 seconds old and already gone. */
  lemma WideBucketsLoseCounts(windowSecs: nat, n: nat)
    requires 0 < n < windowSecs
    ensures var b := CeilDiv(windowSecs, n);
      && b >= 2
      && Clocked(b - 1, [RecordCall(b, 1)], 2 * b - 1)
      && SumAfter(New(windowSecs, n, b - 1), [RecordCall(b, 1)], 2 * b - 1) == 0
      && Total(LogOf([RecordCall(b, 1)]), 2 * b - 1 - n * b, 2 * b - 1) == 1
  {
    var b := New(windowSecs, n, 0).bucketSecs;
    SingleCall(New(windowSecs, n, b - 1), b, 1);
    WideBucketWiped(n, b);
    MulAtLeast(n, b);
  }

  /** The window is exact in every run if and only if its buckets are one second wide. */
  lemma ExactIffOneSecondBuckets(windowSecs: nat, n: nat)
    requires windowSecs > 0 && n > 0
    ensures ExactInEveryRun(windowSecs, n) <==> windowSecs <= n
  {
    if windowSecs <= n {
      assert CeilDiv(windowSecs, n) == New(windowSecs, n, 0).bucketSecs == 1;
      forall start: nat, calls: seq<Call>, now: nat | Clocked(start, calls, now)
        ensures SumAfter(New(windowSecs, n, start), calls, now)
             == Total(LogOf(calls), now - n * CeilDiv(windowSecs, n), now)
      {
        SumIsSlidingTotal(windowSecs, n, start, calls, now);
      }
    } else {
      WideBucketsLoseCounts(windowSecs, n);
    }
  }

  function Recorded(log: seq<Event>): nat {
    if log == [] then 0 else Recorded(log[..|log| - 1]) + log[|log| - 1].count
  }

  lemma SumPointwise(a: seq<nat>, b: seq<nat>)
    requires |a| == |b| && forall i :: 0 <= i < |a| ==> a[i] <= b[i]
    ensures Sum(a) <= Sum(b)
  {
  }

  lemma AdvanceConserves(w: Window, now: nat)
    requires WellFormed(w) && w.cached == Sum(w.buckets)
    ensures var a := Advance(w, now); a.cached == Sum(a.buckets) <= Sum(w.buckets)
  {
    SumPointwise(Advance(w, now).buckets, w.buckets);
  }

  lemma RecordConserves(w: Window, now: nat, count: nat)
    requires WellFormed(w) && w.cached == Sum(w.buckets)
    ensures var r := Record(w, now, count); r.cached == Sum(r.buckets) <= Sum(w.buckets) + count
  {
    AdvanceConserves(w, now);
    var a := Advance(w, now);
    var i := Index(a, now);
    SumUpdate(a.buckets, i, a.buckets[i] + count);
  }

  /** For every bucket size and every clock, even one that jumps back: the cached sum is the
      sum of the buckets and never exceeds what was recorded. */
  lemma {:induction false} CachedSumConserved(windowSecs: nat, n: nat, start: nat, calls: seq<Call>)
    requires windowSecs > 0 && n > 0
    ensures var w := After(New(windowSecs, n, start), calls);
      w.cached == Sum(w.buckets) <= Recorded(LogOf(calls))
    decreases |calls|
  {
    var w := New(windowSecs, n, start);
    if calls == [] {
      SumZeros(w.buckets);
    } else {
      var c, rest := calls[|calls| - 1], calls[..|calls| - 1];
      CachedSumConserved(windowSecs, n, start, rest);
      match c {
        case RecordCall(now, count) =>
          RecordConserves(After(w, rest), now, count);
          assert LogOf(calls)[..|LogOf(rest)|] == LogOf(rest);
        case SumCall(now) =>
          AdvanceConserves(After(w, rest), now);
          assert LogOf(calls) == LogOf(rest);
      }
    }
  }

  // ---------------------------------------------------------------------------
  // Buckets of any width, on a clock that ticks in buckets

  /** The window with a bucket as its unit of time. */
  function Coarse(w: Window): Window
    requires WellFormed(w)
  {
    w.(bucketSecs := 1, last := w.last / w.bucketSecs)
  }

  function CoarseLog(log: seq<Event>, b: nat): seq<Event>
    requires b > 0
  {
    seq(|log|, i requires 0 <= i < |log| => Event(log[i].time / b, log[i].count))
  }

  predicate OnGrid(log: seq<Event>, b: nat)
    requires b > 0
  {
    forall e :: e in log ==> e.time % b == 0
  }

  /** Every reading of the clock so far was a multiple of the bucket width, and the buckets hold what
      was recorded in them. */
  ghost predicate RepresentsWide(w: Window, log: seq<Event>) {
    && WellFormed(w) && w.last % w.bucketSecs == 0
    && OnGrid(log, w.bucketSecs)
    && Represents(Coarse(w), CoarseLog(log, w.bucketSecs))
  }

  lemma Multiple(t: nat, b: nat)
    requires b > 0 && t % b == 0
    ensures t == (t / b) * b
  {
  }

  lemma DivExact(k: int, b: nat)
    requires b > 0
    ensures (k * b) / b == k && (k * b) % b == 0
  {
    ModIs(k * b, b, k, 0);
    var q := (k * b) / b;
    assert (k - q) * b == 0;
    if k > q { MulAtLeast(k - q, b); } else if k < q { MulAtLeast(q - k, b); }
  }

  lemma ScaledOrder(x: int, y: int, b: nat)
    requires b > 0
    ensures x * b < y * b <==> x < y
  {
    if x < y { MulAtLeast(y - x, b); } else if y < x { MulAtLeast(x - y, b); }
  }

  lemma {:induction false} CoarseTotal(log: seq<Event>, b: nat, lo: int, hi: int)
    requires b > 0 && OnGrid(log, b)
    ensures Total(log, lo * b, hi * b) == Total(CoarseLog(log, b), lo, hi)
  {
    if log != [] {
      var n := |log| - 1;
      var e := log[n];
      assert forall x :: x in log[..n] ==> x in log;
      CoarseTotal(log[..n], b, lo, hi);
      assert CoarseLog(log, b)[..n] == CoarseLog(log[..n], b);
      assert e in log;
      Multiple(e.time, b);
      ScaledOrder(lo, e.time / b, b);
      ScaledOrder(hi, e.time / b, b);
    }
  }

  /** On such a clock the window moves like one with a bucket as its second. */
  lemma AdvanceCoarse(w: Window, now: nat)
    requires WellFormed(w) && w.last % w.bucketSecs == 0 && now % w.bucketSecs == 0
    ensures Coarse(Advance(w, now)) == Advance(Coarse(w), now / w.bucketSecs)
    ensures Advance(w, now).last % w.bucketSecs == 0
  {
    hide Zeroed, Sum;
    var b := w.bucketSecs;
    var l, t := w.last / b, now / b;
    Multiple(w.last, b);
    Multiple(now, b);
    ScaledOrder(t, l, b);
    if t > l {
      var d := t - l;
      assert now - w.last == d * b by { assert t * b - l * b == (t - l) * b; }
      MulAtLeast(d, b);
      DivExact(d, b);
    } else {
      assert Elapsed(w, now) == 0 by { ScaledOrder(l, t, b); }
    }
  }

  lemma AdvanceWide(w: Window, log: seq<Event>, now: nat)
    requires RepresentsWide(w, log) && w.last <= now && now % w.bucketSecs == 0
    ensures RepresentsWide(Advance(w, now), log) && Advance(w, now).last == now
  {
    hide Represents, Advance, OnGrid;
    var b := w.bucketSecs;
    AdvanceCoarse(w, now);
    Multiple(w.last, b);
    Multiple(now, b);
    ScaledOrder(now / b, w.last / b, b);
    AdvanceRepresents(Coarse(w), CoarseLog(log, b), now / b);
    Multiple(Advance(w, now).last, b);
  }

  lemma RecordWide(w: Window, log: seq<Event>, now: nat, count: nat)
    requires RepresentsWide(w, log) && w.last <= now && now % w.bucketSecs == 0
    ensures RepresentsWide(Record(w, now, count), log + [Event(now, count)]) && Record(w, now, count).last == now
  {
    hide Represents, Advance;
    var b, e := w.bucketSecs, Event(now, count);
    AdvanceCoarse(w, now);
    AdvanceWide(w, log, now);
    Multiple(w.last, b);
    Multiple(now, b);
    ScaledOrder(now / b, w.last / b, b);
    RecordRepresents(Coarse(w), CoarseLog(log, b), now / b, count);
    assert CoarseLog(log + [e], b) == CoarseLog(log, b) + [Event(now / b, count)];
    assert Coarse(Record(w, now, count)) == Record(Coarse(w), now / b, count);
  }

  lemma CachedWide(w: Window, log: seq<Event>)
    requires RepresentsWide(w, log)
    ensures w.cached == Total(log, w.last - |w.buckets| * w.bucketSecs, w.last)
  {
    hide Represents, OnGrid, Total, CoarseLog;
    var b, n, l := w.bucketSecs, |w.buckets|, w.last / w.bucketSecs;
    CachedIsTotal(Coarse(w), CoarseLog(log, b));
    CoarseTotal(log, b, l - n, l);
    Multiple(w.last, b);
    Distribute(l, n, b);
  }

  lemma Distribute(l: int, n: int, b: int)
    ensures (l - n) * b == l * b - n * b
  {
  }

  predicate AllOnGrid(calls: seq<Call>, b: nat)
    requires b > 0
  {
    forall c :: c in calls ==> c.now % b == 0
  }

  lemma NewWide(windowSecs: nat, n: nat, start: nat)
    requires windowSecs > 0 && n > 0 && start % CeilDiv(windowSecs, n) == 0
    ensures RepresentsWide(New(windowSecs, n, start), [])
  {
    SumZeros(New(windowSecs, n, start).buckets);
  }

  lemma {:induction false} RunWide(windowSecs: nat, n: nat, start: nat, calls: seq<Call>, end: nat)
    requires windowSecs > 0 && n > 0 && Clocked(start, calls, end)
    requires start % CeilDiv(windowSecs, n) == 0 && AllOnGrid(calls, CeilDiv(windowSecs, n))
    ensures RepresentsWide(After(New(windowSecs, n, start), calls), LogOf(calls))
    ensures After(New(windowSecs, n, start), calls).last <= end
    decreases |calls|
  {
    hide RepresentsWide, Advance, Record;
    var w := New(windowSecs, n, start);
    if calls == [] {
      NewWide(windowSecs, n, start);
    } else {
      var c, rest := calls[|calls| - 1], calls[..|calls| - 1];
      assert c in calls && forall x :: x in rest ==> x in calls;
      RunWide(windowSecs, n, start, rest, c.now);
      match c {
        case RecordCall(now, count) => RecordWide(After(w, rest), LogOf(rest), now, count);
        case SumCall(now) =>
          AdvanceWide(After(w, rest), LogOf(rest), now);
          assert LogOf(calls) == LogOf(rest);
      }
    }
  }

  /** For every bucket width: on a clock that ticks in buckets, `sum` is exactly what was recorded in
      the time the buckets span. */
  lemma SumOnGridIsSlidingTotal(windowSecs: nat, n: nat, start: nat, calls: seq<Call>, now: nat)
    requires windowSecs > 0 && n > 0 && Clocked(start, calls, now)
    requires var b := CeilDiv(windowSecs, n); start % b == 0 && now % b == 0 && AllOnGrid(calls, b)
    ensures SumAfter(New(windowSecs, n, start), calls, now)
         == Total(LogOf(calls), now - n * CeilDiv(windowSecs, n), now)
  {
    hide RepresentsWide, Advance;
    RunWide(windowSecs, n, start, calls, now);
    var w := After(New(windowSecs, n, start), calls);
    AdvanceWide(w, LogOf(calls), now);
    CachedWide(Advance(w, now), LogOf(calls));
  }

  // ---------------------------------------------------------------------------
  // What is left in the buckets, for every width and every clock

  /** When buckets were last expired. */
  function LastAdvance(b: nat, start: nat, calls: seq<Call>): nat {
    if calls == [] then start
    else
      var prev, now := LastAdvance(b, start, calls[..|calls| - 1]), calls[|calls| - 1].now;
      if now >= prev + b then now else prev
  }

  /** Expiring from `from` to `to` clears one bucket for each whole bucket width passed, the ones that
      follow the bucket of `from` round the ring; among them is the bucket of time `t`. */
  predicate Clears(n: nat, b: nat, from: nat, to: nat, t: nat)
    requires n > 0 && b > 0
  {
    to >= from + b && (t / b - from / b - 1) % n < (to - from) / b
  }

  /** No later call has cleared what call `k` recorded. */
  predicate Kept(n: nat, b: nat, start: nat, calls: seq<Call>, k: nat)
    requires n > 0 && b > 0 && k < |calls|
    decreases |calls|
  {
    var m := |calls| - 1;
    k == m || (Kept(n, b, start, calls[..m], k) && !Clears(n, b, LastAdvance(b, start, calls[..m]), calls[m].now, calls[k].now))
  }

  /** What the first `k` calls recorded and is still kept. */
  function KeptTotal(n: nat, b: nat, start: nat, calls: seq<Call>, k: nat): nat
    requires n > 0 && b > 0 && k <= |calls|
  {
    if k == 0 then 0
    else
      KeptTotal(n, b, start, calls, k - 1) +
      if calls[k - 1].RecordCall? && Kept(n, b, start, calls, k - 1) then calls[k - 1].count else 0
  }

  /** The same, in slot `i` alone. */
  function KeptIn(n: nat, b: nat, start: nat, calls: seq<Call>, k: nat, i: nat): nat
    requires n > 0 && b > 0 && k <= |calls|
  {
    if k == 0 then 0
    else
      KeptIn(n, b, start, calls, k - 1, i) +
      if calls[k - 1].RecordCall? && (calls[k - 1].now / b) % n == i && Kept(n, b, start, calls, k - 1)
      then calls[k - 1].count else 0
  }

  /** Slot `i` is cleared by expiring from `from` to `to`. */
  predicate SlotCleared(n: nat, b: nat, from: nat, to: nat, i: nat)
    requires n > 0 && b > 0
  {
    to >= from + b && (i - (from / b) % n - 1) % n < (to - from) / b
  }

  lemma ClearsBySlot(n: nat, b: nat, from: nat, to: nat, t: nat)
    requires n > 0 && b > 0
    ensures Clears(n, b, from, to, t) <==> SlotCleared(n, b, from, to, (t / b) % n)
  {
    ModDifference(t / b, from / b, n);
  }

  /** One more call clears the slot or leaves it. */
  lemma {:induction false} KeptNext(n: nat, b: nat, start: nat, calls: seq<Call>, k: nat, i: nat)
    requires n > 0 && b > 0 && k < |calls|
    ensures var m := |calls| - 1;
      KeptIn(n, b, start, calls, k, i)
      == if SlotCleared(n, b, LastAdvance(b, start, calls[..m]), calls[m].now, i) then 0
         else KeptIn(n, b, start, calls[..m], k, i)
  {
    hide SlotCleared, Clears, LastAdvance;
    if k > 0 {
      var m := |calls| - 1;
      KeptNext(n, b, start, calls, k - 1, i);
      assert calls[..m][k - 1] == calls[k - 1];
      ClearsBySlot(n, b, LastAdvance(b, start, calls[..m]), calls[m].now, calls[k - 1].now);
    }
  }

  lemma AdvanceSlot(w: Window, now: nat, i: nat)
    requires WellFormed(w) && i < |w.buckets|
    ensures var n, b := |w.buckets|, w.bucketSecs;
      && Advance(w, now).buckets[i] == (if SlotCleared(n, b, w.last, now, i) then 0 else w.buckets[i])
      && Advance(w, now).last == if now >= w.last + b then now else w.last
  {
  }

  /** The slots after a run, one by one. */
  lemma {:induction false} SlotsKept(windowSecs: nat, n: nat, start: nat, calls: seq<Call>, i: nat)
    requires windowSecs > 0 && n > 0 && i < n
    ensures var w, b := After(New(windowSecs, n, start), calls), CeilDiv(windowSecs, n);
      && b > 0 && w.bucketSecs == b && |w.buckets| == n
      && w.last == LastAdvance(b, start, calls)
      && w.buckets[i] == KeptIn(n, b, start, calls, |calls|, i)
    decreases |calls|
  {
    hide SlotCleared, Advance, Kept;
    if calls != [] {
      var m, b := |calls| - 1, New(windowSecs, n, start).bucketSecs;
      var rest, c := calls[..m], calls[m];
      SlotsKept(windowSecs, n, start, rest, i);
      var prev := After(New(windowSecs, n, start), rest);
      AdvanceSlot(prev, c.now, i);
      KeptNext(n, b, start, calls, m, i);
      LastKept(n, b, start, calls);
    }
  }

  lemma LastKept(n: nat, b: nat, start: nat, calls: seq<Call>)
    requires n > 0 && b > 0 && calls != []
    ensures Kept(n, b, start, calls, |calls| - 1)
  {
  }

  /** The slots add up to everything kept. */
  lemma {:induction false} SumOfSlots(n: nat, b: nat, start: nat, calls: seq<Call>, k: nat)
    requires n > 0 && b > 0 && k <= |calls|
    ensures Sum(seq(n, i requires 0 <= i < n => KeptIn(n, b, start, calls, k, i))) == KeptTotal(n, b, start, calls, k)
    decreases k
  {
    hide Kept, Sum;
    var after := seq(n, i requires 0 <= i < n => KeptIn(n, b, start, calls, k, i));
    if k == 0 {
      SumZeros(after);
    } else {
      SumOfSlots(n, b, start, calls, k - 1);
      var before := seq(n, i requires 0 <= i < n => KeptIn(n, b, start, calls, k - 1, i));
      var c := calls[k - 1];
      var j := (c.now / b) % n;
      var more := if c.RecordCall? && Kept(n, b, start, calls, k - 1) then c.count else 0;
      SumUpdate(before, j, before[j] + more);
      assert after == before[j := before[j] + more];
    }
  }

  /** For every bucket width and every clock: `sum` is exactly what was recorded and not cleared since
      by a call that found its bucket stale. */
  lemma SumIsKept(windowSecs: nat, n: nat, start: nat, calls: seq<Call>, now: nat)
    requires windowSecs > 0 && n > 0
    ensures var all := calls + [SumCall(now)];
      SumAfter(New(windowSecs, n, start), calls, now) == KeptTotal(n, CeilDiv(windowSecs, n), start, all, |all|)
  {
    hide Kept, KeptIn, KeptTotal;
    var all, b := calls + [SumCall(now)], New(windowSecs, n, start).bucketSecs;
    assert all[..|calls|] == calls;
    var w := After(New(windowSecs, n, start), all);
    CachedSumConserved(windowSecs, n, start, all);
    SumOfSlots(n, b, start, all, |all|);
    forall i | 0 <= i < n ensures w.buckets[i] == KeptIn(n, b, start, all, |all|, i) { SlotsKept(windowSecs, n, start, all, i); }
    assert |w.buckets| == n;
    assert w.buckets == seq(n, i requires 0 <= i < n => KeptIn(n, b, start, all, |all|, i));
  }

  // ---------------------------------------------------------------------------
  // The counter itself, updated in place

  lemma ZeroedStep(b: seq<nat>, from: int, k: nat)
    requires 0 <= k < |b|
    ensures Zeroed(b, from, k + 1) == Zeroed(b, from, k)[(from + 1 + k) % |b| := 0]
  {
    var wider, next := Zeroed(b, from, k + 1), Zeroed(b, from, k)[(from + 1 + k) % |b| := 0];
    forall i | 0 <= i < |b| ensures wider[i] == next[i] {
      ModOffset(i, from + 1, k, |b|);
    }
  }

  class RollingWindow {
    const buckets: array<nat>
    const bucketSecs: nat
    var lastAdvance: nat
    var cachedSum: nat

    ghost predicate Valid()
      reads this, buckets
    {
      WellFormed(View())
    }

    ghost function View(): Window
      reads this, buckets
    {
      Window(buckets[..], bucketSecs, lastAdvance, cachedSum)
    }

    constructor (windowSecs: nat, numBuckets: nat, now: nat)
      requires windowSecs > 0 && numBuckets > 0
      ensures Valid() && fresh(buckets) && View() == New(windowSecs, numBuckets, now)
    {
      buckets := new nat[numBuckets](_ => 0);
      bucketSecs := CeilDiv(windowSecs, numBuckets);
      lastAdvance, cachedSum := now, 0;
    }

    /** Zeroes the stale slots one by one; zeroing the whole ring is a separate, cheaper path. */
    method AdvanceTo(now: nat)
      requires Valid()
      modifies this, buckets
      ensures Valid() && View() == Advance(old(View()), now)
    {
      var elapsed := if now >= lastAdvance then now - lastAdvance else 0;
      if elapsed < bucketSecs {
        return;
      }
      ghost var before := buckets[..];
      var last := lastAdvance;
      lastAdvance := now;
      var n := buckets.Length;
      var toClear := if elapsed / bucketSecs < n then elapsed / bucketSecs else n;
      if toClear >= n {
        for i := 0 to n
          invariant lastAdvance == now
          invariant forall j :: 0 <= j < i ==> buckets[j] == 0
        {
          buckets[i] := 0;
        }
        assert buckets[..] == Zeroed(before, (last / bucketSecs) % n, n);
        SumZeros(buckets[..]);
        cachedSum := 0;
      } else {
        var start := (last / bucketSecs) % n + 1;
        assert Zeroed(before, start - 1, 0) == before;
        for i := 0 to toClear
          invariant lastAdvance == now
          invariant buckets[..] == Zeroed(before, start - 1, i)
        {
          ZeroedStep(before, start - 1, i);
          buckets[(start + i) % n] := 0;
        }
        var recomputed := 0;
        for i := 0 to n
          invariant lastAdvance == now && buckets[..] == Zeroed(before, start - 1, toClear)
          invariant recomputed == Sum(buckets[..i])
        {
          assert buckets[..i + 1][..i] == buckets[..i];
          recomputed := recomputed + buckets[i];
        }
        assert buckets[..n] == buckets[..];
        cachedSum := recomputed;
      }
    }

    method RecordAt(now: nat, count: nat)
      requires Valid()
      modifies this, buckets
      ensures Valid() && View() == Record(old(View()), now, count)
    {
      AdvanceTo(now);
      var i := (now / bucketSecs) % buckets.Length;
      buckets[i] := buckets[i] + count;
      cachedSum := cachedSum + count;
    }

    method SumAt(now: nat) returns (total: nat)
      requires Valid()
      modifies this, buckets
      ensures Valid() && View() == Advance(old(View()), now)
      ensures total == Advance(old(View()), now).cached
      ensures forall log :: old(Represents(View(), log)) && old(lastAdvance) <= now ==>
                total == Total(log, now - buckets.Length, now)
    {
      AdvanceTo(now);
      total := cachedSum;
      forall log | old(Represents(View(), log)) && old(lastAdvance) <= now
        ensures total == Total(log, now - buckets.Length, now)
      {
        AdvanceRepresents(old(View()), log, now);
        CachedIsTotal(View(), log);
      }
    }
  }
}
