/** The fixed-window limiter of the auth service: n requests per window and IP. */
module RateLimit {
  datatype Bucket = Bucket(count: int, reset: int)

  /** What one request does to the bucket of its IP, and whether it is let through. */
  function Step(b: Bucket, now: int, n: int, window: nat): (r: (Bucket, bool)) {
    var e := if now > b.reset then Bucket(0, now + window) else b;
    if e.count >= n then (e, false) else (Bucket(e.count + 1, e.reset), true)
  }

  /** The first request of an IP finds a fresh bucket. */
  function Fresh(now: int, window: nat): Bucket { Bucket(0, now + window) }

  class Limiter {
    const n: int
    const window: nat
    var buckets: map<string, Bucket>

    constructor (n: int, window: nat)
      ensures this.n == n && this.window == window && buckets == map[]
    {
      this.n := n;
      this.window := window;
      buckets := map[];
    }

    function BucketOf(ip: string, now: int): Bucket
      reads this
    {
      if ip in buckets then buckets[ip] else Fresh(now, window)
    }

    /** Only the bucket of the calling IP changes. */
    method Allow(ip: string, now: int) returns (admitted: bool)
      modifies this
      ensures ip in buckets && (buckets[ip], admitted) == Step(old(BucketOf(ip, now)), now, n, window)
      ensures buckets == old(buckets)[ip := buckets[ip]]
    {
      var e := if ip in buckets then buckets[ip] else Fresh(now, window);
      if now > e.reset {
        e := Bucket(0, now + window);
      }
      if e.count >= n {
        buckets := buckets[ip := e];
        return false;
      }
      e := Bucket(e.count + 1, e.reset);
      buckets := buckets[ip := e];
      return true;
    }
  }

  // Runs of requests from one IP, in time order.

  predicate Ordered(times: seq<int>) {
    forall i, j :: 0 <= i < j < |times| ==> times[i] <= times[j]
  }

  /** The bucket before request |times| and the times admitted so far. */
  function After(times: seq<int>, n: int, window: nat): (r: (Bucket, seq<int>))
    requires times != []
    decreases |times|
  {
    var last := times[|times| - 1];
    var (b, admitted) :=
      if |times| == 1 then (Fresh(last, window), []) else After(times[..|times| - 1], n, window);
    var (e, ok) := Step(b, last, n, window);
    (e, if ok then admitted + [last] else admitted)
  }

  function Admitted(times: seq<int>, n: int, window: nat): seq<int> {
    if times == [] then [] else After(times, n, window).1
  }

  /** How many of the times lie in the closed interval from lo to hi. */
  function CountIn(times: seq<int>, lo: int, hi: int): nat {
    if times == [] then 0
    else CountIn(times[..|times| - 1], lo, hi) + if lo <= times[|times| - 1] <= hi then 1 else 0
  }

  function Opened(b: Bucket, window: nat): int { b.reset - window }

  /** What holds after every request: the window has counted every admission since it was opened,
      it was opened by an admission, and the window before it left fewer than n close to it. */
  ghost predicate Inv(b: Bucket, admitted: seq<int>, now: int, n: int, window: nat) {
    && 1 <= b.count <= n
    && Opened(b, window) <= now <= b.reset
    && (forall i :: 0 <= i < |admitted| ==> admitted[i] <= now)
    && CountIn(admitted, Opened(b, window), now) == b.count
    && CountIn(admitted, Opened(b, window), Opened(b, window)) >= 1
    && (forall lo :: lo >= Opened(b, window) - window ==> CountBefore(admitted, lo, Opened(b, window)) < n)
  }

  function CountBefore(times: seq<int>, lo: int, end: int): nat { CountIn(times, lo, end - 1) }

  // Counting.

  lemma {:induction false} CountSplit(times: seq<int>, lo: int, mid: int, hi: int)
    requires lo <= mid <= hi + 1
    ensures CountIn(times, lo, hi) == CountIn(times, lo, mid - 1) + CountIn(times, mid, hi)
    decreases |times|
  {
    if times != [] { CountSplit(times[..|times| - 1], lo, mid, hi); }
  }

  /** Times outside the interval do not count; so one may cut it at the latest time. */
  lemma {:induction false} CountUpTo(times: seq<int>, lo: int, hi: int, now: int)
    requires forall i :: 0 <= i < |times| ==> times[i] <= now
    ensures hi >= now ==> CountIn(times, lo, hi) == CountIn(times, lo, now)
    ensures lo > now ==> CountIn(times, lo, hi) == 0
    decreases |times|
  {
    if times != [] { CountUpTo(times[..|times| - 1], lo, hi, now); }
  }

  lemma CountSnoc(times: seq<int>, t: int, lo: int, hi: int)
    ensures CountIn(times + [t], lo, hi) == CountIn(times, lo, hi) + if lo <= t <= hi then 1 else 0
  {
    assert (times + [t])[..|times|] == times;
  }

  /** Any interval no longer than the window, under the invariant. */
  lemma CountUnderInv(b: Bucket, admitted: seq<int>, now: int, n: int, window: nat, lo: int)
    requires Inv(b, admitted, now, n, window) && lo >= now - window
    ensures CountIn(admitted, lo, lo + window) <= n - 1 + b.count
  {
    var o := Opened(b, window);
    CountUpTo(admitted, lo, lo + window, now);
    if lo <= o {
      assert CountBefore(admitted, lo, o) < n;
      CountSplit(admitted, lo, o, now);
    } else if lo <= now {
      CountSplit(admitted, o, lo, now);
    }
  }

  /** The steps of the limiter keep the invariant, and a newly admitted request keeps the bound. */
  lemma StepKeepsInv(b: Bucket, admitted: seq<int>, prev: int, now: int, n: int, window: nat)
    requires Inv(b, admitted, prev, n, window) && prev <= now
    ensures var (e, ok) := Step(b, now, n, window);
            Inv(e, if ok then admitted + [now] else admitted, now, n, window)
  {
    var (e, ok) := Step(b, now, n, window);
    var o := Opened(b, window);
    CountUpTo(admitted, o, now, prev);
    if now > b.reset {
      assert e == Bucket(1, now + window);
      forall lo | lo >= now - window ensures CountBefore(admitted + [now], lo, now) < n {
        CountSnoc(admitted, now, lo, now - 1);
        CountUpTo(admitted, lo, now - 1, prev);
        if lo <= prev {
          CountSplit(admitted, o, lo, prev);
          CountSplit(admitted, o, o + 1, lo - 1);
        }
      }
      CountSnoc(admitted, now, now, now);
      CountUpTo(admitted, now, now, prev);
    } else if ok {
      CountSnoc(admitted, now, o, now);
      CountSnoc(admitted, now, o, o);
      forall lo | lo >= o - window ensures CountBefore(admitted + [now], lo, o) < n {
        assert CountBefore(admitted, lo, o) < n;
        CountSnoc(admitted, now, lo, o - 1);
      }
    }
  }

  lemma FirstStep(now: int, n: int, window: nat)
    requires n >= 1
    ensures var (e, ok) := Step(Fresh(now, window), now, n, window); ok && Inv(e, [now], now, n, window)
  {
    forall lo, hi ensures CountIn([now], lo, hi) == if lo <= now <= hi then 1 else 0 {
      assert [] + [now] == [now];
      CountSnoc([], now, lo, hi);
    }
  }

  lemma {:induction false} RunKeepsInv(times: seq<int>, n: int, window: nat)
    requires times != [] && Ordered(times) && n >= 1
    ensures var (b, admitted) := After(times, n, window);
            Inv(b, admitted, times[|times| - 1], n, window)
    decreases |times|
  {
    var now := times[|times| - 1];
    FirstStep(now, n, window);
    assert [] + [now] == [now];
    if |times| > 1 {
      var before := times[..|times| - 1];
      RunKeepsInv(before, n, window);
      var (b, admitted) := After(before, n, window);
      StepKeepsInv(b, admitted, before[|before| - 1], now, n, window);
    }
  }

  /** Over every run, any interval as long as the window sees at most 2n - 1 admissions. */
  lemma {:induction false} SlidingWindow(times: seq<int>, n: int, window: nat, lo: int)
    requires Ordered(times) && n >= 1
    ensures CountIn(Admitted(times, n, window), lo, lo + window) <= 2 * n - 1
    decreases |times|
  {
    if times != [] {
      var now := times[|times| - 1];
      var before := times[..|times| - 1];
      var admitted := if before == [] then [] else After(before, n, window).1;
      RunKeepsInv(times, n, window);
      var (b, after) := After(times, n, window);
      if lo >= now - window {
        CountUnderInv(b, after, now, n, window, lo);
      } else {
        SlidingWindow(before, n, window, lo);
        CountSnoc(admitted, now, lo, lo + window);
      }
    }
  }

  /** A limit below one admits nothing. */
  lemma {:induction false} NothingAdmitted(times: seq<int>, n: int, window: nat)
    requires times != [] && n <= 0
    ensures After(times, n, window).1 == [] && After(times, n, window).0.count == 0
    decreases |times|
  {
    if |times| > 1 { NothingAdmitted(times[..|times| - 1], n, window); }
  }

  // The bound is reached: the window that a request at 0 opens fills up at its last moment,
  // and the next one right after it.

  function Times(t: int, k: nat): (s: seq<int>)
    ensures |s| == k && forall i :: 0 <= i < k ==> s[i] == t
  {
    seq(k, _ => t)
  }

  function Burst(n: nat, window: nat): seq<int>
    requires n >= 1
  {
    [0] + Times(window, n - 1) + Times(window + 1, n)
  }

  lemma {:induction false} SameWindow(times: seq<int>, t: int, k: nat, n: int, window: nat)
    requires times != [] && After(times, n, window).0.count + k <= n && t <= After(times, n, window).0.reset
    ensures var (b, admitted) := After(times, n, window);
            After(times + Times(t, k), n, window) == (Bucket(b.count + k, b.reset), admitted + Times(t, k))
    decreases k
  {
    hide After, Step;
    if k == 0 {
      assert times + Times(t, 0) == times;
      assert After(times, n, window).1 + Times(t, 0) == After(times, n, window).1;
    } else {
      SameWindow(times, t, k - 1, n, window);
      var before, admitted := times + Times(t, k - 1), After(times, n, window).1;
      assert before + [t] == times + Times(t, k);
      assert admitted + Times(t, k - 1) + [t] == admitted + Times(t, k);
      AfterSnoc(before, t, n, window);
      StepWithin(After(before, n, window).0, t, n, window);
    }
  }

  lemma AfterSnoc(times: seq<int>, t: int, n: int, window: nat)
    requires times != []
    ensures var (b, admitted) := After(times, n, window);
            var (e, ok) := Step(b, t, n, window);
            After(times + [t], n, window) == (e, if ok then admitted + [t] else admitted)
  {
    hide Step;
    assert (times + [t])[..|times|] == times;
  }

  lemma StepWithin(b: Bucket, t: int, n: int, window: nat)
    requires t <= b.reset && b.count < n
    ensures Step(b, t, n, window) == (Bucket(b.count + 1, b.reset), true)
  {
  }

  lemma {:induction false} CountTimes(t: int, k: nat, lo: int, hi: int)
    requires lo <= t <= hi
    ensures CountIn(Times(t, k), lo, hi) == k
  {
    if k > 0 {
      assert Times(t, k)[..k - 1] == Times(t, k - 1);
      CountTimes(t, k - 1, lo, hi);
    }
  }

  lemma {:induction false} CountAppend(s: seq<int>, t: seq<int>, lo: int, hi: int)
    ensures CountIn(s + t, lo, hi) == CountIn(s, lo, hi) + CountIn(t, lo, hi)
    decreases |t|
  {
    if t == [] {
      assert s + t == s;
    } else {
      assert (s + t)[..|s + t| - 1] == s + t[..|t| - 1];
      CountAppend(s, t[..|t| - 1], lo, hi);
    }
  }

  lemma FirstAdmitted(n: nat, window: nat)
    requires n >= 1
    ensures After([0], n, window) == (Bucket(1, window), [0])
  {
    assert [] + [0] == [0];
  }

  lemma StepBeyond(b: Bucket, t: int, n: int, window: nat)
    requires t > b.reset && n >= 1
    ensures Step(b, t, n, window) == (Bucket(1, t + window), true)
  {
  }

  lemma BurstAdmitted(n: nat, window: nat)
    requires n >= 1 && window >= 1
    ensures Admitted(Burst(n, window), n, window) == Burst(n, window)
  {
    hide After, Step;
    FirstAdmitted(n, window);
    SameWindow([0], window, n - 1, n, window);
    var first := [0] + Times(window, n - 1);
    var second := first + [window + 1];
    AfterSnoc(first, window + 1, n, window);
    StepBeyond(Bucket(n, window), window + 1, n, window);
    SameWindow(second, window + 1, n - 1, n, window);
    assert Burst(n, window) == second + Times(window + 1, n - 1);
  }

  lemma BurstCount(n: nat, window: nat)
    requires n >= 1 && window >= 1
    ensures CountIn(Burst(n, window), 1, 1 + window) == 2 * n - 1
  {
    var s, t := Times(window, n - 1), Times(window + 1, n);
    CountAppend([0] + s, t, 1, 1 + window);
    CountAppend([0], s, 1, 1 + window);
    CountTimes(window, n - 1, 1, 1 + window);
    CountTimes(window + 1, n, 1, 1 + window);
    CountSnoc([], 0, 1, 1 + window);
    assert [] + [0] == [0];
  }

  /** 2n - 1 requests of the burst pass within one window length. */
  lemma BoundIsReached(n: nat, window: nat)
    requires n >= 1 && window >= 1
    ensures Ordered(Burst(n, window))
    ensures CountIn(Admitted(Burst(n, window), n, window), 1, 1 + window) == 2 * n - 1
  {
    hide CountIn, Admitted;
    BurstAdmitted(n, window);
    BurstCount(n, window);
  }
}
