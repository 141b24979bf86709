/** Positional numerals over any base. */
module Numerals {
  function Pow(base: nat, n: nat): (p: nat)
    ensures base > 0 ==> p > 0
    decreases n
  {
    if n == 0 then 1 else Pow(base, n - 1) * base
  }

  /** The number written with these digits, most significant first. */
  function Value(base: nat, d: seq<nat>): nat
    decreases |d|
  {
    if d == [] then 0 else Value(base, d[..|d| - 1]) * base + d[|d| - 1]
  }

  lemma ValueEmpty(base: nat)
    ensures Value(base, []) == 0
  {
  }

  lemma ValueSnoc(base: nat, d: seq<nat>, x: nat)
    ensures Value(base, d + [x]) == Value(base, d) * base + x
  {
    assert (d + [x])[..|d|] == d;
  }

  predicate AllZero(d: seq<nat>) {
    forall k :: 0 <= k < |d| ==> d[k] == 0
  }

  lemma AllZeroSnoc(d: seq<nat>, x: nat)
    ensures AllZero(d + [x]) <==> AllZero(d) && x == 0
  {
    if AllZero(d + [x]) {
      forall k | 0 <= k < |d| ensures d[k] == 0 {
        assert (d + [x])[k] == d[k];
      }
      assert (d + [x])[|d|] == x;
    }
  }

  predicate DigitsBelow(base: nat, d: seq<nat>) {
    forall k :: 0 <= k < |d| ==> d[k] < base
  }

  lemma {:induction false} ValueBound(base: nat, d: seq<nat>)
    requires base > 0 && DigitsBelow(base, d)
    ensures Value(base, d) < Pow(base, |d|)
    decreases |d|
  {
    if d != [] {
      var m := d[..|d| - 1];
      ValueBound(base, m);
      BelowNext(Value(base, m), Pow(base, |m|), d[|d| - 1], base);
    }
  }

  lemma BelowNext(v: nat, p: nat, x: nat, base: nat)
    requires v < p && x < base
    ensures v * base + x < p * base
  {
    MulMonotone(v + 1, p, base);
    assert (v + 1) * base == v * base + base;
  }

  lemma MulMonotone(a: nat, b: nat, c: nat)
    requires a <= b
    ensures a * c <= b * c
  {
  }

  /** A digit put in front counts with the weight of its place. */
  lemma {:induction false} ValueCons(base: nat, x: nat, d: seq<nat>)
    ensures Value(base, [x] + d) == x * Pow(base, |d|) + Value(base, d)
    decreases |d|
  {
    var s := [x] + d;
    if d == [] {
      assert s[..0] == [];
    } else {
      var m := d[..|d| - 1];
      assert s[..|s| - 1] == [x] + m && s[|s| - 1] == d[|d| - 1];
      ValueCons(base, x, m);
      Regroup(x, Pow(base, |m|), base, Value(base, m));
    }
  }

  lemma Regroup(x: nat, p: nat, base: nat, v: nat)
    ensures (x * p + v) * base == x * (p * base) + v * base
  {
    assert (x * p + v) * base == (x * p) * base + v * base;
    assert (x * p) * base == x * (p * base);
  }

  /** Numerals of one length are equal when their values are. */
  lemma {:induction false} ValueInjective(base: nat, d: seq<nat>, e: seq<nat>)
    requires |d| == |e| && DigitsBelow(base, d) && DigitsBelow(base, e)
    requires Value(base, d) == Value(base, e)
    ensures d == e
    decreases |d|
  {
    if d != [] {
      var m, n := d[..|d| - 1], e[..|e| - 1];
      LastDigit(Value(base, m), Value(base, n), d[|d| - 1], e[|e| - 1], base);
      ValueInjective(base, m, n);
      assert d == m + [d[|d| - 1]] && e == n + [e[|e| - 1]];
    }
  }

  lemma LastDigit(v: nat, w: nat, x: nat, y: nat, base: nat)
    requires x < base && y < base && v * base + x == w * base + y
    ensures v == w && x == y
  {
    if v < w {
      MulMonotone(v + 1, w, base);
    } else if w < v {
      MulMonotone(w + 1, v, base);
    }
  }

  lemma {:induction false} ValueZero(base: nat, d: seq<nat>)
    requires base > 0
    ensures Value(base, d) == 0 <==> AllZero(d)
    decreases |d|
  {
    if d != [] {
      var m := d[..|d| - 1];
      ValueZero(base, m);
      if Value(base, m) > 0 { MulMonotone(1, Value(base, m), base); }
      AllZeroSnoc(m, d[|d| - 1]);
      assert d == m + [d[|d| - 1]];
    }
  }

  lemma {:induction false} PowMonotone(base: nat, m: nat, n: nat)
    requires base > 0 && m <= n
    ensures Pow(base, m) <= Pow(base, n)
    decreases n
  {
    if m < n {
      PowMonotone(base, m, n - 1);
      MulMonotone(1, base, Pow(base, n - 1));
    }
  }

  lemma {:induction false} PowAdd(base: nat, m: nat, n: nat)
    ensures Pow(base, m + n) == Pow(base, m) * Pow(base, n)
    decreases n
  {
    if n > 0 {
      PowAdd(base, m, n - 1);
      assert Pow(base, m + n) == Pow(base, m + (n - 1)) * base;
      assert (Pow(base, m) * Pow(base, n - 1)) * base == Pow(base, m) * (Pow(base, n - 1) * base);
    }
  }

  lemma PowSum(base: nat, m: nat, n: nat, x: nat, y: nat)
    requires Pow(base, m) == x && Pow(base, n) == y
    ensures Pow(base, m + n) == x * y
  {
    PowAdd(base, m, n);
  }
}
