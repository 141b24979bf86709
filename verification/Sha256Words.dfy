/** The expressions of processBlock on signed 32-bit intermediates compute the functions of FIPS 180-4. */
module Sha256Words {
  import opened Words
  import opened JsNumbers
  import opened Sha256Spec

  /** rotr of the worker. */
  function JsRotr(n: nat, x: int): int
    requires 0 < n < 32
  {
    BitOr(ShrUnsigned(x, n), Shl(x, 32 - n))
  }

  lemma {:induction false} ShrIsQuotient(n: nat, x: Word)
    ensures Shr(n, x) == x / Pow2(n)
    decreases n
  {
    if n > 0 {
      var p := Pow2(n - 1);
      ShrIsQuotient(n - 1, x / 2);
      DivDouble(x, p);
    }
  }

  lemma DivDouble(x: nat, p: nat)
    requires p > 0
    ensures x / (2 * p) == (x / 2) / p
  {
    var q, r := (x / 2) / p, (x / 2) % p;
    DivMod(x / 2, p);
    MulSwap(q, p);
    ModUnique(x, q, 2 * r + x % 2, 2 * p);
  }

  /** n turns move the n low bits to the top in one go. */
  lemma {:induction false} RotrIsSplit(n: nat, x: Word)
    requires n <= 32
    ensures Rotr(n, x) == x / Pow2(n) + (x % Pow2(n)) * Pow2(32 - n)
    decreases n
  {
    if n > 0 {
      var y := x / 2 + (x % 2) * 0x8000_0000;
      var p, c := Pow2(n - 1), Pow2(32 - n);
      assert Pow2(n) == 2 * p && Pow2(33 - n) == 2 * c;
      RotrIsSplit(n - 1, y);
      assert y / p == (x / 2) / p + (x % 2) * c && y % p == (x / 2) % p by {
        HalfRange(n);
        SplitTop(x / 2, x % 2, p, c);
      }
      DivDouble(x, p);
      ModDouble(x, p);
      Recombine((x / 2) / p, x % 2, (x / 2) % p, c);
    }
  }

  lemma HalfRange(n: nat)
    requires 0 < n <= 32
    ensures Pow2(32 - n) * Pow2(n - 1) == 0x8000_0000
  {
    Pow2Bytes();
    Pow2Add(32 - n, n);
    MulSwap(Pow2(32 - n), Pow2(n - 1));
  }

  lemma Recombine(q: int, b: int, r: int, c: int)
    ensures q + b * c + r * (2 * c) == q + (2 * r + b) * c
  {
  }

  lemma SplitTop(x: nat, b: nat, p: nat, c: nat)
    requires p > 0
    ensures (x + b * (c * p)) / p == x / p + b * c && (x + b * (c * p)) % p == x % p
  {
    DivMod(x, p);
    assert b * (c * p) == (b * c) * p;
    assert (x / p + b * c) * p == (x / p) * p + (b * c) * p;
    ModUnique(x + b * (c * p), x / p + b * c, x % p, p);
  }

  lemma {:induction false} OrCommutes(x: nat, y: nat)
    ensures Bitwise(OrOp, x, y) == Bitwise(OrOp, y, x)
    decreases x + y
  {
    if x > 0 || y > 0 { OrCommutes(x / 2, y / 2); }
  }

  lemma RotrRefined(n: nat, x: int)
    requires 0 < n < 32
    ensures ToUint32(JsRotr(n, x)) == Rotr(n, ToUint32(x))
  {
    var u := ToUint32(x);
    RotrIsSplit(n, u);
    ShlIsProduct(x, 32 - n);
    var low, high := u / Pow2(n), (u % Pow2(n)) * Pow2(32 - n);
    assert low < Pow2(32 - n) by {
      Pow2Bytes();
      Pow2Add(32 - n, n);
      QuotientBelow(u, Pow2(n), Pow2(32 - n));
    }
    OrJoins(ShrUnsigned(x, n), Shl(x, 32 - n), u % Pow2(n), 32 - n);
  }

  lemma QuotientBelow(x: nat, p: nat, c: nat)
    requires p > 0 && x < c * p
    ensures x / p < c
  {
    DivMod(x, p);
    if x / p > c {
      MulAtLeast(x / p - c, p);
    }
  }

  lemma OrJoins(low: Word, x: int, high: nat, k: nat)
    requires ToUint32(x) == high * Pow2(k) && low < Pow2(k)
    ensures ToUint32(BitOr(low, x)) == low + high * Pow2(k)
  {
    hide Bitwise, Pow2, ToUint32, ToInt32;
    OrDisjoint(high, low, k);
    OrCommutes(low, ToUint32(x));
    WordIsItself(low);
    SignDoesNotMatter(Or(low, ToUint32(x)));
    WordIsItself(Or(low, ToUint32(x)));
  }

  lemma XorRefined(x: int, y: int)
    ensures ToUint32(BitXor(x, y)) == Xor(ToUint32(x), ToUint32(y))
  {
    hide OnWords, ToUint32, ToInt32;
    WordIsItself(Xor(ToUint32(x), ToUint32(y)));
    SignDoesNotMatter(Xor(ToUint32(x), ToUint32(y)));
  }

  lemma AndRefined(x: int, y: int)
    ensures ToUint32(BitAnd(x, y)) == And(ToUint32(x), ToUint32(y))
  {
    hide OnWords, ToUint32, ToInt32;
    WordIsItself(And(ToUint32(x), ToUint32(y)));
    SignDoesNotMatter(And(ToUint32(x), ToUint32(y)));
  }

  lemma BigSigma0Refined(a: Word)
    ensures ToUint32(BitXor(BitXor(JsRotr(2, a), JsRotr(13, a)), JsRotr(22, a))) == BigSigma0(a)
  {
    hide Bitwise, OnWords, ToUint32, ToInt32, Rotr, Shr, Pow2, BitXor;
    WordIsItself(a);
    RotrRefined(2, a);
    RotrRefined(13, a);
    RotrRefined(22, a);
    XorRefined(JsRotr(2, a), JsRotr(13, a));
    XorRefined(BitXor(JsRotr(2, a), JsRotr(13, a)), JsRotr(22, a));
  }

  lemma BigSigma1Refined(e: Word)
    ensures ToUint32(BitXor(BitXor(JsRotr(6, e), JsRotr(11, e)), JsRotr(25, e))) == BigSigma1(e)
  {
    hide Bitwise, OnWords, ToUint32, ToInt32, Rotr, Shr, Pow2, BitXor;
    WordIsItself(e);
    RotrRefined(6, e);
    RotrRefined(11, e);
    RotrRefined(25, e);
    XorRefined(JsRotr(6, e), JsRotr(11, e));
    XorRefined(BitXor(JsRotr(6, e), JsRotr(11, e)), JsRotr(25, e));
  }

  lemma SmallSigma0Refined(x: Word)
    ensures ToUint32(BitXor(BitXor(JsRotr(7, x), JsRotr(18, x)), ShrUnsigned(x, 3))) == SmallSigma0(x)
  {
    hide Bitwise, OnWords, ToInt32, Rotr, Shr, Pow2, BitXor;
    RotrRefined(7, x);
    RotrRefined(18, x);
    ShrIsQuotient(3, x);
    XorRefined(JsRotr(7, x), JsRotr(18, x));
    XorRefined(BitXor(JsRotr(7, x), JsRotr(18, x)), ShrUnsigned(x, 3));
  }

  lemma SmallSigma1Refined(x: Word)
    ensures ToUint32(BitXor(BitXor(JsRotr(17, x), JsRotr(19, x)), ShrUnsigned(x, 10))) == SmallSigma1(x)
  {
    hide Bitwise, OnWords, ToInt32, Rotr, Shr, Pow2, BitXor;
    RotrRefined(17, x);
    RotrRefined(19, x);
    ShrIsQuotient(10, x);
    XorRefined(JsRotr(17, x), JsRotr(19, x));
    XorRefined(BitXor(JsRotr(17, x), JsRotr(19, x)), ShrUnsigned(x, 10));
  }

  lemma ChRefined(e: Word, f: Word, g: Word)
    ensures ToUint32(BitXor(BitAnd(e, f), BitAnd(BitNot(e), g))) == Ch(e, f, g)
  {
    hide Bitwise, OnWords, ToUint32, ToInt32, BitXor, BitAnd, BitNot;
    WordIsItself(e);
    WordIsItself(f);
    WordIsItself(g);
    SignDoesNotMatter(e);
    AndRefined(e, f);
    AndRefined(BitNot(e), g);
    XorRefined(BitAnd(e, f), BitAnd(BitNot(e), g));
  }

  lemma MajRefined(a: Word, b: Word, c: Word)
    ensures ToUint32(BitXor(BitXor(BitAnd(a, b), BitAnd(a, c)), BitAnd(b, c))) == Maj(a, b, c)
  {
    hide Bitwise, OnWords, ToUint32, ToInt32, BitXor, BitAnd;
    WordIsItself(a);
    WordIsItself(b);
    WordIsItself(c);
    AndRefined(a, b);
    AndRefined(a, c);
    AndRefined(b, c);
    XorRefined(BitAnd(a, b), BitAnd(a, c));
    XorRefined(BitXor(BitAnd(a, b), BitAnd(a, c)), BitAnd(b, c));
  }

  /** Five terms, two of them signed, added exactly and truncated once. */
  lemma SumOfFive(h: Word, s: int, c: int, k: Word, w: Word)
    ensures ToUint32(h + s + c + k + w) == Add(Add(Add(Add(h, ToUint32(s)), ToUint32(c)), k), w)
  {
    hide Add, ToUint32;
    WordIsItself(h);
    WordIsItself(k);
    WordIsItself(w);
    SumOfTwo(h + s + c + k, w);
    SumOfTwo(h + s + c, k);
    SumOfTwo(h + s, c);
    SumOfTwo(h, s);
  }

  lemma SumOfTwo(x: int, y: int)
    ensures ToUint32(x + y) == Add(ToUint32(x), ToUint32(y))
  {
    TruncateSum(x, y);
    AddIsModular(ToUint32(x), ToUint32(y));
  }

  /** The sum of the message schedule; the order of the terms does not matter. */
  lemma SumOfFour(w16: Word, s0: int, w7: Word, s1: int)
    ensures ToUint32(w16 + s0 + w7 + s1) == Add(Add(Add(ToUint32(s1), w7), ToUint32(s0)), w16)
  {
    hide Add, ToUint32;
    WordIsItself(w16);
    WordIsItself(w7);
    SumOfTwo(w16 + s0 + w7, s1);
    SumOfTwo(w16 + s0, w7);
    SumOfTwo(w16, s0);
    AddReorders(w16, ToUint32(s0), w7, ToUint32(s1));
  }

  lemma AddReorders(x: Word, y: Word, z: Word, u: Word)
    ensures Add(Add(Add(x, y), z), u) == Add(Add(Add(u, z), y), x)
  {
  }
}
