/** 32-bit words as integers, and the bitwise operators on them. */
module Words {
  type Word = w: int | 0 <= w < 0x1_0000_0000

  function Pow2(n: nat): (p: nat)
    ensures p > 0
  {
    if n == 0 then 1 else 2 * Pow2(n - 1)
  }

  lemma Pow2Bytes()
    ensures Pow2(8) == 0x100 && Pow2(16) == 0x1_0000
    ensures Pow2(24) == 0x100_0000 && Pow2(32) == 0x1_0000_0000
  {
    assert Pow2(4) == 16;
    assert Pow2(8) == 256;
    Pow2Add(8, 8);
    Pow2Add(8, 16);
    Pow2Add(8, 24);
  }

  datatype BitOp = AndOp | OrOp | XorOp

  function OnBits(op: BitOp, a: nat, b: nat): nat {
    match op
    case AndOp => if a == 1 && b == 1 then 1 else 0
    case OrOp => if a == 1 || b == 1 then 1 else 0
    case XorOp => if a != b then 1 else 0
  }

  /** The operator applied bit by bit, lowest bit first. */
  function Bitwise(op: BitOp, x: nat, y: nat): nat
    decreases x + y
  {
    if x == 0 && y == 0 then 0
    else 2 * Bitwise(op, x / 2, y / 2) + OnBits(op, x % 2, y % 2)
  }

  lemma {:induction false} BitwiseBound(op: BitOp, x: nat, y: nat, n: nat)
    requires x < Pow2(n) && y < Pow2(n)
    ensures Bitwise(op, x, y) < Pow2(n)
    decreases n
  {
    if n > 0 && (x > 0 || y > 0) {
      BitwiseBound(op, x / 2, y / 2, n - 1);
    }
  }

  function OnWords(op: BitOp, x: Word, y: Word): Word {
    Pow2Bytes();
    BitwiseBound(op, x, y, 32);
    Bitwise(op, x, y)
  }

  function And(x: Word, y: Word): Word { OnWords(AndOp, x, y) }

  function Or(x: Word, y: Word): Word { OnWords(OrOp, x, y) }

  function Xor(x: Word, y: Word): Word { OnWords(XorOp, x, y) }

  function Not(x: Word): Word { 0xffff_ffff - x }

  // What the operators are, bit by bit and in sums.

  function Bit(x: nat, i: nat): nat
    decreases i
  {
    if i == 0 then x % 2 else Bit(x / 2, i - 1)
  }

  lemma {:induction false} BitwiseAt(op: BitOp, x: nat, y: nat, i: nat)
    ensures Bit(Bitwise(op, x, y), i) == OnBits(op, Bit(x, i), Bit(y, i))
    decreases i
  {
    HalfIs(op, x, y);
    if i > 0 { BitwiseAt(op, x / 2, y / 2, i - 1); }
  }

  lemma {:induction false} BitIsBit(x: nat, i: nat)
    ensures Bit(x, i) == 0 || Bit(x, i) == 1
    decreases i
  {
    if i > 0 { BitIsBit(x / 2, i - 1); }
  }

  /** In each place: both, at least one, or an odd number of ones. */
  lemma BitwiseBits(x: nat, y: nat, i: nat)
    ensures Bit(Bitwise(AndOp, x, y), i) == if Bit(x, i) + Bit(y, i) == 2 then 1 else 0
    ensures Bit(Bitwise(OrOp, x, y), i) == if Bit(x, i) + Bit(y, i) == 0 then 0 else 1
    ensures Bit(Bitwise(XorOp, x, y), i) == (Bit(x, i) + Bit(y, i)) % 2
  {
    hide Bit, Bitwise;
    BitwiseAt(AndOp, x, y, i);
    BitwiseAt(OrOp, x, y, i);
    BitwiseAt(XorOp, x, y, i);
    BitIsBit(x, i);
    BitIsBit(y, i);
  }

  lemma HalfIs(op: BitOp, x: nat, y: nat)
    ensures Bitwise(op, x, y) / 2 == Bitwise(op, x / 2, y / 2)
    ensures Bitwise(op, x, y) % 2 == OnBits(op, x % 2, y % 2)
  {
  }

  /** Exclusive or is the sum without the carries, inclusive or the sum without what both have. */
  lemma {:induction false} BitwiseSums(x: nat, y: nat)
    ensures Bitwise(XorOp, x, y) + 2 * Bitwise(AndOp, x, y) == x + y
    ensures Bitwise(OrOp, x, y) + Bitwise(AndOp, x, y) == x + y
    decreases x + y
  {
    if x > 0 || y > 0 { BitwiseSums(x / 2, y / 2); }
  }

  /** Oring a number below 2^k into a multiple of 2^k adds it. */
  lemma {:induction false} OrDisjoint(high: nat, low: nat, k: nat)
    requires low < Pow2(k)
    ensures Bitwise(OrOp, high * Pow2(k), low) == high * Pow2(k) + low
    decreases k, high
  {
    var x := high * Pow2(k);
    if k == 0 {
      assert x == high && low == 0;
      OrZero(high);
    } else if x > 0 || low > 0 {
      assert x == 2 * (high * Pow2(k - 1)) by { MulSwap(high, Pow2(k - 1)); }
      assert x / 2 == high * Pow2(k - 1) && x % 2 == 0;
      OrDisjoint(high, low / 2, k - 1);
    }
  }

  lemma MulSwap(a: nat, p: nat)
    ensures a * (2 * p) == 2 * (a * p)
  {
  }

  lemma {:induction false} OrZero(x: nat)
    ensures Bitwise(OrOp, x, 0) == x
  {
    if x > 0 { OrZero(x / 2); }
  }

  /** Masking with 0xff keeps the low byte. */
  lemma {:induction false} AndLowBits(x: nat, n: nat)
    ensures Bitwise(AndOp, x, Pow2(n) - 1) == x % Pow2(n)
    decreases n
  {
    if n == 0 {
      AndZero(x);
    } else {
      var p := Pow2(n - 1);
      AndLowBits(x / 2, n - 1);
      assert (Pow2(n) - 1) / 2 == p - 1 && (Pow2(n) - 1) % 2 == 1;
      ModDouble(x, p);
    }
  }

  lemma {:induction false} AndZero(x: nat)
    ensures Bitwise(AndOp, x, 0) == 0
  {
    if x > 0 { AndZero(x / 2); }
  }

  lemma ModDouble(x: nat, p: nat)
    requires p > 0
    ensures x % (2 * p) == 2 * ((x / 2) % p) + x % 2
  {
    var q, r := (x / 2) / p, (x / 2) % p;
    assert x / 2 == p * q + r;
    ModUnique(x, q, 2 * r + x % 2, 2 * p) by {
      assert x == 2 * (x / 2) + x % 2;
      assert x == 2 * (p * q) + 2 * r + x % 2;
      assert 2 * (p * q) == q * (2 * p);
    }
  }

  /** Quotient and remainder are determined by x == q*d + r. */
  lemma ModUnique(x: int, q: int, r: int, d: int)
    requires 0 <= r < d && x == q * d + r
    ensures x % d == r && x / d == q
  {
    DivMod(x, d);
    var k := q - x / d;
    assert k * d == q * d - (x / d) * d;
    if k >= 1 {
      MulAtLeast(k, d);
    } else if k <= -1 {
      MulAtLeast(-k, d);
    }
  }

  lemma DivMod(x: int, d: int)
    requires d > 0
    ensures x == (x / d) * d + x % d && 0 <= x % d < d
  {
  }

  lemma MulAtLeast(k: int, d: int)
    requires k >= 1 && d > 0
    ensures k * d >= d
  {
  }

  lemma {:induction false} Pow2Add(a: nat, b: nat)
    ensures Pow2(a + b) == Pow2(a) * Pow2(b)
  {
    if a > 0 {
      Pow2Add(a - 1, b);
      assert Pow2(a + b) == 2 * Pow2(a - 1 + b);
      MulSwap(Pow2(b), Pow2(a - 1));
    }
  }
}
