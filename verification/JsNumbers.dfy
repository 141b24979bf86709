/** The 32-bit integer operators of JavaScript on (exactly represented) numbers. */
module JsNumbers {
  import opened Basics
  import opened Words

  function ToUint32(x: int): Word {
    x % 0x1_0000_0000
  }

  /** Bitwise operators give signed results: the sign bit counts negative. */
  function ToInt32(x: int): int {
    var u := ToUint32(x);
    if u < 0x8000_0000 then u else u - 0x1_0000_0000
  }

  function BitAnd(x: int, y: int): int { ToInt32(And(ToUint32(x), ToUint32(y))) }

  function BitOr(x: int, y: int): int { ToInt32(Or(ToUint32(x), ToUint32(y))) }

  function BitXor(x: int, y: int): int { ToInt32(Xor(ToUint32(x), ToUint32(y))) }

  function BitNot(x: int): int { -ToInt32(x) - 1 }

  function Shl(x: int, n: nat): int
    requires n < 32
  {
    ToInt32(ToUint32(x) * Pow2(n))
  }

  function ShrUnsigned(x: int, n: nat): Word
    requires n < 32
  {
    QuotientBound(ToUint32(x), Pow2(n));
    ToUint32(x) / Pow2(n)
  }

  lemma QuotientBound(x: nat, d: nat)
    requires d > 0
    ensures 0 <= x / d <= x
  {
    DivMod(x, d);
    if x / d >= 1 {
      MulAtLeast(d, x / d);
    }
  }

  /** Doubles hold every integer of this range exactly. */
  ghost predicate IsSafe(x: int) {
    -0x20_0000_0000_0000 < x < 0x20_0000_0000_0000
  }

  lemma SignDoesNotMatter(x: int)
    ensures ToUint32(ToInt32(x)) == ToUint32(x)
    ensures ToUint32(BitNot(x)) == Not(ToUint32(x))
  {
  }

  lemma WordIsItself(x: Word)
    ensures ToUint32(x) == x
  {
  }

  /** Truncating once at the end equals truncating after every addition. */
  lemma TruncateSum(x: int, y: int)
    ensures ToUint32(x + y) == (ToUint32(x) + ToUint32(y)) % 0x1_0000_0000
  {
  }

  lemma ShlIsProduct(x: int, n: nat)
    requires n < 32
    ensures ToUint32(Shl(x, n)) == (ToUint32(x) % Pow2(32 - n)) * Pow2(n)
  {
    var u, d, p := ToUint32(x), Pow2(32 - n), Pow2(n);
    Pow2Bytes();
    Pow2Add(32 - n, n);
    SignDoesNotMatter(u * p);
    DivMod(u, d);
    Distribute(u / d, d, u % d, p);
    ScaledBound(u % d, d, p);
    ModUnique(u * p, u / d, (u % d) * p, 0x1_0000_0000);
  }

  lemma Distribute(q: int, d: int, r: int, p: int)
    ensures (q * d + r) * p == q * (d * p) + r * p
  {
    assert (q * d + r) * p == (q * d) * p + r * p;
    assert (q * d) * p == q * (d * p);
  }

  lemma ScaledBound(r: nat, d: nat, p: nat)
    requires r < d && p > 0
    ensures 0 <= r * p < d * p
  {
    assert (d - r) * p >= p by { MulAtLeast(d - r, p); }
  }

  /** Bytes shifted into disjoint places and ored together are summed. */
  lemma PackedBytes(b0: Byte, b1: Byte, b2: Byte, b3: Byte)
    ensures ToUint32(BitOr(BitOr(BitOr(Shl(b0, 24), Shl(b1, 16)), Shl(b2, 8)), b3))
            == b0 * 0x100_0000 + b1 * 0x1_0000 + b2 * 0x100 + b3
  {
    assert ToUint32(BitOr(Shl(b0, 24), Shl(b1, 16))) == (b0 * 0x100 + b1) * 0x1_0000 by {
      Pow2Bytes();
      ByteShifted(b0, 24, 0x100_0000);
      ByteShifted(b1, 16, 0x1_0000);
      OrInto(Shl(b0, 24), Shl(b1, 16), b0, 24, 0x100_0000);
    }
    PackedLowBytes(BitOr(Shl(b0, 24), Shl(b1, 16)), b0 * 0x100 + b1, b2, b3);
  }

  lemma PackedLowBytes(x: int, high: nat, b2: Byte, b3: Byte)
    requires high < 0x1_0000 && ToUint32(x) == high * 0x1_0000
    ensures ToUint32(BitOr(BitOr(x, Shl(b2, 8)), b3)) == high * 0x1_0000 + b2 * 0x100 + b3
  {
    assert ToUint32(BitOr(x, Shl(b2, 8))) == (high * 0x100 + b2) * 0x100 by {
      Pow2Bytes();
      ByteShifted(b2, 8, 0x100);
      OrInto(x, Shl(b2, 8), high, 16, 0x1_0000);
    }
    PackedLastByte(BitOr(x, Shl(b2, 8)), high * 0x100 + b2, b3);
  }

  lemma PackedLastByte(x: int, high: nat, b3: Byte)
    requires high < 0x100_0000 && ToUint32(x) == high * 0x100
    ensures ToUint32(BitOr(x, b3)) == high * 0x100 + b3
  {
    hide BitOr, Pow2, ToUint32;
    Pow2Bytes();
    WordIsItself(b3);
    OrInto(x, b3, high, 8, 0x100);
  }

  lemma ByteShifted(b: Byte, n: nat, p: nat)
    requires n in {8, 16, 24} && p == Pow2(n)
    ensures ToUint32(Shl(b, n)) == b * p
  {
    hide Shl, ToUint32;
    Pow2Bytes();
    WordIsItself(b);
    ShlIsProduct(b, n);
  }

  lemma OrInto(x: int, y: int, high: nat, k: nat, p: nat)
    requires p == Pow2(k) && ToUint32(x) == high * p && ToUint32(y) < p
    ensures ToUint32(BitOr(x, y)) == high * p + ToUint32(y)
  {
    hide Bitwise;
    OrDisjoint(high, ToUint32(y), k);
    SignDoesNotMatter(Or(ToUint32(x), ToUint32(y)));
  }

  /** Byte k of a word, as (x >>> 8k) & 0xff extracts it. */
  lemma LowByte(x: int)
    ensures BitAnd(x, 0xff) == ToUint32(x) % 0x100
  {
    Pow2Bytes();
    AndLowBits(ToUint32(x), 8);
  }

  /** x & 0xff */
  function Masked(x: int): Byte {
    LowByte(x);
    BitAnd(x, 0xff)
  }
}
