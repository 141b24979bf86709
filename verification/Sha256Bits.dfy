/** What the functions and constants of the specification are, bit by bit and number by number. */
module Sha256Bits {
  import opened Basics
  import opened Words
  import opened Numerals
  import opened Sha256Spec

  // The functions of section 4.1.2 on single bits.

  lemma {:induction false} HighBitsZero(x: nat, i: nat)
    requires x < Pow2(i)
    ensures Bit(x, i) == 0
    decreases i
  {
    if i > 0 { HighBitsZero(x / 2, i - 1); }
  }

  lemma {:induction false} BitOfTop(x: nat, n: nat, i: nat)
    requires i <= n && x < Pow2(n)
    ensures forall b :: 0 <= b <= 1 ==> Bit(x + b * Pow2(n), i) == if i == n then b else Bit(x, i)
    decreases i
  {
    forall b | 0 <= b <= 1 ensures Bit(x + b * Pow2(n), i) == if i == n then b else Bit(x, i) {
      if i > 0 {
        BitOfTop(x / 2, n - 1, i - 1);
        assert (x + b * Pow2(n)) / 2 == x / 2 + b * Pow2(n - 1);
      } else if n == 0 {
        assert x == 0;
      } else {
        assert (x + b * Pow2(n)) % 2 == x % 2;
      }
    }
  }

  lemma {:induction false} ShrBits(n: nat, x: Word, i: nat)
    ensures Bit(Shr(n, x), i) == Bit(x, i + n)
    decreases n
  {
    if n > 0 { ShrBits(n - 1, x / 2, i); }
  }

  function Turned(x: Word): Word { x / 2 + (x % 2) * 0x8000_0000 }

  /** One turn moves every bit one place down and the lowest to the top. */
  lemma OneTurn(x: Word, i: nat)
    requires i < 32
    ensures Bit(Turned(x), i) == if i < 31 then Bit(x, i + 1) else Bit(x, 0)
  {
    Pow2Bytes();
    assert Pow2(32) == 2 * Pow2(31);
    BitOfTop(x / 2, 31, i);
    assert Turned(x) == x / 2 + (x % 2) * Pow2(31);
    hide Turned, Pow2;
    if i == 31 {
      assert Bit(x, 0) == x % 2;
    } else {
      assert Bit(x, i + 1) == Bit(x / 2, i);
    }
  }

  lemma {:induction false} RotrBits(n: nat, x: Word, i: nat)
    requires i < 32 && n <= 32
    ensures Bit(Rotr(n, x), i) == Bit(x, (i + n) % 32)
    decreases n
  {
    hide Bit;
    if n > 0 {
      assert Rotr(n, x) == Rotr(n - 1, Turned(x));
      RotrBits(n - 1, Turned(x), i);
      OneTurn(x, (i + n - 1) % 32);
      hide Rotr, Turned;
      NextPlace(i + n);
    }
  }

  lemma NextPlace(k: nat)
    requires 0 < k <= 64
    ensures k % 32 == if (k - 1) % 32 < 31 then (k - 1) % 32 + 1 else 0
  {
  }

  lemma {:induction false} NotAt(x: nat, n: nat, i: nat)
    requires i < n && x < Pow2(n)
    ensures Bit(Pow2(n) - 1 - x, i) == 1 - Bit(x, i)
    decreases i
  {
    var p := Pow2(n - 1);
    assert Pow2(n) == 2 * p;
    assert (Pow2(n) - 1 - x) / 2 == p - 1 - x / 2 && (Pow2(n) - 1 - x) % 2 == 1 - x % 2;
    if i > 0 { NotAt(x / 2, n - 1, i - 1); }
  }

  lemma NotBits(x: Word, i: nat)
    requires i < 32
    ensures Bit(Not(x), i) == 1 - Bit(x, i)
  {
    Pow2Bytes();
    NotAt(x, 32, i);
  }

  lemma WordBits(x: Word, y: Word, i: nat)
    ensures Bit(And(x, y), i) == if Bit(x, i) + Bit(y, i) == 2 then 1 else 0
    ensures Bit(Xor(x, y), i) == (Bit(x, i) + Bit(y, i)) % 2
  {
    hide Bit, Bitwise;
    BitwiseBits(x, y, i);
  }

  /** Ch chooses: where x has a one the bit of y, elsewhere that of z. */
  lemma ChChooses(x: Word, y: Word, z: Word, i: nat)
    requires i < 32
    ensures Bit(Ch(x, y, z), i) == if Bit(x, i) == 1 then Bit(y, i) else Bit(z, i)
  {
    hide Bit, And, Xor, Not;
    WordBits(And(x, y), And(Not(x), z), i);
    WordBits(x, y, i);
    WordBits(Not(x), z, i);
    NotBits(x, i);
    BitIsBit(x, i);
    BitIsBit(y, i);
    BitIsBit(z, i);
  }

  /** Maj goes with the majority. */
  lemma MajCounts(x: Word, y: Word, z: Word, i: nat)
    requires i < 32
    ensures Bit(Maj(x, y, z), i) == if Bit(x, i) + Bit(y, i) + Bit(z, i) >= 2 then 1 else 0
  {
    hide Bit, And, Xor;
    WordBits(Xor(And(x, y), And(x, z)), And(y, z), i);
    WordBits(And(x, y), And(x, z), i);
    WordBits(x, y, i);
    WordBits(x, z, i);
    WordBits(y, z, i);
    BitIsBit(x, i);
    BitIsBit(y, i);
    BitIsBit(z, i);
  }

  /** The parity of three bits of x. */
  function Parity(x: Word, i: nat, j: nat, k: nat): nat { (Bit(x, i % 32) + Bit(x, j % 32) + Bit(x, k % 32)) % 2 }

  lemma XorThree(x: Word, a: Word, b: Word, c: Word, i: nat)
    ensures Bit(Xor(Xor(a, b), c), i) == (Bit(a, i) + Bit(b, i) + Bit(c, i)) % 2
  {
    hide Bit, Xor;
    WordBits(Xor(a, b), c, i);
    WordBits(a, b, i);
  }

  lemma SigmaBits(x: Word, i: nat)
    requires i < 32
    ensures Bit(BigSigma0(x), i) == Parity(x, i + 2, i + 13, i + 22)
    ensures Bit(BigSigma1(x), i) == Parity(x, i + 6, i + 11, i + 25)
  {
    hide Bit, Xor, Rotr;
    XorThree(x, Rotr(2, x), Rotr(13, x), Rotr(22, x), i);
    XorThree(x, Rotr(6, x), Rotr(11, x), Rotr(25, x), i);
    RotrBits(2, x, i);
    RotrBits(13, x, i);
    RotrBits(22, x, i);
    RotrBits(6, x, i);
    RotrBits(11, x, i);
    RotrBits(25, x, i);
  }

  /** The small functions shift once, so a bit beyond the top counts as zero. */
  lemma SmallSigmaBits(x: Word, i: nat)
    requires i < 32
    ensures Bit(SmallSigma0(x), i) == (Bit(x, (i + 7) % 32) + Bit(x, (i + 18) % 32) + Bit(x, i + 3)) % 2
    ensures Bit(SmallSigma1(x), i) == (Bit(x, (i + 17) % 32) + Bit(x, (i + 19) % 32) + Bit(x, i + 10)) % 2
  {
    hide Bit, Xor, Rotr, Shr;
    XorThree(x, Rotr(7, x), Rotr(18, x), Shr(3, x), i);
    XorThree(x, Rotr(17, x), Rotr(19, x), Shr(10, x), i);
    RotrBits(7, x, i);
    RotrBits(18, x, i);
    ShrBits(3, x, i);
    RotrBits(17, x, i);
    RotrBits(19, x, i);
    ShrBits(10, x, i);
  }

  // Section 6.2.2 in plain arithmetic.

  function Mod32(x: nat): Word { x % 0x1_0000_0000 }

  lemma AddMod(x: nat, y: nat)
    ensures Add(Mod32(x), Mod32(y)) == Mod32(x + y)
  {
  }

  lemma WordMod(x: Word)
    ensures Mod32(x) == x
  {
  }

  lemma AddFour(a: Word, b: Word, c: Word, d: Word)
    ensures Add(Add(Add(a, b), c), d) == Mod32(a + b + c + d)
  {
    hide Add, Mod32;
    WordMod(a);
    WordMod(b);
    WordMod(c);
    WordMod(d);
    AddMod(a, b);
    AddMod(a + b, c);
    AddMod(a + b + c, d);
  }

  /** A word of a block is the value of its four bytes, highest first. */
  lemma BlockWordIs(block: seq<Byte>, t: nat)
    requires |block| == 64 && t < 16
    ensures BlockWord(block, t) == Value(256, block[4 * t..4 * t + 4])
  {
    var b: seq<int> := block[4 * t..4 * t + 4];
    assert b[..3][2] == block[4 * t + 2] && b[..3][..2][1] == block[4 * t + 1] && b[..3][..2][..1][0] == block[4 * t];
    assert Value(256, b[..3][..2][..1]) == b[0];
    assert Value(256, b[..3][..2]) == b[0] * 256 + b[1];
    assert Value(256, b[..3]) == (b[0] * 256 + b[1]) * 256 + b[2];
  }

  /** The digest's words start from the roots of the first eight primes, in their order. */
  lemma InitialHashIs(i: nat)
    requires i < 8
    ensures |H0| == |InitialHash().Words()| == 8 && InitialHash().Words()[i] == H0[i].word
  {
  }

  lemma ScheduleIs(w: seq<Word>, t: nat)
    requires 16 <= t <= |w|
    ensures NextWord(w, t) == Mod32(SmallSigma1(w[t - 2]) + w[t - 7] + SmallSigma0(w[t - 15]) + w[t - 16])
  {
    hide SmallSigma0, SmallSigma1, Add, Mod32;
    AddFour(SmallSigma1(w[t - 2]), w[t - 7], SmallSigma0(w[t - 15]), w[t - 16]);
  }

  lemma RoundIs(r: Registers, k: Word, w: Word)
    ensures var t1: nat := r.h + BigSigma1(r.e) + Ch(r.e, r.f, r.g) + k + w;
            var t2: nat := BigSigma0(r.a) + Maj(r.a, r.b, r.c);
            Round(r, k, w) == Registers(Mod32(t1 + t2), r.a, r.b, r.c, Mod32(r.d + t1), r.e, r.f, r.g)
  {
    hide BigSigma0, BigSigma1, Ch, Maj, Add, Mod32;
    var s1, c, s0, m := BigSigma1(r.e), Ch(r.e, r.f, r.g), BigSigma0(r.a), Maj(r.a, r.b, r.c);
    var t1: nat := r.h + s1 + c + k + w;
    AddFour(r.h, s1, c, k);
    WordMod(w);
    var t0: nat := r.h + s1 + c + k;
    AddMod(t0, w);
    var z: nat, y: nat := s0, m;
    WordMod(s0);
    WordMod(m);
    AddMod(z, y);
    var t2: nat := z + y;
    AddMod(t1, t2);
    WordMod(r.d);
    AddMod(r.d, t1);
  }

  // Section 5.1.1: the message, a one bit, zeros, and the length in bits.

  lemma PaddedLayout(m: seq<Byte>)
    requires 8 * |m| < Pow(256, 8)
    ensures var p := Padded(m);
            |m| + 9 <= |p| < |m| + 9 + 64 && p[..|m|] == m && p[|m|] == 0x80
            && (forall i :: |m| < i < |p| - 8 ==> p[i] == 0) && Value(256, p[|p| - 8..]) == 8 * |m|
  {
    hide BigEndian, Pow;
    var p, z := Padded(m), ZeroCount(|m|);
    BigEndianRoundTrip(8 * |m|, 8);
    assert p == m + [0x80] + Zeros(z) + BigEndian(8 * |m|, 8);
    assert p[|p| - 8..] == BigEndian(8 * |m|, 8);
  }

  // Hexadecimal.

  lemma HexDigitIs(n: nat)
    requires n < 16
    ensures HexDigit(n) == if n < 10 then '0' + n as char else 'a' + (n - 10) as char
  {
  }

  /** Two digits a byte, the high one first. */
  lemma {:induction false} HexStringAt(s: seq<Byte>, i: nat)
    requires i < |s|
    ensures HexString(s)[2 * i] == HexDigit(s[i] / 16) && HexString(s)[2 * i + 1] == HexDigit(s[i] % 16)
  {
    hide HexDigit;
    if i > 0 { HexStringAt(s[1..], i - 1); }
  }

  /** Four bytes a word, the highest first. */
  lemma {:induction false} WordBytesAt(w: seq<Word>, i: nat)
    requires i < |w|
    ensures WordBytes(w)[4 * i..4 * i + 4] == BigEndian(w[i], 4)
    decreases |w|
  {
    hide BigEndian;
    var n := |w| - 1;
    if i < n {
      WordBytesAt(w[..n], i);
      assert WordBytes(w)[4 * i..4 * i + 4] == WordBytes(w[..n])[4 * i..4 * i + 4];
    }
  }

  // The constants come from the first primes, in order.

  ghost predicate IsPrime(n: nat) { n >= 2 && forall d :: 2 <= d < n ==> n % d != 0 }

  /** Below 18 * 18 the primes up to 17 decide. */
  predicate Sieved(n: nat) {
    FirstSeven(n)
    || (n >= 2 && n % 2 != 0 && n % 3 != 0 && n % 5 != 0 && n % 7 != 0 && n % 11 != 0 && n % 13 != 0 && n % 17 != 0)
  }

  predicate FirstSeven(n: nat) { n == 2 || n == 3 || n == 5 || n == 7 || n == 11 || n == 13 || n == 17 }

  lemma Multiple(n: nat, d: nat, q: nat)
    requires d > 0 && n == d * q
    ensures n % d == 0
  {
    ModUnique(n, q, 0, d);
  }

  lemma DividesOn(n: nat, m: nat, p: nat)
    requires m > 0 && p > 0 && n % m == 0 && m % p == 0
    ensures n % p == 0
  {
    var q, r := n / m, m / p;
    assert n == m * q && m == p * r;
    assert n == p * (r * q);
    Multiple(n, p, r * q);
  }

  /** Of two factors one is at most 17. */
  lemma SmallerFactor(n: nat, d: nat) returns (m: nat)
    requires 2 <= d < n < 324 && n % d == 0
    ensures 2 <= m <= 17 && m < n && n % m == 0
  {
    var e := n / d;
    DivMod(n, d);
    FactorAbove(n, e, d);
    Multiple(n, e, d);
    OneIsSmall(n, e, d);
    Smaller(n, d, e);
    return if d <= 17 then d else e;
  }

  lemma Smaller(n: nat, d: nat, e: nat)
    requires n == e * d && d >= 2 && n > 0
    ensures e < n
  {
  }

  lemma OneIsSmall(n: nat, e: nat, d: nat)
    requires n == e * d && n < 324
    ensures d <= 17 || e <= 17
  {
    if d >= 18 && e >= 18 {
      Products(e, d);
    }
  }

  lemma FactorAbove(n: nat, e: nat, d: nat)
    requires n == e * d && d < n
    ensures e >= 2
  {
    assert 1 * d == d && 0 * d == 0;
  }

  lemma Products(e: nat, d: nat)
    requires e >= 18 && d >= 18
    ensures e * d >= 324
  {
  }

  lemma SmallFactor(n: nat, m: nat)
    requires 2 <= m <= 17 && m < n && n % m == 0
    ensures !Sieved(n)
  {
    var p := if m % 2 == 0 then 2 else if m % 3 == 0 then 3 else if m % 5 == 0 then 5 else m;
    assert m % p == 0 && FirstSeven(p);
    DividesOn(n, m, p);
  }

  lemma SieveIsPrime(n: nat)
    requires n < 324
    ensures Sieved(n) <==> IsPrime(n)
  {
    if !IsPrime(n) && n >= 2 {
      var d :| 2 <= d < n && n % d == 0;
      var m := SmallerFactor(n, d);
      SmallFactor(n, m);
    }
    if !Sieved(n) && n >= 2 {
      var d := if n % 2 == 0 then 2 else if n % 3 == 0 then 3 else if n % 5 == 0 then 5 else if n % 7 == 0 then 7
               else if n % 11 == 0 then 11 else if n % 13 == 0 then 13 else 17;
      assert n % d == 0 && d < n;
    }
  }

  /** q is the next prime after p. */
  ghost predicate NextPrime(p: nat, q: nat) { p < q && IsPrime(q) && forall n :: p < n < q ==> !IsPrime(n) }

  predicate Follows(p: nat, q: nat) { p < q && Sieved(q) && NoneUpTo(p + 1, q) }

  predicate NoneUpTo(n: nat, q: nat)
    decreases q - n
  {
    n >= q || (!Sieved(n) && NoneUpTo(n + 1, q))
  }

  lemma {:induction false} NoneIsNone(n: nat, q: nat)
    requires NoneUpTo(n, q)
    ensures forall k: nat :: n <= k < q ==> !Sieved(k)
    decreases q - n
  {
    if n < q { NoneIsNone(n + 1, q); }
  }

  lemma FollowsIsNext(p: nat, q: nat)
    requires Follows(p, q) && q < 324
    ensures NextPrime(p, q)
  {
    NoneIsNone(p + 1, q);
    hide IsPrime, Sieved;
    forall n: nat | n <= q ensures Sieved(n) <==> IsPrime(n) { SieveIsPrime(n); }
  }

  /** Each constant of the block comes from the prime after the one before, starting after p. */
  predicate Consecutive(p: nat, k: seq<CubeRoot>) {
    k != [] && Follows(p, k[0].prime) && (forall i :: 0 < i < |k| ==> Follows(k[i - 1].prime, k[i].prime))
    && forall i :: 0 <= i < |k| ==> k[i].prime < 324
  }

  lemma Gaps0()
    ensures Follows(1, 2) && Follows(2, 3) && Follows(3, 5) && Follows(5, 7)
    ensures Follows(7, 11) && Follows(11, 13) && Follows(13, 17) && Follows(17, 19)
  {
  }

  lemma Block0()
    ensures |K0| == 8 && K0[7].prime == 19 && Consecutive(1, K0)
  {
    hide Follows;
    Gaps0();
  }

  lemma Gaps8()
    ensures Follows(19, 23) && Follows(23, 29) && Follows(29, 31) && Follows(31, 37)
    ensures Follows(37, 41) && Follows(41, 43) && Follows(43, 47) && Follows(47, 53)
  {
  }

  lemma Block8()
    ensures |K8| == 8 && K8[7].prime == 53 && Consecutive(19, K8)
  {
    hide Follows;
    Gaps8();
  }

  lemma Gaps16()
    ensures Follows(53, 59) && Follows(59, 61) && Follows(61, 67) && Follows(67, 71)
    ensures Follows(71, 73) && Follows(73, 79) && Follows(79, 83) && Follows(83, 89)
  {
  }

  lemma Block16()
    ensures |K16| == 8 && K16[7].prime == 89 && Consecutive(53, K16)
  {
    hide Follows;
    Gaps16();
  }

  lemma Gaps24()
    ensures Follows(89, 97) && Follows(97, 101) && Follows(101, 103) && Follows(103, 107)
    ensures Follows(107, 109) && Follows(109, 113) && Follows(113, 127) && Follows(127, 131)
  {
  }

  lemma Block24()
    ensures |K24| == 8 && K24[7].prime == 131 && Consecutive(89, K24)
  {
    hide Follows;
    Gaps24();
  }

  lemma Gaps32()
    ensures Follows(131, 137) && Follows(137, 139) && Follows(139, 149) && Follows(149, 151)
    ensures Follows(151, 157) && Follows(157, 163) && Follows(163, 167) && Follows(167, 173)
  {
  }

  lemma Block32()
    ensures |K32| == 8 && K32[7].prime == 173 && Consecutive(131, K32)
  {
    hide Follows;
    Gaps32();
  }

  lemma Gaps40()
    ensures Follows(173, 179) && Follows(179, 181) && Follows(181, 191) && Follows(191, 193)
    ensures Follows(193, 197) && Follows(197, 199) && Follows(199, 211) && Follows(211, 223)
  {
  }

  lemma Block40()
    ensures |K40| == 8 && K40[7].prime == 223 && Consecutive(173, K40)
  {
    hide Follows;
    Gaps40();
  }

  lemma Gaps48()
    ensures Follows(223, 227) && Follows(227, 229) && Follows(229, 233) && Follows(233, 239)
    ensures Follows(239, 241) && Follows(241, 251) && Follows(251, 257) && Follows(257, 263)
  {
  }

  lemma Block48()
    ensures |K48| == 8 && K48[7].prime == 263 && Consecutive(223, K48)
  {
    hide Follows;
    Gaps48();
  }

  lemma Gaps56()
    ensures Follows(263, 269) && Follows(269, 271) && Follows(271, 277) && Follows(277, 281)
    ensures Follows(281, 283) && Follows(283, 293) && Follows(293, 307) && Follows(307, 311)
  {
  }

  lemma Block56()
    ensures |K56| == 8 && K56[7].prime == 311 && Consecutive(263, K56)
  {
    hide Follows;
    Gaps56();
  }

  lemma Joined(p: nat, k: seq<CubeRoot>, m: seq<CubeRoot>)
    requires Consecutive(p, k) && Consecutive(k[|k| - 1].prime, m)
    ensures Consecutive(p, k + m)
  {
    hide Follows;
  }

  lemma AllNext(k: seq<CubeRoot>)
    requires Consecutive(1, k)
    ensures k[0].prime == 2 && forall i :: 0 < i < |k| ==> NextPrime(k[i - 1].prime, k[i].prime)
  {
    assert Sieved(2);
    NoneIsNone(2, k[0].prime);
    assert k[0].prime == 2;
    hide Follows, NextPrime;
    forall i | 0 < i < |k| ensures NextPrime(k[i - 1].prime, k[i].prime) {
      FollowsIsNext(k[i - 1].prime, k[i].prime);
    }
  }

  lemma InitialPrimes()
    ensures |H0| == |K0| == 8 && forall i :: 0 <= i < 8 ==> H0[i].prime == K0[i].prime
  {
  }

  /** The constants come from the first 64 primes, in order, and those of the initial value from the first eight. */
  lemma ConstantsFromFirstPrimes()
    ensures |K| == 64 && K[0].prime == 2 && forall i :: 0 < i < 64 ==> NextPrime(K[i - 1].prime, K[i].prime)
    ensures |H0| == 8 && forall i :: 0 <= i < 8 ==> H0[i].prime == K[i].prime
  {
    hide Follows, Consecutive;
    Block0();
    Block8();
    Block16();
    Block24();
    Block32();
    Block40();
    Block48();
    Block56();
    Joined(1, K0, K8);
    Joined(1, K0 + K8, K16);
    Joined(1, K0 + K8 + K16, K24);
    Joined(1, K0 + K8 + K16 + K24, K32);
    Joined(1, K0 + K8 + K16 + K24 + K32, K40);
    Joined(1, K0 + K8 + K16 + K24 + K32 + K40, K48);
    Joined(1, K0 + K8 + K16 + K24 + K32 + K40 + K48, K56);
    AllNext(K);
    InitialPrimes();
  }
}
