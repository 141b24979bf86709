/** SHA-256 as FIPS 180-4 states it, on messages of whole bytes. */
module Sha256Spec {
  import opened Basics
  import opened Words
  import opened Numerals

  // Section 3.2: the operations on words.

  function Add(x: Word, y: Word): Word {
    if x + y < 0x1_0000_0000 then x + y else x + y - 0x1_0000_0000
  }

  lemma AddIsModular(x: Word, y: Word)
    ensures Add(x, y) == (x + y) % 0x1_0000_0000
  {
  }

  function Shr(n: nat, x: Word): Word
    decreases n, x
  {
    if n == 0 then x else Shr(n - 1, x / 2)
  }

  /** n turns by one place: the lowest bit comes out at the top. */
  function Rotr(n: nat, x: Word): Word
    decreases n, x
  {
    if n == 0 then x else Rotr(n - 1, x / 2 + (x % 2) * 0x8000_0000)
  }

  // Section 4.1.2: the functions.

  function Ch(x: Word, y: Word, z: Word): Word { Xor(And(x, y), And(Not(x), z)) }

  function Maj(x: Word, y: Word, z: Word): Word { Xor(Xor(And(x, y), And(x, z)), And(y, z)) }

  function BigSigma0(x: Word): Word { Xor(Xor(Rotr(2, x), Rotr(13, x)), Rotr(22, x)) }

  function BigSigma1(x: Word): Word { Xor(Xor(Rotr(6, x), Rotr(11, x)), Rotr(25, x)) }

  function SmallSigma0(x: Word): Word { Xor(Xor(Rotr(7, x), Rotr(18, x)), Shr(3, x)) }

  function SmallSigma1(x: Word): Word { Xor(Xor(Rotr(17, x), Rotr(19, x)), Shr(10, x)) }

  // Section 6.2.2: the message schedule and the rounds.

  datatype Registers = Registers(a: Word, b: Word, c: Word, d: Word, e: Word, f: Word, g: Word, h: Word)
  {
    function Plus(r: Registers): Registers {
      Registers(Add(a, r.a), Add(b, r.b), Add(c, r.c), Add(d, r.d),
                Add(e, r.e), Add(f, r.f), Add(g, r.g), Add(h, r.h))
    }

    function Words(): seq<Word> { [a, b, c, d, e, f, g, h] }
  }

  function BlockWord(block: seq<Byte>, t: nat): Word
    requires |block| == 64 && t < 16
  {
    var b0: int, b1: int, b2: int, b3: int := block[4 * t], block[4 * t + 1], block[4 * t + 2], block[4 * t + 3];
    b0 * 0x100_0000 + b1 * 0x1_0000 + b2 * 0x100 + b3
  }

  /** Word t of the schedule from the words before it. */
  function NextWord(w: seq<Word>, t: nat): Word
    requires 16 <= t <= |w|
  {
    Add(Add(Add(SmallSigma1(w[t - 2]), w[t - 7]), SmallSigma0(w[t - 15])), w[t - 16])
  }

  /** The schedule: the words of the block, then each word from the ones before it. */
  function Schedule(block: seq<Byte>): (w: seq<Word>)
    requires |block| == 64
    ensures |w| == |K|
  {
    Extended(seq(16, (t: nat) requires t < 16 => BlockWord(block, t)))
  }

  function Extended(w: seq<Word>): (s: seq<Word>)
    requires 16 <= |w| <= |K|
    ensures |s| == |K|
    decreases |K| - |w|
  {
    if |w| == |K| then w else Extended(w + [NextWord(w, |w|)])
  }

  function Round(r: Registers, k: Word, w: Word): Registers {
    var t1 := Add(Add(Add(Add(r.h, BigSigma1(r.e)), Ch(r.e, r.f, r.g)), k), w);
    var t2 := Add(BigSigma0(r.a), Maj(r.a, r.b, r.c));
    Registers(Add(t1, t2), r.a, r.b, r.c, Add(r.d, t1), r.e, r.f, r.g)
  }

  function Rounds(r: Registers, w: seq<Word>): Registers
    requires |w| <= |K|
  {
    if w == [] then r
    else Round(Rounds(r, w[..|w| - 1]), K[|w| - 1].word, w[|w| - 1])
  }

  type Block = b: seq<Byte> | |b| == 64 witness Zeros(64)

  function Compress(r: Registers, block: Block): Registers {
    r.Plus(Rounds(r, Schedule(block)))
  }

  /** A step applied to every 64-byte block of a message, in order. */
  function FoldBlocks<S>(step: (S, Block) -> S, s: S, m: seq<Byte>): S
    requires |m| % 64 == 0
    decreases |m|
  {
    if m == [] then s else FoldBlocks(step, step(s, m[..64]), m[64..])
  }

  /** The hash values after all the blocks of a padded message. */
  function HashBlocks(r: Registers, m: seq<Byte>): Registers
    requires |m| % 64 == 0
  {
    FoldBlocks(Compress, r, m)
  }

  // Section 5.1.1: the padding.

  function Zeros(n: nat): (z: seq<Byte>)
    ensures |z| == n
  {
    seq(n, _ => 0)
  }

  /** Zero bytes between the 1 bit (with its seven 0 bits) and the length. */
  function ZeroCount(n: nat): nat { (119 - n % 64) % 64 }

  /** n in `width` bytes, most significant first. */
  function BigEndian(n: nat, width: nat): (s: seq<Byte>)
    ensures |s| == width
    decreases width
  {
    if width == 0 then [] else BigEndian(n / 256, width - 1) + [n % 256]
  }

  function Padding(n: nat): seq<Byte> {
    [0x80] + Zeros(ZeroCount(n)) + BigEndian(8 * n, 8)
  }

  lemma PaddingFills(n: nat)
    ensures (n + |Padding(n)|) % 64 == 0
  {
    hide BigEndian, Zeros;
    ZerosFill(n / 64, n % 64);
    assert n == 64 * (n / 64) + n % 64;
  }

  lemma ZerosFill(q: nat, r: nat)
    requires r < 64
    ensures 64 * q + r + 9 + (119 - r) % 64 == if r <= 55 then 64 * (q + 1) else 64 * (q + 2)
  {
  }

  function Padded(m: seq<Byte>): (p: seq<Byte>)
    ensures |p| % 64 == 0
  {
    PaddingFills(|m|);
    m + Padding(|m|)
  }

  function InitialHash(): Registers {
    Registers(H0[0].word, H0[1].word, H0[2].word, H0[3].word, H0[4].word, H0[5].word, H0[6].word, H0[7].word)
  }

  function Digest(m: seq<Byte>): Registers {
    HashBlocks(InitialHash(), Padded(m))
  }

  function WordBytes(w: seq<Word>): (s: seq<Byte>)
    ensures |s| == 4 * |w|
  {
    if w == [] then [] else WordBytes(w[..|w| - 1]) + BigEndian(w[|w| - 1], 4)
  }

  function HexDigit(n: nat): (c: char)
    requires n < 16
  {
    "0123456789abcdef"[n]
  }

  function HexString(s: seq<Byte>): (t: string)
    ensures |t| == 2 * |s|
  {
    if s == [] then [] else [HexDigit(s[0] / 16), HexDigit(s[0] % 16)] + HexString(s[1..])
  }

  function Sha256Hex(m: seq<Byte>): (t: string)
    ensures |t| == 64
  {
    HexString(WordBytes(Digest(m).Words()))
  }

  // Sections 4.2.2 and 5.3.3: the constants, each with the prime it comes from and the
  // integer part of the root. The types admit no word that is not the root's fraction.

  datatype Constant = Constant(word: Word, prime: nat, root: nat)
  {
    /** The root as a fixed-point number with 32 fractional bits. */
    function Scaled(): nat { root * 0x1_0000_0000 + word }
  }

  /** The first 32 bits of the fraction of the square root of a prime. */
  type SquareRoot = c: Constant |
    c.Scaled() * c.Scaled() <= c.prime * 0x1_0000_0000_0000_0000 < (c.Scaled() + 1) * (c.Scaled() + 1)
    witness Constant(0x6a09e667, 2, 1)

  /** The first 32 bits of the fraction of the cube root of a prime. */
  type CubeRoot = c: Constant |
    c.Scaled() * c.Scaled() * c.Scaled() <= c.prime * 0x1_0000_0000_0000_0000_0000_0000
    < (c.Scaled() + 1) * (c.Scaled() + 1) * (c.Scaled() + 1)
    witness Constant(0x428a2f98, 2, 1)

  const H0: seq<SquareRoot> := [
    Constant(0x6a09e667, 2, 1), Constant(0xbb67ae85, 3, 1), Constant(0x3c6ef372, 5, 2),
    Constant(0xa54ff53a, 7, 2), Constant(0x510e527f, 11, 3), Constant(0x9b05688c, 13, 3),
    Constant(0x1f83d9ab, 17, 4), Constant(0x5be0cd19, 19, 4)
  ]

  const K0: seq<CubeRoot> := [
    Constant(0x428a2f98, 2, 1), Constant(0x71374491, 3, 1), Constant(0xb5c0fbcf, 5, 1),
    Constant(0xe9b5dba5, 7, 1), Constant(0x3956c25b, 11, 2), Constant(0x59f111f1, 13, 2),
    Constant(0x923f82a4, 17, 2), Constant(0xab1c5ed5, 19, 2)
  ]

  const K8: seq<CubeRoot> := [
    Constant(0xd807aa98, 23, 2), Constant(0x12835b01, 29, 3), Constant(0x243185be, 31, 3),
    Constant(0x550c7dc3, 37, 3), Constant(0x72be5d74, 41, 3), Constant(0x80deb1fe, 43, 3),
    Constant(0x9bdc06a7, 47, 3), Constant(0xc19bf174, 53, 3)
  ]

  const K16: seq<CubeRoot> := [
    Constant(0xe49b69c1, 59, 3), Constant(0xefbe4786, 61, 3), Constant(0x0fc19dc6, 67, 4),
    Constant(0x240ca1cc, 71, 4), Constant(0x2de92c6f, 73, 4), Constant(0x4a7484aa, 79, 4),
    Constant(0x5cb0a9dc, 83, 4), Constant(0x76f988da, 89, 4)
  ]

  const K24: seq<CubeRoot> := [
    Constant(0x983e5152, 97, 4), Constant(0xa831c66d, 101, 4), Constant(0xb00327c8, 103, 4),
    Constant(0xbf597fc7, 107, 4), Constant(0xc6e00bf3, 109, 4), Constant(0xd5a79147, 113, 4),
    Constant(0x06ca6351, 127, 5), Constant(0x14292967, 131, 5)
  ]

  const K32: seq<CubeRoot> := [
    Constant(0x27b70a85, 137, 5), Constant(0x2e1b2138, 139, 5), Constant(0x4d2c6dfc, 149, 5),
    Constant(0x53380d13, 151, 5), Constant(0x650a7354, 157, 5), Constant(0x766a0abb, 163, 5),
    Constant(0x81c2c92e, 167, 5), Constant(0x92722c85, 173, 5)
  ]

  const K40: seq<CubeRoot> := [
    Constant(0xa2bfe8a1, 179, 5), Constant(0xa81a664b, 181, 5), Constant(0xc24b8b70, 191, 5),
    Constant(0xc76c51a3, 193, 5), Constant(0xd192e819, 197, 5), Constant(0xd6990624, 199, 5),
    Constant(0xf40e3585, 211, 5), Constant(0x106aa070, 223, 6)
  ]

  const K48: seq<CubeRoot> := [
    Constant(0x19a4c116, 227, 6), Constant(0x1e376c08, 229, 6), Constant(0x2748774c, 233, 6),
    Constant(0x34b0bcb5, 239, 6), Constant(0x391c0cb3, 241, 6), Constant(0x4ed8aa4a, 251, 6),
    Constant(0x5b9cca4f, 257, 6), Constant(0x682e6ff3, 263, 6)
  ]

  const K56: seq<CubeRoot> := [
    Constant(0x748f82ee, 269, 6), Constant(0x78a5636f, 271, 6), Constant(0x84c87814, 277, 6),
    Constant(0x8cc70208, 281, 6), Constant(0x90befffa, 283, 6), Constant(0xa4506ceb, 293, 6),
    Constant(0xbef9a3f7, 307, 6), Constant(0xc67178f2, 311, 6)
  ]

  const K: seq<CubeRoot> := K0 + K8 + K16 + K24 + K32 + K40 + K48 + K56

  /** Hashing can stop and go on at any block boundary. */
  lemma {:induction false} FoldBlocksAppend<S>(step: (S, Block) -> S, s: S, m: seq<Byte>, n: seq<Byte>)
    requires |m| % 64 == 0 && |n| % 64 == 0
    ensures FoldBlocks(step, s, m + n) == FoldBlocks(step, FoldBlocks(step, s, m), n)
    decreases |m|
  {
    if m == [] {
      assert m + n == n;
    } else {
      assert (m + n)[..64] == m[..64] && (m + n)[64..] == m[64..] + n;
      FoldBlocksAppend(step, step(s, m[..64]), m[64..], n);
    }
  }

  /** One more whole block after a prefix of whole blocks. */
  lemma FoldBlocksStep<S>(step: (S, Block) -> S, s: S, m: seq<Byte>, p: nat)
    requires p % 64 == 0 && p + 64 <= |m|
    ensures FoldBlocks(step, s, m[..p + 64]) == step(FoldBlocks(step, s, m[..p]), m[p..p + 64])
  {
    var last := m[p..p + 64];
    assert m[..p + 64] == m[..p] + last;
    FoldBlocksAppend(step, s, m[..p], last);
    assert last[..64] == last && last[64..] == [];
  }

  /** The next 64 bytes take the hash values on by one compression. */
  lemma HashBlocksStep(r: Registers, m: seq<Byte>, p: nat)
    requires p % 64 == 0 && p + 64 <= |m|
    ensures HashBlocks(r, m[..p + 64]) == Compress(HashBlocks(r, m[..p]), m[p..p + 64])
  {
    hide Compress, FoldBlocks;
    FoldBlocksStep(Compress, r, m, p);
  }

  /** The padding is the shortest that leaves room for the length and fills the last block. */
  lemma PaddingIsLeast(m: seq<Byte>, z: nat)
    requires (|m| + 1 + z + 8) % 64 == 0
    ensures ZeroCount(|m|) <= z
  {
    assert (|m| % 64 + 9 + z) % 64 == 0;
  }

  /** Reading the bytes back gives the number, when it fits. */
  lemma {:induction false} BigEndianRoundTrip(n: nat, width: nat)
    requires n < Pow(256, width)
    ensures Value(256, BigEndian(n, width)) == n
    decreases width
  {
    if width > 0 {
      assert n / 256 < Pow(256, width - 1);
      BigEndianRoundTrip(n / 256, width - 1);
      assert BigEndian(n, width)[..width - 1] == BigEndian(n / 256, width - 1);
    }
  }

  /** Different byte strings of one length never share a hexadecimal form. */
  lemma {:induction false} HexStringInjective(s: seq<Byte>, t: seq<Byte>)
    requires HexString(s) == HexString(t)
    ensures s == t
  {
    if s != [] {
      assert |s| == |t|;
      var x, y := HexString(s), HexString(t);
      assert x[0] == HexDigit(s[0] / 16) && y[0] == HexDigit(t[0] / 16);
      assert x[1] == HexDigit(s[0] % 16) && y[1] == HexDigit(t[0] % 16);
      HexDigitInjective(s[0] / 16, t[0] / 16);
      HexDigitInjective(s[0] % 16, t[0] % 16);
      assert HexString(s[1..]) == x[2..] && HexString(t[1..]) == y[2..];
      HexStringInjective(s[1..], t[1..]);
      assert s == [s[0]] + s[1..] && t == [t[0]] + t[1..];
    } else {
      assert |t| == 0;
    }
  }

  lemma HexDigitInjective(m: nat, n: nat)
    requires m < 16 && n < 16 && HexDigit(m) == HexDigit(n)
    ensures m == n
  {
  }
}
