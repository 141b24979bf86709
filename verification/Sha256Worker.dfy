/** The incremental hasher of the hashing worker, refining FIPS 180-4. */
module Sha256Worker {
  import opened Basics
  import opened Words
  import opened Numerals
  import opened JsNumbers
  import opened Sha256Spec
  import opened Sha256Words

  /** The length of the part of n bytes that fills whole blocks. */
  function Whole(n: nat): (p: nat)
    ensures p % 64 == 0 && p <= n < p + 64
  {
    n - n % 64
  }

  lemma WholeUnique(n: nat, p: nat, tail: nat)
    requires p % 64 == 0 && tail < 64 && n == p + tail
    ensures p == Whole(n) && tail == n % 64
  {
  }

  class Sha256 {
    var h: array<Word>
    var buffer: array<Byte>
    var bufferLen: nat
    var totalLen: nat
    /** Everything passed to Update so far. */
    ghost var message: seq<Byte>

    ghost predicate Shape()
      reads this
    {
      h.Length == 8 && buffer.Length == 64 && h as object != buffer
    }

    function State(): Registers
      reads this, h
      requires h.Length == 8
    {
      Registers(h[0], h[1], h[2], h[3], h[4], h[5], h[6], h[7])
    }

    /** h has absorbed the first p bytes of m, and the buffer holds the next bufferLen. */
    ghost predicate Absorbed(m: seq<Byte>, p: nat)
      reads this, h, buffer
      requires Shape()
    {
      && p % 64 == 0 && p + bufferLen <= |m| && bufferLen <= 64
      && State() == HashBlocks(InitialHash(), m[..p])
      && buffer[..bufferLen] == m[p..p + bufferLen]
    }

    /** h is the fold of compression over the complete blocks, the buffer holds the tail. */
    ghost predicate Valid()
      reads this, h, buffer
    {
      && Shape()
      && totalLen == |message| && bufferLen == |message| % 64
      && Absorbed(message, Whole(|message|))
    }

    constructor ()
      ensures Valid() && message == [] && fresh(h) && fresh(buffer)
    {
      h := new Word[8](i requires 0 <= i < 8 => H0[i].word);
      buffer := new Byte[64](_ => 0);
      bufferLen := 0;
      totalLen := 0;
      message := [];
    }

    /** The first two loops of processBlock. */
    method MessageSchedule(block: Block) returns (w: array<Word>)
      ensures fresh(w) && w[..] == Schedule(block)
    {
      hide BitOr, BitXor, Shl, ShrUnsigned, JsRotr, ToUint32, NextWord, BlockWord, Extended, Schedule;
      w := new Word[64];
      for i := 0 to 16
        invariant forall j :: 0 <= j < i ==> w[j] == BlockWord(block, j)
      {
        BlockWordRead(block, i);
        w[i] := ToUint32(BitOr(BitOr(BitOr(Shl(block[i * 4], 24), Shl(block[i * 4 + 1], 16)),
                                     Shl(block[i * 4 + 2], 8)), block[i * 4 + 3]));
      }
      ghost var sched := Schedule(block);
      ScheduleStarts(block, w[..16]);
      for i := 16 to 64
        invariant Extended(w[..i]) == sched
      {
        ghost var before := w[..i];
        var s0 := BitXor(BitXor(JsRotr(7, w[i - 15]), JsRotr(18, w[i - 15])), ShrUnsigned(w[i - 15], 3));
        var s1 := BitXor(BitXor(JsRotr(17, w[i - 2]), JsRotr(19, w[i - 2])), ShrUnsigned(w[i - 2], 10));
        NextWordRefined(before, i, s0, s1);
        ScheduleGrows(before);
        w[i] := ToUint32(w[i - 16] + s0 + w[i - 7] + s1);
        assert w[..i + 1] == before + [NextWord(before, i)];
      }
      assert w[..] == w[..64];
      ScheduleEnds(w[..]);
    }

    method ProcessBlock(block: Block)
      requires Shape()
      modifies h
      ensures State() == Compress(old(State()), block)
    {
      hide BitXor, BitAnd, BitNot, ShrUnsigned, JsRotr, ToUint32, Add, Round, Rounds, Schedule, Compress;
      var w := MessageSchedule(block);
      ghost var sched := w[..];
      ghost var start := State();
      RoundsStart(start, sched);
      var a: Word, b: Word, c: Word, d: Word := h[0], h[1], h[2], h[3];
      var e: Word, f: Word, g: Word, hh: Word := h[4], h[5], h[6], h[7];
      for i := 0 to 64
        invariant w[..] == sched && Registers(a, b, c, d, e, f, g, hh) == Rounds(start, sched[..i])
        invariant unchanged(h)
      {
        ghost var r := Registers(a, b, c, d, e, f, g, hh);
        var S1 := BitXor(BitXor(JsRotr(6, e), JsRotr(11, e)), JsRotr(25, e));
        var ch := BitXor(BitAnd(e, f), BitAnd(BitNot(e), g));
        assert IsSafe(hh + S1 + ch + K[i].word + w[i]) by {
          XorRange(BitXor(JsRotr(6, e), JsRotr(11, e)), JsRotr(25, e));
          XorRange(BitAnd(e, f), BitAnd(BitNot(e), g));
        }
        var temp1: int := ToUint32(hh + S1 + ch + K[i].word + w[i]);
        var S0 := BitXor(BitXor(JsRotr(2, a), JsRotr(13, a)), JsRotr(22, a));
        var maj := BitXor(BitXor(BitAnd(a, b), BitAnd(a, c)), BitAnd(b, c));
        var temp2: int := ToUint32(S0 + maj);
        RoundRefined(r, K[i].word, w[i], S1, ch, S0, maj);
        RoundsStep(start, sched, i);
        hh := g;
        g := f;
        f := e;
        e := ToUint32(d + temp1);
        d := c;
        c := b;
        b := a;
        a := ToUint32(temp1 + temp2);
      }
      Truncated(start, block, Registers(a, b, c, d, e, f, g, hh));
      h[0] := ToUint32(h[0] + a);
      h[1] := ToUint32(h[1] + b);
      h[2] := ToUint32(h[2] + c);
      h[3] := ToUint32(h[3] + d);
      h[4] := ToUint32(h[4] + e);
      h[5] := ToUint32(h[5] + f);
      h[6] := ToUint32(h[6] + g);
      h[7] := ToUint32(h[7] + hh);
    }

    /** The typed-array call buffer.set(data, at). */
    method SetBuffer(data: seq<Byte>, at: nat)
      requires Shape() && at + |data| <= 64
      modifies buffer
      ensures buffer[..] == old(buffer[..at]) + data + old(buffer[at + |data|..])
    {
      forall k | 0 <= k < |data| {
        buffer[at + k] := data[k];
      }
    }

    /** ProcessBlock on the next block of m takes the hash values on by one block. */
    method ProcessNext(block: Block, ghost m: seq<Byte>, ghost p: nat)
      requires Shape() && p % 64 == 0 && p + 64 <= |m| && block == m[p..p + 64]
      requires State() == HashBlocks(InitialHash(), m[..p])
      modifies h
      ensures State() == HashBlocks(InitialHash(), m[..p + 64])
    {
      hide Compress, HashBlocks, InitialHash;
      HashBlocksStep(InitialHash(), m, p);
      ProcessBlock(block);
    }

    /** One turn of Update's loop: a block straight from the data, while the buffer is empty. */
    method ProcessFrom(data: seq<Byte>, offset: nat, ghost m: seq<Byte>, ghost p: nat)
      requires Shape() && Absorbed(m, p) && bufferLen == 0
      requires m == message + data && |message| + offset == p && offset + 64 <= |data|
      modifies h
      ensures Absorbed(m, p + 64)
    {
      hide HashBlocks, InitialHash;
      assert data[offset..offset + 64] == m[p..p + 64];
      ProcessNext(data[offset..offset + 64], m, p);
    }

    /** The first stage of Update: fill up the partly filled buffer and absorb it when full. */
    method TopUp(data: seq<Byte>, ghost m: seq<Byte>) returns (offset: nat, ghost p: nat)
      requires Valid() && m == message + data
      modifies this`bufferLen, h, buffer
      ensures Shape() && Absorbed(m, p) && bufferLen < 64
      ensures offset <= |data| && |message| + offset == p + bufferLen
      ensures bufferLen > 0 ==> offset == |data|
    {
      hide HashBlocks, InitialHash, Whole;
      offset := 0;
      ghost var n := |message|;
      p := Whole(n);
      assert m[..p] == message[..p] && m[p..n] == message[p..n];
      if bufferLen > 0 {
        var need := 64 - bufferLen;
        var copy := if need < |data| then need else |data|;
        FillBuffer(data, copy, m, p);
        offset := copy;
        if bufferLen == 64 {
          ProcessBuffer(m, p);
          bufferLen := 0;
          p := p + 64;
        }
      }
    }

    /** More of the data behind what the buffer holds. */
    method FillBuffer(data: seq<Byte>, copy: nat, ghost m: seq<Byte>, ghost p: nat)
      requires Shape() && Absorbed(m, p) && m == message + data
      requires p + bufferLen == |message| && copy <= |data| && bufferLen + copy <= 64
      modifies this`bufferLen, buffer
      ensures bufferLen == old(bufferLen) + copy && Absorbed(m, p)
    {
      hide HashBlocks, InitialHash;
      assert buffer[..bufferLen] == message[p..];
      SetBuffer(data[..copy], bufferLen);
      Filled(buffer[..], old(buffer[..]), message, data, p, bufferLen, copy);
      bufferLen := bufferLen + copy;
    }

    /** A full buffer is absorbed. */
    method ProcessBuffer(ghost m: seq<Byte>, ghost p: nat)
      requires Shape() && Absorbed(m, p) && bufferLen == 64
      modifies h
      ensures Shape() && p + 64 <= |m| && (p + 64) % 64 == 0
      ensures State() == HashBlocks(InitialHash(), m[..p + 64])
    {
      hide HashBlocks, InitialHash;
      assert buffer[..] == buffer[..64];
      ProcessNext(buffer[..], m, p);
    }

    /** The last stage of Update: keep the bytes that do not fill a block. */
    method KeepRest(data: seq<Byte>, offset: nat, ghost m: seq<Byte>, ghost p: nat)
      requires Shape() && Absorbed(m, p) && m == message + data && totalLen == |message|
      requires offset <= |data| < offset + 64 && |message| + offset == p + bufferLen && bufferLen < 64
      requires bufferLen > 0 ==> offset == |data|
      modifies this`bufferLen, this`totalLen, this`message, buffer
      ensures Valid() && message == m
    {
      hide HashBlocks, InitialHash, Whole;
      if offset < |data| {
        var remaining := |data| - offset;
        SetBuffer(data[offset..], 0);
        bufferLen := remaining;
        assert buffer[..bufferLen] == m[p..p + bufferLen];
      }
      WholeUnique(|m|, p, bufferLen);
      totalLen := totalLen + |data|;
      message := m;
    }

    method Update(data: seq<Byte>)
      requires Valid()
      modifies this, h, buffer
      ensures Valid() && message == old(message) + data
      ensures h == old(h) && buffer == old(buffer)
    {
      hide Absorbed, Whole;
      ghost var m := message + data;
      var offset: nat, p: nat := TopUp(data, m);
      while offset + 64 <= |data|
        invariant offset <= |data| && bufferLen < 64 && |message| + offset == p + bufferLen
        invariant bufferLen > 0 ==> offset == |data|
        invariant Shape() && Absorbed(m, p)
        invariant unchanged(`h, `buffer, `totalLen, `message)
      {
        ProcessFrom(data, offset, m, p);
        offset := offset + 64;
        p := p + 64;
      }
      KeepRest(data, offset, m, p);
    }

    /** Below 2^53 bytes every number here is exact in a double. */
    method Hex() returns (hex: string)
      requires Valid() && totalLen < 0x20_0000_0000_0000
      modifies this, h, buffer
      ensures hex == Sha256Hex(old(message))
      ensures Valid() && message == Padded(old(message)) && bufferLen == 0
      ensures h == old(h) && buffer == old(buffer)
    {
      hide Sha256Hex, Padded, Absorbed, Digest, HexString, WordBytes;
      ghost var m := message;
      PadMessage();
      hex := HexOf(h[..]);
      HexIsDigest(h[..], m);
    }

    /** The padding stage of Hex leaves the digest in h. */
    method PadMessage()
      requires Valid() && totalLen < 0x20_0000_0000_0000
      modifies this, h, buffer
      ensures Valid() && message == Padded(old(message)) && bufferLen == 0
      ensures State() == Digest(old(message))
      ensures h == old(h) && buffer == old(buffer)
    {
      hide HashBlocks, Padding, InitialHash;
      var padding := MakePadding(totalLen, bufferLen);
      PaddingFills(|message|);
      Update(padding);
      assert message[..|message|] == message;
    }
  }

  lemma Filled(after: seq<Byte>, before: seq<Byte>, message: seq<Byte>, data: seq<Byte>, p: nat, len: nat, copy: nat)
    requires |before| == 64 && p + len == |message| && len + copy <= 64 && copy <= |data|
    requires before[..len] == message[p..] && after == before[..len] + data[..copy] + before[len + copy..]
    ensures after[..len + copy] == (message + data)[p..p + len + copy]
  {
  }

  lemma HexIsDigest(w: seq<Word>, m: seq<Byte>)
    requires |w| == 8 && Digest(m) == Registers(w[0], w[1], w[2], w[3], w[4], w[5], w[6], w[7])
    ensures HexString(WordBytes(w)) == Sha256Hex(m)
  {
    hide Digest, HexString, WordBytes;
    assert w == Digest(m).Words();
  }

  /** The output loop of Hex. */
  method HexOf(h: seq<Word>) returns (hex: string)
    requires |h| == 8
    ensures hex == HexString(WordBytes(h))
  {
    hide Masked, ShrUnsigned, HexString, WordBytes, BigEndian;
    hex := "";
    EmptyHexed();
    for i := 0 to 8
      invariant hex == HexString(WordBytes(h[..i]))
    {
      WordHexed(h[..i], h[i]);
      assert h[..i + 1] == h[..i] + [h[i]];
      hex := hex + ByteHex(Masked(ShrUnsigned(h[i], 24)));
      hex := hex + ByteHex(Masked(ShrUnsigned(h[i], 16)));
      hex := hex + ByteHex(Masked(ShrUnsigned(h[i], 8)));
      hex := hex + ByteHex(Masked(h[i]));
    }
    assert h[..8] == h;
  }

  lemma EmptyHexed()
    ensures HexString(WordBytes([])) == ""
  {
  }

  /** The padding array of Hex. */
  method MakePadding(totalLen: nat, bufferLen: nat) returns (s: seq<Byte>)
    requires bufferLen == totalLen % 64 && totalLen < 0x20_0000_0000_0000
    ensures s == Padding(totalLen)
  {
    hide Masked, ShrUnsigned, ToUint32, BigEndian;
    var bitLen := totalLen * 8;
    var padLen := if bufferLen < 56 then 56 - bufferLen else 120 - bufferLen;
    var padding := new Byte[padLen + 8](_ => 0);
    padding[0] := 0x80;
    var highBits := bitLen / 0x1_0000_0000;
    var lowBits := ToUint32(bitLen);
    LengthBytes(bitLen, highBits, lowBits);
    padding[padLen] := Masked(ShrUnsigned(highBits, 24));
    padding[padLen + 1] := Masked(ShrUnsigned(highBits, 16));
    padding[padLen + 2] := Masked(ShrUnsigned(highBits, 8));
    padding[padLen + 3] := Masked(highBits);
    padding[padLen + 4] := Masked(ShrUnsigned(lowBits, 24));
    padding[padLen + 5] := Masked(ShrUnsigned(lowBits, 16));
    padding[padLen + 6] := Masked(ShrUnsigned(lowBits, 8));
    padding[padLen + 7] := Masked(lowBits);
    s := padding[..];
    PaddingAssembled(s, totalLen, padLen);
  }

  lemma PaddingAssembled(s: seq<Byte>, n: nat, padLen: nat)
    requires padLen == (if n % 64 < 56 then 56 - n % 64 else 120 - n % 64) && |s| == padLen + 8
    requires s[0] == 0x80 && forall k :: 1 <= k < padLen ==> s[k] == 0
    requires s[padLen..] == BigEndian(8 * n, 8)
    ensures s == Padding(n)
  {
    hide BigEndian;
    assert padLen == 1 + ZeroCount(n);
    assert s[..padLen] == [0x80] + Zeros(ZeroCount(n));
    assert s == s[..padLen] + s[padLen..];
  }

  method ComputeFileSha256(file: seq<Byte>, chunkSize: nat) returns (hex: string)
    requires chunkSize > 0 && |file| < 0x20_0000_0000_0000
    ensures hex == Sha256Hex(file)
  {
    hide Sha256Hex, HashBlocks;
    var hasher := new Sha256();
    var offset, total := 0, |file|;
    while offset < total
      invariant offset <= total && hasher.Valid() && hasher.message == file[..offset]
      invariant fresh(hasher) && fresh(hasher.h) && fresh(hasher.buffer)
    {
      var end := if offset + chunkSize < total then offset + chunkSize else total;
      hasher.Update(file[offset..end]);
      assert file[..offset] + file[offset..end] == file[..end];
      offset := end;
    }
    assert file[..total] == file;
    hex := hasher.Hex();
  }

  // The text of a byte: toString(16).padStart(2, '0').

  function ToString16(n: nat): string {
    if n < 16 then [HexDigit(n)] else ToString16(n / 16) + [HexDigit(n % 16)]
  }

  function PadStart(s: string, width: nat, fill: char): string
    decreases width - |s|
  {
    if |s| >= width then s else PadStart([fill] + s, width, fill)
  }

  function ByteHex(b: Byte): string {
    PadStart(ToString16(b), 2, '0')
  }

  lemma ByteHexed(b: Byte)
    ensures ByteHex(b) == HexString([b])
  {
    assert HexString([b]) == [HexDigit(b / 16), HexDigit(b % 16)] by {
      assert [b][1..] == [];
    }
    if b < 16 {
      assert PadStart(['0'] + [HexDigit(b)], 2, '0') == ['0', HexDigit(b)];
    } else {
      assert ToString16(b / 16) == [HexDigit(b / 16)];
    }
  }

  lemma {:induction false} HexStringAppend(s: seq<Byte>, t: seq<Byte>)
    ensures HexString(s + t) == HexString(s) + HexString(t)
  {
    if s == [] {
      assert s + t == t;
    } else {
      assert (s + t)[1..] == s[1..] + t;
      HexStringAppend(s[1..], t);
    }
  }

  lemma MaskedLow(x: int)
    ensures Masked(x) == ToUint32(x) % 256
  {
    hide BitAnd, ToUint32;
    LowByte(x);
  }

  lemma ExtractedByte(x: nat, n: nat)
    requires x < 0x1_0000_0000 && n in {8, 16, 24}
    ensures Masked(ShrUnsigned(x, n)) == x / Pow2(n) % 256
  {
    WordIsItself(x);
    hide Masked, ToUint32;
    MaskedLow(ShrUnsigned(x, n));
    WordIsItself(ShrUnsigned(x, n));
  }

  /** The four masked shifts of a word are its bytes in big-endian order. */
  lemma WordExtracted(x: Word)
    ensures BigEndian(x, 4) == [Masked(ShrUnsigned(x, 24)), Masked(ShrUnsigned(x, 16)),
                                Masked(ShrUnsigned(x, 8)), Masked(x)]
  {
    hide Masked, ShrUnsigned, BigEndian, ToUint32;
    Pow2Bytes();
    ExtractedByte(x, 24);
    ExtractedByte(x, 16);
    ExtractedByte(x, 8);
    MaskedLow(x);
    WordIsItself(x);
    FourBytes(x);
  }

  lemma FourBytes(x: nat)
    ensures BigEndian(x, 4) == [x / 0x100_0000 % 256, x / 0x1_0000 % 256, x / 0x100 % 256, x % 256]
  {
    assert BigEndian(x / 0x100_0000, 1) == [x / 0x100_0000 % 256];
    assert BigEndian(x / 0x1_0000, 2) == [x / 0x100_0000 % 256, x / 0x1_0000 % 256];
    assert BigEndian(x / 0x100, 3) == [x / 0x100_0000 % 256, x / 0x1_0000 % 256, x / 0x100 % 256];
  }

  /** The length in bits from its two 32-bit halves. */
  lemma LengthBytes(bitLen: nat, high: nat, low: nat)
    requires high == bitLen / 0x1_0000_0000 < 0x1_0000_0000 && low == ToUint32(bitLen)
    ensures BigEndian(bitLen, 8) == [
              Masked(ShrUnsigned(high, 24)), Masked(ShrUnsigned(high, 16)),
              Masked(ShrUnsigned(high, 8)), Masked(high),
              Masked(ShrUnsigned(low, 24)), Masked(ShrUnsigned(low, 16)),
              Masked(ShrUnsigned(low, 8)), Masked(low)]
  {
    hide Masked, ShrUnsigned;
    WordExtracted(high);
    WordExtracted(low);
    BigEndianHalves(bitLen, 4, 4);
    HighHalf(bitLen);
    LowHalf(bitLen);
  }

  lemma HighHalf(n: nat)
    ensures Shifted256(n, 4) == n / 0x1_0000_0000
  {
    assert n / 0x100 / 0x100 == n / 0x1_0000;
    assert n / 0x1_0000 / 0x100 == n / 0x100_0000;
    assert n / 0x100_0000 / 0x100 == n / 0x1_0000_0000;
    assert Shifted256(n / 0x100_0000, 1) == n / 0x1_0000_0000;
    assert Shifted256(n / 0x1_0000, 2) == n / 0x1_0000_0000;
    assert Shifted256(n / 0x100, 3) == n / 0x1_0000_0000;
  }

  lemma LowHalf(n: nat)
    ensures BigEndian(n, 4) == BigEndian(ToUint32(n), 4)
  {
    assert Pow(256, 2) == 0x1_0000;
    assert Pow(256, 3) == 0x100_0000;
    assert Pow(256, 4) == 0x1_0000_0000;
    BigEndianCongruent(ToUint32(n), n / 0x1_0000_0000, 4);
  }

  lemma {:induction false} BigEndianCongruent(m: nat, q: nat, width: nat)
    ensures BigEndian(m + q * Pow(256, width), width) == BigEndian(m, width)
    decreases width
  {
    if width > 0 {
      var p := q * Pow(256, width - 1);
      assert q * Pow(256, width) == 256 * p by { TakeOut(q, Pow(256, width - 1)); }
      AddMultiple(m, p);
      BigEndianCongruent(m / 256, q, width - 1);
    }
  }

  lemma AddMultiple(m: nat, p: nat)
    ensures (m + 256 * p) / 256 == m / 256 + p && (m + 256 * p) % 256 == m % 256
  {
  }

  lemma TakeOut(q: int, p: int)
    ensures q * (256 * p) == 256 * (q * p)
  {
  }

  function Shifted256(n: nat, k: nat): nat {
    if k == 0 then n else Shifted256(n / 256, k - 1)
  }

  lemma {:induction false} BigEndianHalves(n: nat, i: nat, j: nat)
    ensures BigEndian(n, i + j) == BigEndian(Shifted256(n, j), i) + BigEndian(n, j)
    decreases j
  {
    if j > 0 {
      BigEndianHalves(n / 256, i, j - 1);
      assert BigEndian(n, i + j) == BigEndian(n / 256, i + j - 1) + [n % 256];
    }
  }

  lemma WordHexed(ws: seq<Word>, x: Word)
    ensures HexString(WordBytes(ws + [x])) == HexString(WordBytes(ws))
              + ByteHex(Masked(ShrUnsigned(x, 24))) + ByteHex(Masked(ShrUnsigned(x, 16)))
              + ByteHex(Masked(ShrUnsigned(x, 8))) + ByteHex(Masked(x))
  {
    hide Masked, ShrUnsigned, HexString, BigEndian, ByteHex;
    var b := BigEndian(x, 4);
    WordExtracted(x);
    assert (ws + [x])[..|ws|] == ws;
    HexStringAppend(WordBytes(ws), b);
    FourHexed(b);
  }

  lemma FourHexed(b: seq<Byte>)
    requires |b| == 4
    ensures HexString(b) == ByteHex(b[0]) + ByteHex(b[1]) + ByteHex(b[2]) + ByteHex(b[3])
  {
    hide ByteHex, HexString;
    ByteHexed(b[0]);
    ByteHexed(b[1]);
    ByteHexed(b[2]);
    ByteHexed(b[3]);
    assert b == [b[0]] + [b[1]] + [b[2]] + [b[3]];
    HexStringAppend([b[0]], [b[1]]);
    HexStringAppend([b[0]] + [b[1]], [b[2]]);
    HexStringAppend([b[0]] + [b[1]] + [b[2]], [b[3]]);
  }

  lemma Truncated(r: Registers, block: Block, s: Registers)
    requires s == Rounds(r, Schedule(block)[..64])
    ensures Compress(r, block) == Registers(
              ToUint32(r.a + s.a), ToUint32(r.b + s.b), ToUint32(r.c + s.c), ToUint32(r.d + s.d),
              ToUint32(r.e + s.e), ToUint32(r.f + s.f), ToUint32(r.g + s.g), ToUint32(r.h + s.h))
  {
    hide Rounds, Schedule, Add, ToUint32;
    assert Schedule(block)[..64] == Schedule(block);
    SumOfWords(r.a, s.a);
    SumOfWords(r.b, s.b);
    SumOfWords(r.c, s.c);
    SumOfWords(r.d, s.d);
    SumOfWords(r.e, s.e);
    SumOfWords(r.f, s.f);
    SumOfWords(r.g, s.g);
    SumOfWords(r.h, s.h);
  }

  lemma SumOfWords(x: Word, y: Word)
    ensures ToUint32(x + y) == Add(x, y)
  {
  }

  lemma ScheduleStarts(block: Block, w: seq<Word>)
    requires |w| == 16 && forall j :: 0 <= j < 16 ==> w[j] == BlockWord(block, j)
    ensures Extended(w) == Schedule(block)
  {
    hide BlockWord, Extended;
    assert w == seq(16, (t: nat) requires t < 16 => BlockWord(block, t));
  }

  lemma ScheduleGrows(w: seq<Word>)
    requires 16 <= |w| < 64
    ensures Extended(w + [NextWord(w, |w|)]) == Extended(w)
  {
    hide NextWord;
  }

  lemma ScheduleEnds(w: seq<Word>)
    requires |w| == 64
    ensures Extended(w) == w
  {
  }

  lemma RoundsStart(r: Registers, w: seq<Word>)
    ensures Rounds(r, w[..0]) == r
  {
  }

  lemma RoundsStep(r: Registers, w: seq<Word>, i: nat)
    requires i < |w| <= 64
    ensures Rounds(r, w[..i + 1]) == Round(Rounds(r, w[..i]), K[i].word, w[i])
  {
    hide Round;
    assert w[..i + 1][..i] == w[..i];
  }

  lemma BlockWordRead(block: Block, i: nat)
    requires i < 16
    ensures ToUint32(BitOr(BitOr(BitOr(Shl(block[i * 4], 24), Shl(block[i * 4 + 1], 16)),
                                 Shl(block[i * 4 + 2], 8)), block[i * 4 + 3])) == BlockWord(block, i)
  {
    hide ToUint32, BitOr, Shl;
    PackedBytes(block[i * 4], block[i * 4 + 1], block[i * 4 + 2], block[i * 4 + 3]);
  }

  /** The worker's sums stay far below the integers that a double holds exactly. */
  lemma XorRange(x: int, y: int)
    ensures -0x8000_0000 <= BitXor(x, y) < 0x8000_0000
  {
    hide OnWords, ToUint32;
    assert forall v :: 0 <= ToUint32(v) < 0x1_0000_0000;
  }

  lemma NextWordRefined(w: seq<Word>, i: nat, s0: int, s1: int)
    requires 16 <= i == |w| <= 64
    requires s0 == BitXor(BitXor(JsRotr(7, w[i - 15]), JsRotr(18, w[i - 15])), ShrUnsigned(w[i - 15], 3))
    requires s1 == BitXor(BitXor(JsRotr(17, w[i - 2]), JsRotr(19, w[i - 2])), ShrUnsigned(w[i - 2], 10))
    ensures ToUint32(w[i - 16] + s0 + w[i - 7] + s1) == NextWord(w, i)
  {
    hide BitXor, JsRotr, ShrUnsigned, SmallSigma0, SmallSigma1, Add, ToUint32;
    SmallSigma0Refined(w[i - 15]);
    SmallSigma1Refined(w[i - 2]);
    SumOfFour(w[i - 16], s0, w[i - 7], s1);
  }

  /** One pass of the compression loop is one round. */
  lemma RoundRefined(r: Registers, k: Word, w: Word, S1: int, ch: int, S0: int, maj: int)
    requires S1 == BitXor(BitXor(JsRotr(6, r.e), JsRotr(11, r.e)), JsRotr(25, r.e))
    requires ch == BitXor(BitAnd(r.e, r.f), BitAnd(BitNot(r.e), r.g))
    requires S0 == BitXor(BitXor(JsRotr(2, r.a), JsRotr(13, r.a)), JsRotr(22, r.a))
    requires maj == BitXor(BitXor(BitAnd(r.a, r.b), BitAnd(r.a, r.c)), BitAnd(r.b, r.c))
    ensures var temp1 := ToUint32(r.h + S1 + ch + k + w);
            var temp2: int := ToUint32(S0 + maj);
            Round(r, k, w) == Registers(ToUint32(temp1 + temp2), r.a, r.b, r.c, ToUint32(r.d + temp1), r.e, r.f, r.g)
  {
    hide BitXor, BitAnd, BitNot, JsRotr, BigSigma0, BigSigma1, Ch, Maj, Add, ToUint32;
    var temp1, temp2 := ToUint32(r.h + S1 + ch + k + w), ToUint32(S0 + maj);
    WordIsItself(temp1);
    WordIsItself(temp2);
    WordIsItself(r.d);
    BigSigma1Refined(r.e);
    ChRefined(r.e, r.f, r.g);
    BigSigma0Refined(r.a);
    MajRefined(r.a, r.b, r.c);
    SumOfFive(r.h, S1, ch, k, w);
    SumOfTwo(S0, maj);
    SumOfTwo(r.d, temp1);
    SumOfTwo(temp1, temp2);
  }
}
