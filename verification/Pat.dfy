/** Personal access tokens: 32 random bytes printed in base 62. */
module Pat {
  import opened Basics
  import opened Numerals

  const PREFIX := "fsk_"
  const BODY_LENGTH := 43
  const DIGITS := "0123456789"
  const UPPER := "ABCDEFGHIJKLMNOPQRSTUVWXYZ"
  const LOWER := "abcdefghijklmnopqrstuvwxyz"
  const BASE62_CHARS := DIGITS + UPPER + LOWER

  function Base62Char(d: nat): char
    requires d < 62
  {
    BASE62_CHARS[d]
  }

  predicate InAlphabet(c: char) { c in BASE62_CHARS }

  function Reversed(d: seq<nat>): (r: seq<nat>)
    ensures |r| == |d|
  {
    if d == [] then [] else [d[|d| - 1]] + Reversed(d[..|d| - 1])
  }

  /** 43 base-62 digits hold every 256-bit number, and 42 do not. */
  lemma FortyThreeDigits()
    ensures Pow(62, 42) == 1907440321293807005218825134272276737461586370979700379485518568438569631744
    ensures Pow(256, 32) == 0x1_0000_0000_0000_0000_0000_0000_0000_0000_0000_0000_0000_0000_0000_0000_0000_0000
    ensures Pow(62, 42) < Pow(256, 32) < Pow(62, 43)
  {
    assert Pow(62, 2) == 3844 && Pow(62, 3) == 238328;
    PowSum(62, 2, 3, 3844, 238328);
    PowSum(62, 5, 5, 916132832, 916132832);
    PowSum(62, 10, 10, 839299365868340224, 839299365868340224);
    PowSum(62, 20, 20, 704423425546998022968330264616370176, 704423425546998022968330264616370176);
    PowSum(62, 40, 2, 496212362459367066914366580195701544604991251555593230875525121862270976, 3844);
    PowSum(62, 42, 1, 1907440321293807005218825134272276737461586370979700379485518568438569631744, 62);
    assert Pow(256, 2) == 0x1_0000;
    PowSum(256, 2, 2, 0x1_0000, 0x1_0000);
    PowSum(256, 4, 4, 0x1_0000_0000, 0x1_0000_0000);
    PowSum(256, 8, 8, 0x1_0000_0000_0000_0000, 0x1_0000_0000_0000_0000);
    PowSum(256, 16, 16, 0x1_0000_0000_0000_0000_0000_0000_0000_0000, 0x1_0000_0000_0000_0000_0000_0000_0000_0000);
  }

  // The encoder.

  /** One pass of long division: num becomes the quotient by 62. */
  method DivideBy62(num: array<Byte>) returns (rem: nat, allZero: bool)
    modifies num
    ensures old(Value(256, num[..])) == 62 * Value(256, num[..]) + rem && rem < 62
    ensures allZero <==> Value(256, num[..]) == 0
  {
    hide Value;
    ghost var was := num[..];
    rem := 0;
    allZero := true;
    ValueEmpty(256);
    for i := 0 to num.Length
      invariant rem < 62
      invariant forall k :: i <= k < num.Length ==> num[k] == was[k]
      invariant Value(256, was[..i]) == 62 * Value(256, num[..i]) + rem
      invariant allZero <==> AllZero(num[..i])
    {
      ghost var before, r := num[..i], rem;
      var cur := rem * 256 + num[i];
      num[i] := cur / 62;
      rem := cur % 62;
      if num[i] != 0 {
        allZero := false;
      }
      assert num[..i + 1] == before + [num[i]];
      assert was[..i + 1] == was[..i] + [was[i]];
      ValueSnoc(256, before, num[i]);
      ValueSnoc(256, was[..i], was[i]);
      AllZeroSnoc(before, num[i]);
      PassStep(Value(256, before), r, cur, was[i]);
    }
    assert num[..num.Length] == num[..] && was[..num.Length] == was;
    ValueZero(256, num[..]);
  }

  lemma PassStep(q: nat, r: nat, cur: nat, x: nat)
    requires cur == r * 256 + x
    ensures (62 * q + r) * 256 + x == 62 * (q * 256 + cur / 62) + cur % 62
  {
  }

  lemma Carry(q: nat, rem: nat, p: nat)
    ensures (62 * q + rem) * p == q * (p * 62) + rem * p
  {
    assert (62 * q + rem) * p == (62 * q) * p + rem * p;
    assert (62 * q) * p == q * (p * 62);
  }

  /** While something is left to divide, the digits so far cannot fill the body. */
  lemma DigitCount(b: seq<Byte>, n: nat, left: nat, rest: nat)
    requires Value(256, b) == left * Pow(62, n) + rest && (n > 0 ==> left > 0)
    ensures |b| <= 32 ==> n < BODY_LENGTH
  {
    if |b| <= 32 && n >= BODY_LENGTH {
      ValueBound(256, b);
      PowMonotone(256, |b|, 32);
      PowMonotone(62, BODY_LENGTH, n);
      MulMonotone(1, left, Pow(62, n));
      FortyThreeDigits();
      assert false;
    }
  }

  /** The remainders of repeated division are the base-62 digits, least significant first. */
  method Base62Digits(b: seq<Byte>) returns (digits: seq<nat>)
    ensures DigitsBelow(62, digits) && |digits| > 0
    ensures Value(62, Reversed(digits)) == Value(256, b)
    ensures |b| <= 32 ==> |digits| <= BODY_LENGTH
  {
    digits := [];
    var num := new Byte[|b|](i requires 0 <= i < |b| => b[i]);
    assert num[..] == b;
    ghost var v := Value(256, b);
    while true
      invariant DigitsBelow(62, digits)
      invariant v == Value(256, num[..]) * Pow(62, |digits|) + Value(62, Reversed(digits))
      invariant digits != [] ==> Value(256, num[..]) > 0
      decreases Value(256, num[..])
    {
      ghost var value, done := Value(256, num[..]), digits;
      var rem, allZero := DivideBy62(num);
      ghost var quotient := Value(256, num[..]);
      digits := digits + [rem];
      assert digits[..|done|] == done;
      ValueCons(62, rem, Reversed(done));
      Carry(quotient, rem, Pow(62, |done|));
      if allZero {
        DigitCount(b, |done|, value, Value(62, Reversed(done)));
        break;
      }
    }
  }

  /** The digits in reading order, as characters. */
  method Printed(digits: seq<nat>) returns (s: string)
    requires DigitsBelow(62, digits)
    ensures Spells(s, Reversed(digits))
  {
    hide Base62Char, Spells;
    NothingSpelled();
    s := "";
    ghost var d: seq<nat> := [];
    var i := |digits| - 1;
    assert digits[..i + 1] == digits;
    while i >= 0
      invariant -1 <= i < |digits|
      invariant Spells(s, d) && d + Reversed(digits[..i + 1]) == Reversed(digits)
    {
      assert digits[..i + 1][..i] == digits[..i];
      SpellsSnoc(s, d, digits[i]);
      s := s + [Base62Char(digits[i])];
      d := d + [digits[i]];
      i := i - 1;
    }
    assert d == Reversed(digits);
  }

  lemma NothingSpelled()
    ensures Spells("", [])
  {
  }

  lemma SpellsSnoc(s: string, d: seq<nat>, x: nat)
    requires Spells(s, d) && x < 62
    ensures Spells(s + [Base62Char(x)], d + [x])
  {
    hide Base62Char;
  }

  /** The token of some bytes: the body is filled up with '0' in front. */
  method EncodeBase62Big(b: seq<Byte>) returns (plain: string)
    ensures |b| == 32 ==> IsTokenOf(plain, b)
    ensures |plain| >= |PREFIX| + BODY_LENGTH && plain[..4] == PREFIX
    ensures exists d: seq<nat> :: Spells(plain[4..], d) && Value(62, d) == Value(256, b)
  {
    hide Base62Char, Pow;
    var digits := Base62Digits(b);
    var s := Printed(digits);
    ghost var d := Reversed(digits);
    while |s| < BODY_LENGTH
      invariant Spells(s, d) && Value(62, d) == Value(256, b)
      invariant |b| <= 32 ==> |s| <= BODY_LENGTH
    {
      ValueCons(62, 0, d);
      s := [Base62Char(0)] + s;
      d := [0] + d;
    }
    plain := PREFIX + s;
    assert plain[4..] == s && plain[..4] == PREFIX;
  }

  /** s is the numeral with digits d in the token alphabet. */
  predicate Spells(s: string, d: seq<nat>) {
    |s| == |d| && DigitsBelow(62, d) && forall k :: 0 <= k < |s| ==> s[k] == Base62Char(d[k])
  }

  ghost predicate IsTokenOf(plain: string, b: seq<Byte>) {
    && |plain| == |PREFIX| + BODY_LENGTH && plain[..4] == PREFIX
    && exists d: seq<nat> :: Spells(plain[4..], d) && Value(62, d) == Value(256, b)
  }

  lemma {:induction false} ReversedDigits(d: seq<nat>, base: nat)
    requires DigitsBelow(base, d)
    ensures DigitsBelow(base, Reversed(d))
  {
    if d != [] { ReversedDigits(d[..|d| - 1], base); }
  }

  lemma AlphabetCode(d: nat)
    requires d < 62
    ensures Base62Char(d) as int == if d < 10 then 48 + d else if d < 36 then 55 + d else 61 + d
  {
    if d < 10 {
      DigitCode(d);
    } else if d < 36 {
      UpperCode(d - 10);
    } else {
      LowerCode(d - 36);
    }
  }

  lemma DigitCode(k: nat)
    requires k < 10
    ensures DIGITS[k] as int == 48 + k
  {
  }

  lemma UpperCode(k: nat)
    requires k < 26
    ensures UPPER[k] as int == 65 + k
  {
  }

  lemma LowerCode(k: nat)
    requires k < 26
    ensures LOWER[k] as int == 97 + k
  {
  }

  /** The alphabet repeats no character, so a text spells at most one numeral. */
  lemma SpellsUnique(s: string, d: seq<nat>, e: seq<nat>)
    requires Spells(s, d) && Spells(s, e)
    ensures d == e
  {
    forall k | 0 <= k < |s| ensures d[k] == e[k] {
      AlphabetCode(d[k]);
      AlphabetCode(e[k]);
    }
  }

  /** Different random bytes give different tokens. */
  lemma TokensInjective(plain: string, b: seq<Byte>, c: seq<Byte>)
    requires |b| == |c| && IsTokenOf(plain, b) && IsTokenOf(plain, c)
    ensures b == c
  {
    var d: seq<nat> :| Spells(plain[4..], d) && Value(62, d) == Value(256, b);
    var e: seq<nat> :| Spells(plain[4..], e) && Value(62, e) == Value(256, c);
    SpellsUnique(plain[4..], d, e);
    ValueInjective(256, b, c);
  }

  /** The bytes determine the token. */
  lemma TokenUnique(plain: string, other: string, b: seq<Byte>)
    requires IsTokenOf(plain, b) && IsTokenOf(other, b)
    ensures plain == other
  {
    var d: seq<nat> :| Spells(plain[4..], d) && Value(62, d) == Value(256, b);
    var e: seq<nat> :| Spells(other[4..], e) && Value(62, e) == Value(256, b);
    ValueInjective(62, d, e);
    assert plain[4..] == other[4..];
    assert plain == plain[..4] + plain[4..] && other == other[..4] + other[4..];
  }

  // The format check.

  datatype FormatError = BadPrefix | BadLength | BadCharacter

  ghost predicate WellFormed(plain: string) {
    PREFIX <= plain && |plain| == |PREFIX| + BODY_LENGTH
    && forall k :: |PREFIX| <= k < |plain| ==> InAlphabet(plain[k])
  }

  method ValidatePatPlain(plain: string) returns (err: Option<FormatError>)
    ensures err == None <==> WellFormed(plain)
    ensures err == Some(BadPrefix) <==> !(PREFIX <= plain)
    ensures err == Some(BadLength) <==> PREFIX <= plain && |plain| != |PREFIX| + BODY_LENGTH
  {
    hide InAlphabet;
    if !(PREFIX <= plain) {
      return Some(BadPrefix);
    }
    if |plain| != 47 {
      return Some(BadLength);
    }
    for k := |PREFIX| to |plain|
      invariant forall j :: |PREFIX| <= j < k ==> InAlphabet(plain[j])
    {
      if !InAlphabet(plain[k]) {
        return Some(BadCharacter);
      }
    }
    return None;
  }

  /** A token reads "fsk_" and 43 characters out of 0-9, A-Z and a-z, which stand for the digits in this order. */
  lemma TokenText(plain: string, b: seq<Byte>)
    requires IsTokenOf(plain, b)
    ensures |plain| == 47 && plain[..4] == "fsk_"
    ensures exists d: seq<nat> :: |d| == 43 && Value(62, d) == Value(256, b) &&
              forall k :: 0 <= k < 43 ==> d[k] < 62 && DigitOfChar(plain[4 + k]) == d[k]
  {
    hide Value;
    var d: seq<nat> :| Spells(plain[4..], d) && Value(62, d) == Value(256, b);
    forall k | 0 <= k < 43 ensures d[k] < 62 && DigitOfChar(plain[4 + k]) == d[k] {
      assert plain[4 + k] == plain[4..][k] == Base62Char(d[k]);
      AlphabetCode(d[k]);
    }
  }

  function DigitOfChar(c: char): int {
    if '0' <= c <= '9' then c as int - '0' as int
    else if 'A' <= c <= 'Z' then c as int - 'A' as int + 10
    else if 'a' <= c <= 'z' then c as int - 'a' as int + 36
    else -1
  }

  /** Every generated token passes the check. */
  lemma TokensWellFormed(plain: string, b: seq<Byte>)
    requires IsTokenOf(plain, b)
    ensures WellFormed(plain)
  {
    var d: seq<nat> :| Spells(plain[4..], d) && Value(62, d) == Value(256, b);
    assert PREFIX == plain[..4];
    forall k | 4 <= k < |plain| ensures InAlphabet(plain[k]) {
      assert plain[k] == plain[4..][k - 4] == Base62Char(d[k - 4]);
    }
  }

  /** v in n bytes, most significant first. */
  function BytesOf(v: nat, n: nat): (b: seq<Byte>)
    ensures |b| == n
  {
    if n == 0 then [] else BytesOf(v / 256, n - 1) + [v % 256]
  }

  lemma {:induction false} BytesOfValue(v: nat, n: nat)
    requires v < Pow(256, n)
    ensures Value(256, BytesOf(v, n)) == v
  {
    ValueEmpty(256);
    if n > 0 {
      assert v / 256 < Pow(256, n - 1);
      BytesOfValue(v / 256, n - 1);
      ValueSnoc(256, BytesOf(v / 256, n - 1), v % 256);
    }
  }

  /** Every well-formed body spells some number. */
  lemma WellFormedSpells(plain: string)
    requires WellFormed(plain)
    ensures plain[..4] == PREFIX && exists d: seq<nat> :: Spells(plain[4..], d)
  {
    var body := plain[4..];
    assert plain[..4] == PREFIX;
    forall i | 0 <= i < |body| ensures body[i] in BASE62_CHARS {
      assert InAlphabet(plain[i + 4]);
    }
    var d: seq<nat> := seq(|body|, i requires 0 <= i < |body| => DigitOf(body[i]));
    assert Spells(body, d);
  }

  ghost function DigitOf(c: char): (d: nat)
    requires InAlphabet(c)
    ensures d < 62 && Base62Char(d) == c
  {
    var k :| 0 <= k < |BASE62_CHARS| && BASE62_CHARS[k] == c;
    k
  }

  /** A well-formed token can be generated exactly when its body spells a number below 256^32. */
  lemma GeneratedIff(plain: string, d: seq<nat>)
    requires |plain| == |PREFIX| + BODY_LENGTH && plain[..4] == PREFIX && Spells(plain[4..], d)
    ensures (exists b: seq<Byte> :: |b| == 32 && IsTokenOf(plain, b)) <==> Value(62, d) < Pow(256, 32)
  {
    hide Pow, Value, Spells;
    if b: seq<Byte> :| |b| == 32 && IsTokenOf(plain, b) {
      var e: seq<nat> :| Spells(plain[4..], e) && Value(62, e) == Value(256, b);
      SpellsUnique(plain[4..], d, e);
      ValueBound(256, b);
    }
    if Value(62, d) < Pow(256, 32) {
      var b := BytesOf(Value(62, d), 32);
      BytesOfValue(Value(62, d), 32);
      assert IsTokenOf(plain, b);
    }
  }

  /** The converse fails: a well-formed body that starts with 'z' is too large to come from 32 bytes. */
  lemma NotEveryWellFormedTokenIsGenerated(plain: string, d: seq<nat>, b: seq<Byte>)
    requires |plain| == |PREFIX| + BODY_LENGTH && Spells(plain[4..], d) && d[0] == 61 && |b| == 32
    ensures !IsTokenOf(plain, b)
  {
    if IsTokenOf(plain, b) {
      var e: seq<nat> :| Spells(plain[4..], e) && Value(62, e) == Value(256, b);
      SpellsUnique(plain[4..], d, e);
      ValueBound(256, b);
      FirstDigitWeighs(d);
      FortyTwoDigits();
      assert false;
    }
  }

  lemma FortyTwoDigits()
    ensures 61 * Pow(62, 42) > Pow(256, 32)
  {
    FortyThreeDigits();
  }

  lemma FirstDigitWeighs(d: seq<nat>)
    requires |d| == BODY_LENGTH && d[0] == 61
    ensures Value(62, d) >= 61 * Pow(62, 42)
  {
    assert d == [d[0]] + d[1..];
    ValueCons(62, d[0], d[1..]);
  }
}
