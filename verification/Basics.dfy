/** What several of the models share. */
module Basics {
  type Byte = b: int | 0 <= b < 256
  type Bytes = seq<Byte>

  datatype Option<T> = None | Some(value: T)

  function Min(a: int, b: int): int { if a <= b then a else b }

  function Max(a: int, b: int): int { if a <= b then b else a }

  predicate Distinct<T(==)>(s: seq<T>) { forall i, j :: 0 <= i < j < |s| ==> s[i] != s[j] }

  // Go's 64-bit integers.

  const TWO63 := 0x8000_0000_0000_0000
  const TWO64 := 0x1_0000_0000_0000_0000

  predicate InInt64(x: int) { -TWO63 <= x < TWO63 }

  function Wrap64(x: int): (r: int)
    ensures InInt64(r) && (InInt64(x) ==> r == x)
  {
    (x + TWO63) % TWO64 - TWO63
  }

  /** Division that truncates toward zero. */
  function GoDiv(a: int, b: int): int
    requires b > 0
  {
    if a >= 0 then a / b else -(-a / b)
  }

  /** How writing a file goes. Opening it truncates it, so a failing copy leaves a part of the new bytes. */
  datatype Write = Written | Torn(n: nat) | NotOpened

  /** What is in the file afterwards, once it has been opened. */
  function Content(b: Bytes, w: Write): Bytes {
    if w.Torn? && w.n <= |b| then b[..w.n] else b
  }

  function Indices(total: nat): (r: set<nat>)
    ensures forall i: nat :: i in r <==> i < total
  {
    if total == 0 then {} else Indices(total - 1) + {total - 1}
  }

  lemma {:induction false} IndicesCount(n: nat)
    ensures |Indices(n)| == n
  {
    if n > 0 {
      IndicesCount(n - 1);
      var before := Indices(n - 1);
      assert Indices(n) == before + {n - 1} && n - 1 !in before;
    }
  }
}
