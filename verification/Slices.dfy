/** How a file is cut into chunks and parts, and what is glued together again. */
module Slices {
  import opened Basics

  /** Where chunk i starts. */
  function Start(chunkSize: nat, i: nat): nat { i * chunkSize }

  lemma StartStep(chunkSize: nat, i: nat)
    ensures Start(chunkSize, 0) == 0 && Start(chunkSize, i + 1) == Start(chunkSize, i) + chunkSize
  {
  }

  lemma {:induction false} StartGrows(chunkSize: nat, i: nat, j: nat)
    requires i < j
    ensures Start(chunkSize, i) + chunkSize <= Start(chunkSize, j)
    decreases j
  {
    hide Start;
    StartStep(chunkSize, j - 1);
    if i < j - 1 { StartGrows(chunkSize, i, j - 1); }
  }

  /** What the browser sends as chunk i. */
  function Slice(file: Bytes, chunkSize: nat, i: nat): Bytes {
    var start := Start(chunkSize, i);
    if start >= |file| then [] else file[start..Min(start + chunkSize, |file|)]
  }

  /** The length of chunk i of a file of a known size. */
  function SliceLength(size: nat, chunkSize: nat, i: nat): nat {
    if Start(chunkSize, i) >= size then 0 else Min(chunkSize, size - Start(chunkSize, i))
  }

  lemma SliceHasLength(file: Bytes, chunkSize: nat, i: nat)
    ensures |Slice(file, chunkSize, i)| == SliceLength(|file|, chunkSize, i)
  {
    hide Start;
  }

  const DEFAULT_CHUNK_SIZE := 512 * 1024

  function Total(size: nat, chunkSize: nat): nat
    requires chunkSize > 0
  {
    (size + chunkSize - 1) / chunkSize
  }

  /** How the server computes that: the sum may wrap. */
  function ChunkCount(size: nat, chunkSize: nat): int
    requires chunkSize > 0
  {
    GoDiv(Wrap64(size + chunkSize - 1), chunkSize)
  }

  /** The server's count is the ceiling exactly when the two sizes add up to at most 2^63; otherwise it is not
      even positive. */
  lemma ChunkCountIff(size: nat, chunkSize: nat)
    requires 0 < size < TWO63 && 0 < chunkSize < TWO63
    ensures ChunkCount(size, chunkSize) == Total(size, chunkSize) <==> size + chunkSize <= TWO63
    ensures size + chunkSize > TWO63 ==> ChunkCount(size, chunkSize) <= 0
  {
    TotalIsCeiling(size, chunkSize);
    var x := size + chunkSize - 1;
    if x >= TWO63 {
      assert Wrap64(x) == x - TWO64 < 0;
      NotNegative(TWO64 - x, chunkSize);
    } else {
      assert Wrap64(x) == x;
    }
  }

  lemma NotNegative(a: nat, b: nat)
    requires b > 0
    ensures a / b >= 0
  {
  }

  /** The first n pieces, one after another. */
  function Glue(piece: nat -> Bytes, n: nat): Bytes {
    if n == 0 then [] else Glue(piece, n - 1) + piece(n - 1)
  }

  function Slicing(file: Bytes, chunkSize: nat): nat -> Bytes { (i: nat) => Slice(file, chunkSize, i) }

  lemma TotalIsCeiling(size: nat, chunkSize: nat)
    requires chunkSize > 0
    ensures var n := Total(size, chunkSize);
            size <= Start(chunkSize, n) && (size > 0 ==> n > 0 && Start(chunkSize, n - 1) < size)
  {
    var x := size + chunkSize - 1;
    var q := x / chunkSize;
    assert x == q * chunkSize + x % chunkSize;
    assert q > 0 ==> (q - 1) * chunkSize == q * chunkSize - chunkSize;
  }

  /** The first n slices are the first n * chunkSize bytes, as far as there are any. */
  lemma {:induction false} GlueSlices(file: Bytes, chunkSize: nat, n: nat)
    ensures Glue(Slicing(file, chunkSize), n) == file[..Min(Start(chunkSize, n), |file|)]
  {
    hide Start;
    StartStep(chunkSize, 0);
    if n > 0 {
      GlueSlices(file, chunkSize, n - 1);
      StartStep(chunkSize, n - 1);
      assert Slicing(file, chunkSize)(n - 1) == Slice(file, chunkSize, n - 1);
      var start, end := Start(chunkSize, n - 1), Start(chunkSize, n);
      if start < |file| {
        Adjoining(file, start, Min(end, |file|));
      }
    }
  }

  lemma Adjoining(file: Bytes, start: nat, end: nat)
    requires start <= end <= |file|
    ensures file[..start] + file[start..end] == file[..end]
  {
  }

  /** The slices tile the file. */
  lemma SlicesTile(file: Bytes, chunkSize: nat)
    requires chunkSize > 0
    ensures Glue(Slicing(file, chunkSize), Total(|file|, chunkSize)) == file
    ensures forall i: nat :: i < Total(|file|, chunkSize) ==> Slice(file, chunkSize, i) != []
  {
    hide Start, Total;
    var n := Total(|file|, chunkSize);
    TotalIsCeiling(|file|, chunkSize);
    GlueSlices(file, chunkSize, n);
    forall i: nat | i < n ensures Slice(file, chunkSize, i) != [] {
      if file == [] {
        NoSlices(chunkSize);
      } else if i < n - 1 {
        StartGrows(chunkSize, i, n - 1);
      }
    }
  }

  lemma NoSlices(chunkSize: nat)
    requires chunkSize > 0
    ensures Total(0, chunkSize) == 0
  {
  }

  // Pieces that are not all slices of the same file.

  lemma {:induction false} GlueSame(p: nat -> Bytes, q: nat -> Bytes, n: nat)
    requires forall i: nat :: i < n ==> p(i) == q(i)
    ensures Glue(p, n) == Glue(q, n)
  {
    if n > 0 { GlueSame(p, q, n - 1); }
  }

  predicate PrefixOf(a: Bytes, b: Bytes) { a <= b }

  /** Pieces that are prefixes of what they should be are complete exactly when their total length is right. */
  lemma {:induction false} GluePrefixes(p: nat -> Bytes, q: nat -> Bytes, n: nat)
    requires forall i: nat :: i < n ==> PrefixOf(p(i), q(i))
    ensures |Glue(p, n)| <= |Glue(q, n)|
    ensures |Glue(p, n)| == |Glue(q, n)| <==> forall i: nat :: i < n ==> p(i) == q(i)
  {
    if n > 0 {
      GluePrefixes(p, q, n - 1);
      assert PrefixOf(p(n - 1), q(n - 1));
      assert |p(n - 1)| == |q(n - 1)| <==> p(n - 1) == q(n - 1);
    }
  }

  lemma PrefixesCompleteIff(p: nat -> Bytes, q: nat -> Bytes, n: nat)
    requires forall i: nat :: i < n ==> PrefixOf(p(i), q(i))
    ensures |Glue(p, n)| <= |Glue(q, n)|
    ensures Glue(p, n) == Glue(q, n) <==> |Glue(p, n)| == |Glue(q, n)|
  {
    GluePrefixes(p, q, n);
    if |Glue(p, n)| == |Glue(q, n)| { GlueSame(p, q, n); }
  }

  lemma {:induction false} GlueAround(p: nat -> Bytes, q: nat -> Bytes, n: nat, i: nat)
    requires i < n && forall j: nat :: j < n && j != i ==> p(j) == q(j)
    ensures Glue(p, n) == Glue(q, n) <==> p(i) == q(i)
    decreases n
  {
    if i == n - 1 {
      GlueSame(p, q, i);
      if Glue(p, n) == Glue(q, n) {
        assert p(i) == Glue(p, n)[|Glue(p, i)|..] && q(i) == Glue(q, n)[|Glue(q, i)|..];
      }
    } else {
      GlueAround(p, q, n - 1, i);
      var x := p(n - 1);
      if Glue(p, n) == Glue(q, n) {
        assert Glue(p, n - 1) == Glue(p, n)[..|Glue(p, n)| - |x|];
        assert Glue(q, n - 1) == Glue(q, n)[..|Glue(q, n)| - |x|];
      }
    }
  }

  /** A piece from either of two clients. */
  function Mixed(p: nat -> Bytes, q: nat -> Bytes, fromSecond: set<nat>): nat -> Bytes {
    (i: nat) => if i in fromSecond then q(i) else p(i)
  }

  /** Two clients that share a session always produce the first one's file, whoever sends which chunk,
      exactly when they cut the same slices. */
  lemma MixIff(a: Bytes, sizeA: nat, b: Bytes, sizeB: nat)
    requires sizeA > 0
    ensures (forall choice: set<nat> ::
               Glue(Mixed(Slicing(a, sizeA), Slicing(b, sizeB), choice), Total(|a|, sizeA)) == a)
            <==> SameSlices(a, sizeA, b, sizeB)
  {
    var p, q, n := Slicing(a, sizeA), Slicing(b, sizeB), Total(|a|, sizeA);
    SlicesTile(a, sizeA);
    if SameSlices(a, sizeA, b, sizeB) {
      forall choice: set<nat> ensures Glue(Mixed(p, q, choice), n) == a {
        forall i: nat | i < n ensures Mixed(p, q, choice)(i) == p(i) {
          assert Slice(a, sizeA, i) == Slice(b, sizeB, i);
        }
        GlueSame(Mixed(p, q, choice), p, n);
      }
    } else {
      var i: nat :| i < n && Slice(a, sizeA, i) != Slice(b, sizeB, i);
      GlueAround(Mixed(p, q, {i}), p, n, i);
      assert Glue(Mixed(p, q, {i}), n) != a;
    }
  }

  predicate SameSlices(a: Bytes, sizeA: nat, b: Bytes, sizeB: nat)
    requires sizeA > 0
  {
    forall i: nat :: i < Total(|a|, sizeA) ==> Slice(a, sizeA, i) == Slice(b, sizeB, i)
  }

  /** Resuming the same file with another chunk size goes well only when both sizes cover the whole file. */
  lemma SameFileIff(file: Bytes, sizeA: nat, sizeB: nat)
    requires sizeA > 0 && file != []
    ensures SameSlices(file, sizeA, file, sizeB) <==> Min(sizeA, |file|) == Min(sizeB, |file|)
  {
    hide Start, Total;
    TotalIsCeiling(|file|, sizeA);
    StartStep(sizeA, 0);
    StartStep(sizeB, 0);
    var n := Total(|file|, sizeA);
    if SameSlices(file, sizeA, file, sizeB) {
      assert |Slice(file, sizeA, 0)| == |Slice(file, sizeB, 0)|;
    } else if Min(sizeA, |file|) == Min(sizeB, |file|) {
      var i: nat :| i < n && Slice(file, sizeA, i) != Slice(file, sizeB, i);
      assert i > 0;
      if n > 1 {
        StartGrows(sizeA, 0, n - 1);
      }
      assert false;
    }
  }

  // Parts of a direct upload.

  const MIN_PART_SIZE := 5 * 1024 * 1024
  const MAX_PART_COUNT := 10000

  function CalculatePartSize(size: nat): (int, int) {
    if size < MIN_PART_SIZE then (size, 1)
    else
      var count := ChunkCount(size, MIN_PART_SIZE);
      if count > MAX_PART_COUNT then
        var partSize := ChunkCount(size, MAX_PART_COUNT);
        (partSize, if partSize > 0 then ChunkCount(size, partSize) else 0)
      else (MIN_PART_SIZE, count)
  }

  /** The parts' size before any sum can wrap. */
  function PartSize(size: nat): nat { Max(MIN_PART_SIZE, Total(size, MAX_PART_COUNT)) }

  /** No part but the last is too small, and there are not too many of them, exactly when size and part size add up
      to at most 2^63; otherwise there are none at all. */
  lemma PartSizeAllowed(size: nat)
    requires MIN_PART_SIZE <= size < TWO63
    ensures var (partSize, count) := CalculatePartSize(size);
            if size + PartSize(size) <= TWO63
            then partSize >= 5242880 && 1 <= count <= 10000 && count == Total(size, partSize)
            else count <= 0
  {
    var least, count := Total(size, MAX_PART_COUNT), Total(size, MIN_PART_SIZE);
    ChunkCountIff(size, MIN_PART_SIZE);
    TotalIsCeiling(size, MIN_PART_SIZE);
    hide ChunkCount, Total, Start;
    if size + MIN_PART_SIZE <= TWO63 {
      if count > MAX_PART_COUNT {
        ChunkCountIff(size, MAX_PART_COUNT);
        LargeParts(size);
        ChunkCountIff(size, least);
        FewParts(size);
      } else {
        NoSmallerPart(size);
      }
    }
  }

  lemma LargeParts(size: nat)
    requires 0 < size < TWO63 && Total(size, MIN_PART_SIZE) > MAX_PART_COUNT
    ensures MIN_PART_SIZE <= Total(size, MAX_PART_COUNT) < TWO63 && Total(size, Total(size, MAX_PART_COUNT)) > 0
  {
    TotalIsCeiling(size, MIN_PART_SIZE);
    TotalIsCeiling(size, MAX_PART_COUNT);
    TotalIsCeiling(size, Total(size, MAX_PART_COUNT));
  }

  /** A file below 5 MiB is one part, whole. */
  lemma SmallFileOnePart(size: nat)
    requires size < 5242880
    ensures CalculatePartSize(size) == (size, 1)
  {
  }

  lemma FewParts(size: nat)
    requires size > 0
    ensures var partSize := Total(size, MAX_PART_COUNT); partSize > 0 && Total(size, partSize) <= MAX_PART_COUNT
  {
    var partSize := Total(size, MAX_PART_COUNT);
    TotalIsCeiling(size, MAX_PART_COUNT);
    TotalIsCeiling(size, partSize);
    assert Start(partSize, MAX_PART_COUNT) == Start(MAX_PART_COUNT, partSize);
    hide Start;
    var n := Total(size, partSize);
    if n - 1 > MAX_PART_COUNT { StartGrows(partSize, MAX_PART_COUNT, n - 1); }
  }

  lemma NoSmallerPart(size: nat)
    requires size > 0 && Total(size, MIN_PART_SIZE) <= MAX_PART_COUNT
    ensures PartSize(size) == MIN_PART_SIZE
  {
    TotalIsCeiling(size, MIN_PART_SIZE);
    TotalIsCeiling(size, MAX_PART_COUNT);
  }

  datatype Part = Part(number: nat, offset: nat, size: nat)

  /** buildPresignedUploadInfo: the parts of a large file; none when the sizes wrap. */
  method BuildParts(fileSize: nat) returns (parts: seq<Part>)
    requires MIN_PART_SIZE <= fileSize < TWO63
    ensures fileSize + PartSize(fileSize) <= TWO63 <==> parts != []
    ensures parts != [] ==> Tiling(parts, fileSize) && |parts| == CalculatePartSize(fileSize).1 <= MAX_PART_COUNT
  {
    PartSizeAllowed(fileSize);
    var (partSize, partCount) := CalculatePartSize(fileSize);
    hide CalculatePartSize, PartSize, Tiling;
    parts := [];
    if partCount <= 0 { return; }
    TotalIsCeiling(fileSize, partSize);
    var i := 0;
    while i < partCount
      invariant 0 <= i <= partCount && |parts| == i
      invariant forall k :: 0 <= k < i ==> parts[k].number == k && parts[k].offset == Start(partSize, k)
      invariant forall k :: 0 <= k < i && k < partCount - 1 ==> parts[k].size == partSize
      invariant i == partCount ==> parts[i - 1].offset + parts[i - 1].size == fileSize && parts[i - 1].size > 0
    {
      var offset := Start(partSize, i);
      var size: int := partSize;
      if i == partCount - 1 {
        size := fileSize - offset;
        if size < 0 { size := 0; }
      }
      parts := parts + [Part(i, offset, size)];
      i := i + 1;
    }
    PartsTile(parts, partSize, fileSize);
  }

  lemma PartsTile(parts: seq<Part>, partSize: nat, fileSize: nat)
    requires parts != [] && partSize >= MIN_PART_SIZE
    requires forall k :: 0 <= k < |parts| ==> parts[k].number == k && parts[k].offset == Start(partSize, k)
    requires forall k :: 0 <= k < |parts| - 1 ==> parts[k].size == partSize
    requires parts[|parts| - 1].offset + parts[|parts| - 1].size == fileSize && parts[|parts| - 1].size > 0
    ensures Tiling(parts, fileSize)
  {
    StartStep(partSize, 0);
    forall k | 0 < k < |parts| ensures parts[k].offset == parts[k - 1].offset + parts[k - 1].size {
      StartStep(partSize, k - 1);
    }
  }

  /** So every byte of the file lies in exactly one part, and no part reaches beyond the file. */
  lemma {:induction false} TilingCovers(parts: seq<Part>, fileSize: nat, at: nat, k: nat)
    requires Tiling(parts, fileSize) && k < |parts|
    ensures parts[k].offset <= at < parts[k].offset + parts[k].size ==>
              at < fileSize && forall j :: 0 <= j < |parts| && j != k ==>
                !(parts[j].offset <= at < parts[j].offset + parts[j].size)
    ensures at < fileSize ==>
              exists j :: 0 <= j < |parts| && parts[j].offset <= at < parts[j].offset + parts[j].size
    ensures parts[k].number == k && parts[k].size >= (if k < |parts| - 1 then 5242880 else 1)
  {
    forall i, j | 0 <= i < j < |parts| ensures parts[i].offset + parts[i].size <= parts[j].offset {
      PartsAscend(parts, fileSize, i, j);
    }
    if k < |parts| - 1 { PartsAscend(parts, fileSize, k, |parts| - 1); }
    if at < fileSize { PartOf(parts, fileSize, at, |parts| - 1); }
  }

  lemma {:induction false} PartsAscend(parts: seq<Part>, fileSize: nat, i: nat, j: nat)
    requires Tiling(parts, fileSize) && i < j < |parts|
    ensures parts[i].offset + parts[i].size <= parts[j].offset
    decreases j
  {
    assert parts[j].offset == parts[j - 1].offset + parts[j - 1].size;
    if i < j - 1 { PartsAscend(parts, fileSize, i, j - 1); }
  }

  lemma {:induction false} PartOf(parts: seq<Part>, fileSize: nat, at: nat, k: nat)
    requires Tiling(parts, fileSize) && k < |parts| && at < parts[k].offset + parts[k].size
    ensures exists j :: 0 <= j < |parts| && parts[j].offset <= at < parts[j].offset + parts[j].size
  {
    if at < parts[k].offset {
      assert k > 0 && parts[k].offset == parts[k - 1].offset + parts[k - 1].size;
      PartOf(parts, fileSize, at, k - 1);
    }
  }

  /** The parts are numbered, adjoin and cover the file; none is empty and only the last may be small. */
  predicate Tiling(parts: seq<Part>, fileSize: nat) {
    |parts| > 0
    && (forall k :: 0 <= k < |parts| ==> parts[k].number == k && parts[k].size > 0)
    && parts[0].offset == 0 && parts[|parts| - 1].offset + parts[|parts| - 1].size == fileSize
    && (forall k :: 0 < k < |parts| ==> parts[k].offset == parts[k - 1].offset + parts[k - 1].size)
    && (forall k :: 0 <= k < |parts| - 1 ==> parts[k].size >= MIN_PART_SIZE)
  }
}
