/** Virtual paths: prefix queries, normalised directory paths and well-formed names. */
module Paths {
  // Prefix queries. The database compares with LIKE, which ignores the case of ASCII letters.

  function Lower(c: char): char {
    if 'A' <= c <= 'Z' then (c as int + 32) as char else c
  }

  /** The LIKE operator with ESCAPE '|'. */
  predicate LikeMatches(pattern: string, s: string)
    decreases |pattern|, |s|
  {
    if pattern == "" then s == ""
    else if pattern[0] == '|' then
      |pattern| > 1 && s != "" && Lower(s[0]) == Lower(pattern[1]) && LikeMatches(pattern[2..], s[1..])
    else if pattern[0] == '%' then
      LikeMatches(pattern[1..], s) || (s != "" && LikeMatches(pattern, s[1..]))
    else if pattern[0] == '_' then s != "" && LikeMatches(pattern[1..], s[1..])
    else s != "" && Lower(s[0]) == Lower(pattern[0]) && LikeMatches(pattern[1..], s[1..])
  }

  function Escaped(s: string): string {
    if s == "" then ""
    else (if s[0] in {'%', '_', '|'} then ['|', s[0]] else [s[0]]) + Escaped(s[1..])
  }

  lemma EscapedStep(s: string, i: nat)
    requires i < |s|
    ensures Escaped(s[i..]) == (if s[i] in {'%', '_', '|'} then ['|', s[i]] else [s[i]]) + Escaped(s[i + 1..])
  {
    assert s[i..][1..] == s[i + 1..];
  }

  lemma EscapedEnd(s: string)
    ensures Escaped(s[|s|..]) == ""
  {
  }

  method EscapeLikePrefix(s: string) returns (out: string)
    ensures out == Escaped(s)
  {
    hide Escaped;
    out := "";
    for i := 0 to |s|
      invariant out + Escaped(s[i..]) == Escaped(s)
    {
      var c := s[i];
      ghost var before, rest := out, Escaped(s[i + 1..]);
      EscapedStep(s, i);
      if c == '%' || c == '_' || c == '|' {
        out := out + ['|'];
        assert out + [c] + rest == before + (['|', c] + rest);
      } else {
        assert out + [c] + rest == before + ([c] + rest);
      }
      out := out + [c];
    }
    EscapedEnd(s);
  }

  /** What a query with an escaped prefix and a final '%' selects. */
  predicate Like(name: string, prefix: string) {
    |prefix| <= |name| && forall i :: 0 <= i < |prefix| ==> Lower(name[i]) == Lower(prefix[i])
  }

  lemma {:induction false} PercentMatchesAll(s: string)
    ensures LikeMatches("%", s)
  {
    if s != "" { PercentMatchesAll(s[1..]); }
    assert "%"[1..] == "";
  }

  /** Escaping leaves no wildcard active: the query selects by prefix, up to letter case. */
  lemma {:induction false} EscapedPrefixQuery(prefix: string, s: string)
    ensures LikeMatches(Escaped(prefix) + "%", s) <==> Like(s, prefix)
    decreases |prefix|
  {
    var p := Escaped(prefix) + "%";
    if prefix == "" {
      assert p == "%";
      PercentMatchesAll(s);
    } else {
      var rest := Escaped(prefix[1..]) + "%";
      if prefix[0] in {'%', '_', '|'} {
        assert p == ['|', prefix[0]] + rest && p[2..] == rest;
      } else {
        assert p == [prefix[0]] + rest && p[1..] == rest;
      }
      if s != "" {
        EscapedPrefixQuery(prefix[1..], s[1..]);
        LikeTail(s, prefix);
      }
    }
  }

  lemma LikeTail(s: string, prefix: string)
    requires s != "" && prefix != ""
    ensures Like(s, prefix) <==> Lower(s[0]) == Lower(prefix[0]) && Like(s[1..], prefix[1..])
  {
    if Lower(s[0]) == Lower(prefix[0]) && Like(s[1..], prefix[1..]) {
      forall i | 0 <= i < |prefix| ensures Lower(s[i]) == Lower(prefix[i]) {
        if i > 0 { assert s[1..][i - 1] == s[i] && prefix[1..][i - 1] == prefix[i]; }
      }
    }
    if Like(s, prefix) {
      forall i | 0 <= i < |prefix| - 1 ensures Lower(s[1..][i]) == Lower(prefix[1..][i]) {
        assert Lower(s[i + 1]) == Lower(prefix[i + 1]);
      }
    }
  }

  lemma PrefixIsLike(name: string, prefix: string)
    requires prefix <= name
    ensures Like(name, prefix)
  {
  }

  /** strings.TrimPrefix */
  function TrimPrefix(s: string, prefix: string): string {
    if prefix <= s then s[|prefix|..] else s
  }

  // Directory paths.

  predicate IsSpace(c: char) {
    c in {' ', '\t', '\n', '\r', 11 as char, 12 as char, 0x85 as char, 0xa0 as char}
  }

  function TrimLeft(s: string): string {
    if s != "" && IsSpace(s[0]) then TrimLeft(s[1..]) else s
  }

  function TrimRight(s: string): string {
    if s != "" && IsSpace(s[|s| - 1]) then TrimRight(s[..|s| - 1]) else s
  }

  function TrimSpace(s: string): string { TrimRight(TrimLeft(s)) }

  /** Backslashes become slashes. */
  function Slashed(s: string): (t: string)
    ensures |t| == |s| && '\\' !in t
    ensures forall i :: 0 <= i < |s| ==> t[i] == if s[i] == '\\' then '/' else s[i]
  {
    if s == "" then "" else [if s[0] == '\\' then '/' else s[0]] + Slashed(s[1..])
  }

  predicate HasDoubleSlash(s: string) {
    exists i :: 0 < i < |s| && s[i - 1] == s[i] == '/'
  }

  /** One pass that replaces "//" by "/", left to right. */
  function Collapsed(s: string): string {
    if |s| < 2 then s
    else if s[0] == s[1] == '/' then "/" + Collapsed(s[2..])
    else [s[0]] + Collapsed(s[1..])
  }

  /** The non-empty segments between slashes; `open` is the segment being read. */
  function SegmentsFrom(s: string, open: string): seq<string> {
    if s == "" then (if open == "" then [] else [open])
    else if s[0] == '/' then (if open == "" then [] else [open]) + SegmentsFrom(s[1..], "")
    else SegmentsFrom(s[1..], open + [s[0]])
  }

  function Segments(s: string): seq<string> { SegmentsFrom(s, "") }

  lemma {:induction false} CollapsedClean(s: string)
    requires '\\' !in s
    ensures '\\' !in Collapsed(s)
    decreases |s|
  {
    if |s| >= 2 { CollapsedClean(if s[0] == s[1] == '/' then s[2..] else s[1..]); }
  }

  lemma {:induction false} CollapsedSegments(s: string, open: string)
    ensures SegmentsFrom(Collapsed(s), open) == SegmentsFrom(s, open)
    decreases |s|
  {
    if |s| >= 2 {
      if s[0] == s[1] == '/' {
        CollapsedSegments(s[2..], "");
        assert Collapsed(s)[1..] == Collapsed(s[2..]) && s[1..][1..] == s[2..];
      } else {
        CollapsedSegments(s[1..], if s[0] == '/' then "" else open + [s[0]]);
        assert Collapsed(s)[1..] == Collapsed(s[1..]);
      }
    }
  }

  lemma {:induction false} CollapsedShrinks(s: string)
    ensures |Collapsed(s)| <= |s| && (HasDoubleSlash(s) ==> |Collapsed(s)| < |s|)
    decreases |s|
  {
    if |s| >= 2 {
      if s[0] == s[1] == '/' {
        CollapsedShrinks(s[2..]);
      } else {
        CollapsedShrinks(s[1..]);
        if HasDoubleSlash(s) {
          var i :| 0 < i < |s| && s[i - 1] == s[i] == '/';
          assert s[1..][i - 2] == s[1..][i - 1] == '/';
        }
      }
    }
  }

  lemma CollapsedFacts(s: string, open: string)
    ensures |Collapsed(s)| <= |s| && (HasDoubleSlash(s) ==> |Collapsed(s)| < |s|)
    ensures SegmentsFrom(Collapsed(s), open) == SegmentsFrom(s, open)
    ensures s != "" ==> Collapsed(s) != "" && Collapsed(s)[0] == s[0]
  {
    CollapsedShrinks(s);
    CollapsedSegments(s, open);
    hide SegmentsFrom, HasDoubleSlash;
  }

  function UnlessEmpty(seg: string): seq<string> { if seg == "" then [] else [seg] }

  lemma {:induction false} SegmentsFromIs(seg: string, open: string, rest: string)
    requires '/' !in seg
    ensures SegmentsFrom(seg + ("/" + rest), open) == UnlessEmpty(open + seg) + SegmentsFrom(rest, "")
    ensures SegmentsFrom(seg, open) == UnlessEmpty(open + seg)
  {
    if seg == "" {
      assert seg + ("/" + rest) == "/" + rest && ("/" + rest)[1..] == rest && open + seg == open;
    } else {
      assert (seg + ("/" + rest))[1..] == seg[1..] + ("/" + rest);
      assert open + seg == (open + [seg[0]]) + seg[1..];
      SegmentsFromIs(seg[1..], open + [seg[0]], rest);
    }
  }

  /** The segments are what stands between the slashes, without the empty ones. */
  lemma SegmentsAre(seg: string, rest: string)
    requires '/' !in seg
    ensures Segments(seg + ("/" + rest)) == (if seg == "" then [] else [seg]) + Segments(rest)
    ensures Segments(seg) == if seg == "" then [] else [seg]
  {
    SegmentsFromIs(seg, "", rest);
    assert "" + seg == seg;
  }

  lemma {:induction false} SegmentsSlashAtEnd(s: string, open: string)
    ensures SegmentsFrom(s + "/", open) == SegmentsFrom(s, open)
  {
    if s == "" {
      assert s + "/" == "/";
      assert "/"[1..] == "";
    } else {
      assert (s + "/")[1..] == s[1..] + "/";
      SegmentsSlashAtEnd(s[1..], if s[0] == '/' then "" else open + [s[0]]);
    }
  }

  /** No backslash, no double slash, and a final slash unless empty. */
  predicate IsDirPath(s: string) {
    '\\' !in s && !HasDoubleSlash(s) && (s == "" || s[|s| - 1] == '/')
  }

  method NormalizeDirPath(raw: string) returns (s: string)
    ensures IsDirPath(s)
    ensures '\\' !in s && (s == "" || s[|s| - 1] == '/') && forall i :: 0 < i < |s| && s[i] == '/' ==> s[i - 1] != '/'
    ensures Segments(s) == Segments(Slashed(TrimSpace(raw)))
    ensures (s != "" && s[0] == '/') <==> "//" <= Slashed(TrimSpace(raw))
  {
    ghost var t := Slashed(TrimSpace(raw));
    s := TrimSpace(raw);
    s := Slashed(s);
    if "/" <= s {
      s := s[1..];
    }
    assert (s != "" && s[0] == '/') <==> "//" <= t;
    while HasDoubleSlash(s)
      invariant '\\' !in s && Segments(s) == Segments(t)
      invariant (s != "" && s[0] == '/') <==> "//" <= t
      decreases |s|
    {
      CollapsedFacts(s, "");
      CollapsedClean(s);
      s := Collapsed(s);
    }
    if s != "" && s[|s| - 1] != '/' {
      SegmentsSlashAtEnd(s, "");
      s := s + "/";
    }
  }

  // What the helpers are, on strings put together from their parts.

  /** The letters of ASCII lose their case; nothing else changes. */
  lemma LowerIs(c: char, k: nat)
    requires k < 26
    ensures Lower('A' + k as char) == 'a' + k as char == Lower('a' + k as char)
    ensures !('A' <= c <= 'Z') ==> Lower(c) == c
  {
  }

  /** A pattern's first character: any run, any one character, the next character itself, or itself. */
  lemma LikeIs(p: string, s: string, c: char)
    ensures LikeMatches("%" + p, s) <==> exists k :: 0 <= k <= |s| && LikeMatches(p, s[k..])
    ensures LikeMatches("_" + p, s) <==> s != "" && LikeMatches(p, s[1..])
    ensures LikeMatches("|" + ([c] + p), s) <==> s != "" && Lower(s[0]) == Lower(c) && LikeMatches(p, s[1..])
    ensures c !in {'%', '_', '|'} ==>
              (LikeMatches([c] + p, s) <==> s != "" && Lower(s[0]) == Lower(c) && LikeMatches(p, s[1..]))
    ensures LikeMatches("", s) <==> s == ""
  {
    AnyRun(p, s);
    assert ("_" + p)[1..] == p && ("|" + ([c] + p))[1..] == [c] + p && ([c] + p)[1..] == p;
    assert ("|" + ([c] + p))[2..] == p;
  }

  lemma {:induction false} AnyRun(p: string, s: string)
    ensures LikeMatches("%" + p, s) <==> exists k :: 0 <= k <= |s| && LikeMatches(p, s[k..])
  {
    assert ("%" + p)[1..] == p && s[0..] == s;
    if s != "" {
      AnyRun(p, s[1..]);
      forall k | 1 <= k <= |s| ensures s[1..][k - 1..] == s[k..] {}
      if k :| 0 <= k <= |s| && LikeMatches(p, s[k..]) {
        assert k == 0 || LikeMatches(p, s[1..][k - 1..]);
      }
      if LikeMatches("%" + p, s[1..]) {
        var k :| 0 <= k <= |s[1..]| && LikeMatches(p, s[1..][k..]);
        assert LikeMatches(p, s[k + 1..]);
      }
    }
  }

  lemma TrimPrefixIs(prefix: string, rest: string, s: string)
    ensures TrimPrefix(prefix + rest, prefix) == rest
    ensures (forall r: string :: s != prefix + r) ==> TrimPrefix(s, prefix) == s
  {
    assert (prefix + rest)[|prefix|..] == rest;
    if prefix <= s { assert s == prefix + s[|prefix|..]; }
  }

  /** Tab to carriage return, space, next line and no-break space. */
  predicate Blank(c: char) {
    var n := c as int;
    9 <= n <= 13 || n == 32 || n == 133 || n == 160
  }

  lemma {:induction false} TrimLeftIs(a: string, t: string)
    requires (forall i :: 0 <= i < |a| ==> Blank(a[i])) && (t == "" || !Blank(t[0]))
    ensures TrimLeft(a + t) == t
  {
    if a == "" {
      assert a + t == t;
    } else {
      assert (a + t)[1..] == a[1..] + t;
      TrimLeftIs(a[1..], t);
    }
  }

  lemma {:induction false} TrimRightIs(t: string, b: string)
    requires (forall i :: 0 <= i < |b| ==> Blank(b[i])) && (t == "" || !Blank(t[|t| - 1]))
    ensures TrimRight(t + b) == t
  {
    if b == "" {
      assert t + b == t;
    } else {
      assert (t + b)[..|t + b| - 1] == t + b[..|b| - 1];
      TrimRightIs(t, b[..|b| - 1]);
    }
  }

  /** White space goes at both ends, up to what is none. */
  lemma TrimSpaceIs(a: string, t: string, b: string)
    requires (forall i :: 0 <= i < |a| ==> Blank(a[i])) && forall i :: 0 <= i < |b| ==> Blank(b[i])
    requires t != "" && !Blank(t[0]) && !Blank(t[|t| - 1])
    ensures TrimSpace(a + t + b) == t
  {
    assert a + t + b == a + (t + b);
    TrimLeftIs(a, t + b);
    TrimRightIs(t, b);
  }

  lemma {:induction false} SlashedAt(s: string, i: nat)
    requires i < |s|
    ensures |Slashed(s)| == |s| && Slashed(s)[i] == if s[i] == '\\' then '/' else s[i]
  {
    if i > 0 { SlashedAt(s[1..], i - 1); } else if |s| > 1 { SlashedAt(s[1..], 0); }
  }

  lemma HasSuffixIs(a: string, suffix: string, s: string)
    ensures HasSuffix(a + suffix, suffix)
    ensures HasSuffix(s, suffix) ==> s == s[..|s| - |suffix|] + suffix
  {
    assert (a + suffix)[|a|..] == suffix;
  }

  lemma ByteLengthIs(s: string, c: char)
    ensures var n := c as int;
            ByteLength(s + [c]) == ByteLength(s) + if n <= 127 then 1 else if n <= 2047 then 2
                                                   else if n <= 65535 then 3 else 4
    ensures ByteLength("") == 0
  {
    assert (s + [c])[..|s|] == s;
  }

  /** Segments with slashes between them. */
  function Joined(segments: seq<string>): string
    requires segments != []
  {
    if |segments| == 1 then segments[0] else segments[0] + ("/" + Joined(segments[1..]))
  }

  lemma {:induction false} SplitSegment(seg: string, open: string, rest: string)
    requires '/' !in seg
    ensures SplitFrom(seg + ("/" + rest), open) == [open + seg] + SplitFrom(rest, "")
    ensures SplitFrom(seg, open) == [open + seg]
  {
    if seg == "" {
      assert seg + ("/" + rest) == "/" + rest && ("/" + rest)[1..] == rest && open + seg == open;
    } else {
      assert (seg + ("/" + rest))[1..] == seg[1..] + ("/" + rest);
      assert open + seg == (open + [seg[0]]) + seg[1..];
      SplitSegment(seg[1..], open + [seg[0]], rest);
    }
  }

  /** Splitting undoes joining. */
  lemma {:induction false} SplitJoined(segments: seq<string>)
    requires segments != [] && forall i :: 0 <= i < |segments| ==> '/' !in segments[i]
    ensures SplitFrom(Joined(segments), "") == segments
  {
    var first := segments[0];
    assert "" + first == first;
    if |segments| == 1 {
      SplitSegment(first, "", "");
      assert segments == [first];
    } else {
      SplitSegment(first, "", Joined(segments[1..]));
      SplitJoined(segments[1..]);
      assert segments == [first] + segments[1..];
    }
  }

  /** A name is accepted exactly when it is short enough, has no backslash and none of its segments is empty or dots. */
  lemma WellFormedIs(segments: seq<string>)
    requires segments != [] && forall i :: 0 <= i < |segments| ==> '/' !in segments[i]
    ensures var name := Joined(segments);
            WellFormedName(name) <==>
            ByteLength(name) < 1025 && (forall i :: 0 <= i < |name| ==> name[i] != '\\')
            && forall i :: 0 <= i < |segments| ==> segments[i] != "" && segments[i] != "." && segments[i] != ".."
  {
    SplitJoined(segments);
    if Joined(segments) == "" {
      assert SplitFrom("", "") == [""];
      assert segments[0] == "";
    }
  }

  // Placeholders of empty directories.

  const KEEP := ".keep"

  predicate HasSuffix(s: string, suffix: string) {
    |suffix| <= |s| && s[|s| - |suffix|..] == suffix
  }

  // Well-formed names.

  /** strings.Split at slashes; empty segments are kept. */
  function SplitFrom(s: string, open: string): (r: seq<string>)
    ensures r != []
  {
    if s == "" then [open]
    else if s[0] == '/' then [open] + SplitFrom(s[1..], "")
    else SplitFrom(s[1..], open + [s[0]])
  }

  /** The length in UTF-8, which is what the server counts. */
  function ByteLength(s: string): nat {
    if s == "" then 0
    else ByteLength(s[..|s| - 1])
         + var c := s[|s| - 1] as int;
           if c < 0x80 then 1 else if c < 0x800 then 2 else if c < 0x1_0000 then 3 else 4
  }

  lemma {:induction false} ByteLengthBound(s: string)
    ensures ByteLength(s) <= 4 * |s|
  {
    if s != "" { ByteLengthBound(s[..|s| - 1]); }
  }

  predicate BadSegment(seg: string) { seg == "" || seg == "." || seg == ".." }

  predicate WellFormedName(s: string) {
    && s != "" && ByteLength(s) <= 1024 && '\\' !in s
    && forall i :: 0 <= i < |SplitFrom(s, "")| ==> !BadSegment(SplitFrom(s, "")[i])
  }

  method ValidateFilePath(filename: string) returns (ok: bool)
    ensures ok <==> WellFormedName(filename)
  {
    SplitEmpties(filename, "");
    if filename == "" || ByteLength(filename) > 1024 || "/" <= filename || '\\' in filename
       || HasDoubleSlash(filename)
    {
      return false;
    }
    var segments := SplitFrom(filename, "");
    for i := 0 to |segments|
      invariant forall j :: 0 <= j < i ==> !BadSegment(segments[j])
    {
      if BadSegment(segments[i]) {
        return false;
      }
    }
    return true;
  }

  /** A leading slash or a double slash shows up as an empty segment. */
  lemma {:induction false} SplitEmpties(s: string, open: string)
    ensures "/" <= s && open == "" ==> SplitFrom(s, open)[0] == ""
    ensures HasDoubleSlash(s) ==> exists i :: 0 <= i < |SplitFrom(s, open)| && SplitFrom(s, open)[i] == ""
  {
    if s != "" {
      var next := if s[0] == '/' then "" else open + [s[0]];
      SplitEmpties(s[1..], next);
      if HasDoubleSlash(s) {
        var i :| 0 < i < |s| && s[i - 1] == s[i] == '/';
        if i > 1 {
          assert s[1..][i - 2] == s[1..][i - 1] == '/';
        } else {
          assert "/" <= s[1..] && SplitFrom(s[1..], "")[0] == "";
        }
        var rest := SplitFrom(s[1..], next);
        var j :| 0 <= j < |rest| && rest[j] == "";
        assert SplitFrom(s, open)[if s[0] == '/' then j + 1 else j] == "";
      }
    }
  }
}
