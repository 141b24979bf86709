/** Directory listings computed from a flat list of file names: the share listing and the web client's. */
module Listing {
  import opened Paths

  /** Position of the first slash, or -1. */
  function IndexSlash(s: string): (i: int)
    ensures -1 <= i < |s| && (i >= 0 ==> s[i] == '/')
    ensures forall k :: 0 <= k < (if i >= 0 then i else |s|) ==> s[k] != '/'
  {
    if s == "" then -1
    else if s[0] == '/' then 0
    else
      var i := IndexSlash(s[1..]);
      if i < 0 then -1 else i + 1
  }

  /** Where one file goes in the listing of a directory. */
  datatype Place = Nowhere | Here(name: string) | Below(dir: string)

  datatype Entries = Entries(dirs: map<string, nat>, files: seq<string>)
  {
    function CountOf(d: string): nat { if d in dirs then dirs[d] else 0 }

    function Add(p: Place): Entries {
      match p
      case Nowhere => this
      case Here(name) => Entries(dirs, files + [name])
      case Below(d) => Entries(dirs[d := CountOf(d) + 1], files)
    }
  }

  /** The share listing: every name that ends in ".keep" is skipped. */
  function SharePlace(name: string, path: string): Place {
    var rel := TrimPrefix(name, path);
    var i := IndexSlash(rel);
    if HasSuffix(name, KEEP) || rel == "" then Nowhere
    else if i > 0 then Below(rel[..i])
    else Here(rel)
  }

  function ShareListing(names: seq<string>, path: string): Entries {
    if names == [] then Entries(map[], [])
    else ShareListing(names[..|names| - 1], path).Add(SharePlace(names[|names| - 1], path))
  }

  method ListShareDir(names: seq<string>, path: string) returns (dirMap: map<string, nat>, fileItems: seq<string>)
    ensures Entries(dirMap, fileItems) == ShareListing(names, path)
  {
    hide HasSuffix, IndexSlash, ShareListing, TrimPrefix;
    dirMap, fileItems := map[], [];
    NothingListed(path);
    for k := 0 to |names|
      invariant Entries(dirMap, fileItems) == ShareListing(names[..k], path)
    {
      ListingSnoc(names[..k], names[k], path);
      assert names[..k + 1] == names[..k] + [names[k]];
      var f := names[k];
      if HasSuffix(f, KEEP) {
        continue;
      }
      var relPath := TrimPrefix(f, path);
      if relPath == "" {
        continue;
      }
      var idx := IndexSlash(relPath);
      if idx > 0 {
        var subDir := relPath[..idx];
        dirMap := dirMap[subDir := (if subDir in dirMap then dirMap[subDir] else 0) + 1];
      } else {
        fileItems := fileItems + [relPath];
      }
    }
    assert names[..|names|] == names;
  }

  lemma NothingListed(path: string)
    ensures ShareListing([], path) == Entries(map[], []) && Shown([], path) == 0
  {
  }

  // What the two listings do with a name put together from its parts.

  lemma FirstSlash(d: string, rest: string)
    requires '/' !in d
    ensures IndexSlash(d + ("/" + rest)) == |d| && IndexSlash(d) == -1
  {
    var s := d + ("/" + rest);
    assert s[|d|] == '/' && forall k :: 0 <= k < |d| ==> s[k] == d[k];
  }

  /** The share listing: the directory itself and placeholders nowhere, a file here, everything else below its first
      segment, and what starts with a slash, which no valid name does, here. */
  lemma SharePlaceIs(path: string, d: string, rest: string)
    requires '/' !in d
    ensures SharePlace(path, path) == Nowhere
    ensures HasSuffix(path + d, KEEP) ==> SharePlace(path + d, path) == Nowhere
    ensures HasSuffix(path + (d + ("/" + rest)), KEEP) ==> SharePlace(path + (d + ("/" + rest)), path) == Nowhere
    ensures d != "" && !HasSuffix(path + d, KEEP) ==> SharePlace(path + d, path) == Here(d)
    ensures d != "" && !HasSuffix(path + (d + ("/" + rest)), KEEP) ==>
              SharePlace(path + (d + ("/" + rest)), path) == Below(d)
    ensures !HasSuffix(path + ("/" + rest), KEEP) ==> SharePlace(path + ("/" + rest), path) == Here("/" + rest)
  {
    FirstSlash(d, rest);
    FirstSlash("", rest);
    assert "" + ("/" + rest) == "/" + rest;
    TrimPrefixIs(path, d, path);
    TrimPrefixIs(path, d + ("/" + rest), path);
    TrimPrefixIs(path, "/" + rest, path);
    TrimPrefixIs(path, "", path);
    assert path + "" == path && (d + ("/" + rest))[..|d|] == d;
    hide HasSuffix, IndexSlash, TrimPrefix;
  }

  // Counting.

  /** How many names go to a place. */
  function Count(names: seq<string>, path: string, p: Place): nat {
    if names == [] then 0
    else Count(names[..|names| - 1], path, p) + if SharePlace(names[|names| - 1], path) == p then 1 else 0
  }

  /** How many names appear anywhere in the listing. */
  function Shown(names: seq<string>, path: string): nat {
    if names == [] then 0
    else Shown(names[..|names| - 1], path) + if SharePlace(names[|names| - 1], path).Nowhere? then 0 else 1
  }

  /** How many names satisfy p. */
  function Tally(names: seq<string>, p: string -> bool): nat {
    if names == [] then 0 else Tally(names[..|names| - 1], p) + if p(names[|names| - 1]) then 1 else 0
  }

  lemma TallySnoc(names: seq<string>, name: string, p: string -> bool)
    ensures Tally(names + [name], p) == Tally(names, p) + if p(name) then 1 else 0
  {
    assert (names + [name])[..|names|] == names;
  }

  /** Files that are no placeholders. */
  function RealFile(): string -> bool { (name: string) => !HasSuffix(name, KEEP) }

  ghost function Sum(m: map<string, nat>): nat
    decreases |m|
  {
    if m == map[] then 0
    else
      var k :| k in m;
      m[k] + Sum(m - {k})
  }

  lemma {:induction false} SumWithout(m: map<string, nat>, k: string)
    requires k in m
    ensures Sum(m) == m[k] + Sum(m - {k})
    decreases |m|
  {
    var j :| j in m && Sum(m) == m[j] + Sum(m - {j});
    if j != k {
      SumWithout(m - {j}, k);
      SumWithout(m - {k}, j);
      assert m - {j} - {k} == m - {k} - {j};
    }
  }

  lemma SumAfterAdd(e: Entries, d: string)
    ensures Sum(e.Add(Below(d)).dirs) == Sum(e.dirs) + 1
  {
    var m := e.dirs[d := e.CountOf(d) + 1];
    SumWithout(m, d);
    assert m - {d} == e.dirs - {d};
    if d in e.dirs {
      SumWithout(e.dirs, d);
    } else {
      assert e.dirs - {d} == e.dirs;
    }
  }

  /** Every shown file is counted once: in one subdirectory or as a direct file. */
  lemma {:induction false} CountsAddUp(names: seq<string>, path: string)
    ensures var e := ShareListing(names, path);
            Sum(e.dirs) + |e.files| == Shown(names, path)
  {
    if names != [] {
      CountsAddUp(names[..|names| - 1], path);
      var e := ShareListing(names[..|names| - 1], path);
      match SharePlace(names[|names| - 1], path)
      case Nowhere =>
      case Here(_) =>
      case Below(d) => SumAfterAdd(e, d);
    }
  }

  /** For well-formed names that is every name that does not end in ".keep". */
  lemma {:induction false} ShownAreReal(names: seq<string>, path: string)
    requires ProperNames(names) && (path == "" || path[|path| - 1] == '/')
    ensures Shown(names, path) == Tally(names, RealFile())
  {
    hide WellFormedName, HasSuffix, IndexSlash;
    if names != [] {
      var rest, name := names[..|names| - 1], names[|names| - 1];
      assert WellFormedName(name);
      ShownAreReal(rest, path);
      WellFormedNonEmpty(name);
      if path != "" { NoFinalSlash(name, path); }
      assert TrimPrefix(name, path) != "";
    }
  }

  lemma WellFormedNonEmpty(name: string)
    requires WellFormedName(name)
    ensures name != ""
  {
  }

  /** Direct files and subdirectories' counts add up to the files under the path that are no placeholders. */
  lemma ListingTotal(names: seq<string>, path: string)
    requires ProperNames(names) && (path == "" || path[|path| - 1] == '/')
    ensures var e := ShareListing(names, path);
            Sum(e.dirs) + |e.files| == Tally(names, RealFile())
  {
    CountsAddUp(names, path);
    ShownAreReal(names, path);
  }

  lemma {:induction false} CountOfIsCount(names: seq<string>, path: string, d: string)
    ensures ShareListing(names, path).CountOf(d) == Count(names, path, Below(d))
  {
    if names != [] {
      CountOfIsCount(names[..|names| - 1], path, d);
    }
  }

  /** The names a prefix query returns. */
  function Query(all: seq<string>, prefix: string): seq<string> {
    if all == [] then []
    else
      var rest := Query(all[..|all| - 1], prefix);
      if Like(all[|all| - 1], prefix) then rest + [all[|all| - 1]] else rest
  }

  /** No name ends in a slash or has an empty segment after the directory. */
  predicate ProperNames(all: seq<string>) {
    forall k :: 0 <= k < |all| ==> WellFormedName(all[k])
  }

  /** The first segment of a relative name is d exactly when the name starts with d and a slash. */
  lemma FirstSegment(rel: string, d: string)
    requires d != "" && '/' !in d
    ensures IndexSlash(rel) > 0 && rel[..IndexSlash(rel)] == d <==> d + "/" <= rel
  {
    var i := IndexSlash(rel);
    if d + "/" <= rel {
      assert rel[|d|] == '/' && forall k :: 0 <= k < |d| ==> rel[k] == d[k];
      assert i == |d|;
    }
  }

  lemma PrefixExtends(name: string, path: string, tail: string)
    requires path <= name
    ensures path + tail <= name <==> tail <= name[|path|..]
  {
    assert name == path + name[|path|..];
    if path + tail <= name {
      assert name[|path|..|path + tail|] == tail;
    }
  }

  /** A name the query returns for the subdirectory although it only matches in another letter case. */
  function Stray(sub: string): string -> bool {
    (name: string) => Like(name, sub) && !(sub <= name) && !HasSuffix(name, KEEP)
  }

  /** A name the query returns for the directory in another letter case; nothing is cut off it, so its
      own first segment counts as a subdirectory. */
  function StrayAbove(path: string, d: string): string -> bool {
    (name: string) => Like(name, path) && !(path <= name) && d + "/" <= name && !HasSuffix(name, KEEP)
  }

  function One(b: bool): nat { if b then 1 else 0 }

  /** What one name adds to the two listings. */
  lemma PlacesBalance(name: string, path: string, d: string, sub: string)
    requires d != "" && '/' !in d && sub == path + (d + "/") && name != sub && name != ""
    ensures One(Like(name, sub) && !SharePlace(name, sub).Nowhere?) + One(StrayAbove(path, d)(name))
            == One(Like(name, path) && SharePlace(name, path) == Below(d)) + One(Stray(sub)(name))
  {
    hide Like, HasSuffix, IndexSlash;
    if path <= name {
      PrefixExtends(name, path, d + "/");
      FirstSegment(name[|path|..], d);
      PrefixIsLike(name, path);
    } else {
      FirstSegment(name, d);
    }
    if Like(name, sub) { LikeShorter(name, path, sub); }
    if sub <= name { PrefixIsLike(name, sub); }
  }

  lemma {:induction false} WellFormedEnd(s: string, open: string)
    requires s != "" && s[|s| - 1] == '/'
    ensures SplitFrom(s, open)[|SplitFrom(s, open)| - 1] == ""
  {
    if |s| > 1 {
      WellFormedEnd(s[1..], if s[0] == '/' then "" else open + [s[0]]);
    } else {
      assert s[1..] == "";
    }
  }

  lemma QuerySnoc(all: seq<string>, name: string, prefix: string)
    ensures Query(all + [name], prefix)
            == if Like(name, prefix) then Query(all, prefix) + [name] else Query(all, prefix)
  {
    hide Like;
    assert (all + [name])[..|all|] == all;
  }

  lemma ListingSnoc(names: seq<string>, name: string, path: string)
    ensures ShareListing(names + [name], path) == ShareListing(names, path).Add(SharePlace(name, path))
    ensures Shown(names + [name], path) == Shown(names, path) + if SharePlace(name, path).Nowhere? then 0 else 1
  {
    hide SharePlace;
    assert (names + [name])[..|names|] == names;
  }

  /** What listing a subdirectory shows and what its directory counts for it differ by the names that
      match in another letter case: each kind is counted on one side only. */
  lemma {:induction false} SubdirectoryBalance(all: seq<string>, path: string, d: string, sub: string)
    requires d != "" && '/' !in d && sub == path + (d + "/") && ProperNames(all)
    ensures Shown(Query(all, sub), sub) + Tally(all, StrayAbove(path, d))
            == ShareListing(Query(all, path), path).CountOf(d) + Tally(all, Stray(sub))
    decreases |all|
  {
    hide Like, SharePlace, Query, ShareListing, Shown, WellFormedName, Stray, StrayAbove, Tally;
    if all == [] {
      EmptyListing(path, d, sub);
    } else {
      var rest, name := all[..|all| - 1], all[|all| - 1];
      assert all == rest + [name];
      assert WellFormedName(name);
      SubdirectoryBalance(rest, path, d, sub);
      QuerySnoc(rest, name, path);
      QuerySnoc(rest, name, sub);
      ListingSnoc(Query(rest, path), name, path);
      ListingSnoc(Query(rest, sub), name, sub);
      TallySnoc(rest, name, Stray(sub));
      TallySnoc(rest, name, StrayAbove(path, d));
      NoFinalSlash(name, sub);
      WellFormedNonEmpty(name);
      PlacesBalance(name, path, d, sub);
    }
  }

  /** So the count of a subdirectory is the total of listing it exactly when as many names stray into one as
      into the other. */
  lemma SubdirectoryCount(all: seq<string>, path: string, d: string, sub: string)
    requires d != "" && '/' !in d && sub == path + (d + "/") && ProperNames(all)
    ensures ShareListing(Query(all, path), path).CountOf(d) == Shown(Query(all, sub), sub)
            <==> Tally(all, Stray(sub)) == Tally(all, StrayAbove(path, d))
  {
    SubdirectoryBalance(all, path, d, sub);
  }

  lemma EmptyListing(path: string, d: string, sub: string)
    ensures ShareListing(Query([], path), path).CountOf(d) == 0 == Shown(Query([], sub), sub)
    ensures Tally([], Stray(sub)) == 0 == Tally([], StrayAbove(path, d))
  {
  }

  function InDir(dir: char, file: char): string { [dir, '/', file] }

  lemma InDirFacts(dir: char, file: char)
    requires dir !in {'/', '.', '\\'} && file !in {'/', '.', '\\'}
    ensures var name := InDir(dir, file);
            WellFormedName(name) && IndexSlash(name) == 1 && !HasSuffix(name, KEEP)
  {
    var name := InDir(dir, file);
    var tail, last: string := ['/', file], [file];
    assert last[1..] == "" && tail[1..] == last && name[1..] == tail;
    assert "" + [file] == last && "" + [dir] == [dir];
    assert SplitFrom(last, "") == SplitFrom("", last) == [last];
    assert SplitFrom(tail, [dir]) == [[dir]] + [last];
    assert SplitFrom(name, "") == [[dir], last];
    ByteLengthBound(name);
  }

  lemma TwoNames(n: string, m: string, path: string)
    requires Like(n, path) && Like(m, path)
    ensures Query([n, m], path) == [n, m]
    ensures ShareListing([n, m], path) == Entries(map[], []).Add(SharePlace(n, path)).Add(SharePlace(m, path))
    ensures Shown([n, m], path) == One(!SharePlace(n, path).Nowhere?) + One(!SharePlace(m, path).Nowhere?)
  {
    hide Like, SharePlace;
    assert [n] + [m] == [n, m] && [] + [n] == [n];
    QuerySnoc([n], m, path);
    QuerySnoc([], n, path);
    NothingListed(path);
    ListingSnoc([n], m, path);
    ListingSnoc([], n, path);
  }

  /** Directories "A" and "a": the first is counted with one file, and lists two. */
  lemma CaseVariantListing()
    ensures var all := [InDir('A', 'x'), InDir('a', 'y')];
            ProperNames(all)
            && ShareListing(Query(all, ""), "").CountOf("A") == 1 && Shown(Query(all, "A/"), "A/") == 2
  {
    hide WellFormedName, SharePlace, Like, Query, ShareListing, Shown, InDir;
    var n, m := InDir('A', 'x'), InDir('a', 'y');
    InDirFacts('A', 'x');
    InDirFacts('a', 'y');
    PlacesOfVariants();
    TwoNames(n, m, "");
    TwoNames(n, m, "A/");
    assert "A"[0] != "a"[0];
  }

  lemma PlacesOfVariants()
    ensures SharePlace(InDir('A', 'x'), "") == Below("A") && SharePlace(InDir('a', 'y'), "") == Below("a")
    ensures !SharePlace(InDir('A', 'x'), "A/").Nowhere? && !SharePlace(InDir('a', 'y'), "A/").Nowhere?
    ensures forall name :: name in {InDir('A', 'x'), InDir('a', 'y')} ==> Like(name, "") && Like(name, "A/")
  {
    var n, m := InDir('A', 'x'), InDir('a', 'y');
    InDirFacts('A', 'x');
    InDirFacts('a', 'y');
    hide WellFormedName, IndexSlash, HasSuffix;
    assert n[..1] == "A" && m[..1] == "a" && n[0..] == n && m[0..] == m;
    assert Like(n, "A/") && Like(m, "A/");
    assert n[2..] == ['x'];
    assert m[0] == 'a';
  }

  lemma NoFinalSlash(name: string, sub: string)
    requires WellFormedName(name) && sub != "" && sub[|sub| - 1] == '/'
    ensures name != sub
  {
    if name == sub {
      WellFormedEnd(name, "");
    }
  }

  lemma LikeShorter(name: string, path: string, sub: string)
    requires path <= sub && Like(name, sub)
    ensures Like(name, path)
  {
  }

  // The listing of the web client.

  /** name.slice(n) */
  function Slice(name: string, n: nat): string {
    if n <= |name| then name[n..] else ""
  }

  /** buildChildren cuts the prefix off by length and knows only ".keep" itself. */
  function ChildPlace(name: string, prefix: string): Place {
    var rel := Slice(name, |prefix|);
    var i := IndexSlash(rel);
    if rel == "" || rel == KEEP then Nowhere
    else if i < 0 then Here(rel)
    else if rel[i + 1..] != "" && rel[i + 1..] != KEEP && !HasSuffix(rel[i + 1..], "/" + KEEP) then Below(rel[..i])
    else Nowhere
  }

  /** A placeholder only makes its directory appear. */
  function Marked(e: Entries, name: string, prefix: string): Entries {
    var rel := Slice(name, |prefix|);
    var i := IndexSlash(rel);
    if i >= 0 && ChildPlace(name, prefix).Nowhere? && rel[..i] !in e.dirs then Entries(e.dirs[rel[..i] := 0], e.files)
    else e.Add(ChildPlace(name, prefix))
  }

  function Children(names: seq<string>, prefix: string): Entries {
    if names == [] then Entries(map[], [])
    else Marked(Children(names[..|names| - 1], prefix), names[|names| - 1], prefix)
  }

  method BuildChildren(files: seq<string>, prefix: string) returns (dirs: map<string, nat>, fileList: seq<string>)
    ensures Entries(dirs, fileList) == Children(files, prefix)
  {
    hide IndexSlash, HasSuffix, Children, Slice;
    dirs, fileList := map[], [];
    NoChildren(prefix);
    for k := 0 to |files|
      invariant Entries(dirs, fileList) == Children(files[..k], prefix)
    {
      ChildrenSnoc(files[..k], files[k], prefix);
      assert files[..k + 1] == files[..k] + [files[k]];
      var rel := Slice(files[k], |prefix|);
      if rel == "" {
        continue;
      }
      var slashIdx := IndexSlash(rel);
      if slashIdx == -1 {
        if rel == KEEP {
          continue;
        }
        fileList := fileList + [rel];
      } else {
        var dirName := rel[..slashIdx];
        var rest := rel[slashIdx + 1..];
        if rest != "" && rest != KEEP && !HasSuffix(rest, "/" + KEEP) {
          dirs := dirs[dirName := (if dirName in dirs then dirs[dirName] else 0) + 1];
        } else if dirName !in dirs {
          dirs := dirs[dirName := 0];
        }
      }
    }
    assert files[..|files|] == files;
  }

  /** The web client: the prefix's length is cut off, whatever the prefix; placeholders count for nothing. */
  lemma ChildPlaceIs(path: string, cut: string, d: string, rest: string)
    requires '/' !in d && |cut| == |path|
    ensures ChildPlace(cut, path) == Nowhere
    ensures d != "" ==> ChildPlace(cut + d, path) == if d == ".keep" then Nowhere else Here(d)
    ensures ChildPlace(cut + (d + ("/" + rest)), path)
            == if rest == "" || rest == ".keep" || HasSuffix(rest, "/.keep") then Nowhere else Below(d)
    ensures forall e: Entries :: ChildPlace(cut + (d + ("/" + rest)), path).Nowhere? ==>
              Marked(e, cut + (d + ("/" + rest)), path) == if d in e.dirs then e else Entries(e.dirs[d := 0], e.files)
  {
    FirstSlash(d, rest);
    var rel := d + ("/" + rest);
    assert (cut + rel)[|path|..] == rel && (cut + d)[|path|..] == d && cut[|path|..] == "";
    assert rel[..|d|] == d && rel[|d| + 1..] == rest;
    assert "/" + KEEP == "/.keep";
    assert '/' in rel by { assert rel[|d|] == '/'; }
    assert '/' !in KEEP;
    hide HasSuffix, IndexSlash;
  }

  /** A name too short for the prefix is skipped. */
  lemma ShortNameSkipped(name: string, path: string, e: Entries)
    requires |name| <= |path|
    ensures ChildPlace(name, path) == Nowhere && Marked(e, name, path) == e
  {
    assert Slice(name, |path|) == "";
  }

  /** A name that ends in ".keep" without being a placeholder, such as "notes.keep". */
  predicate OddKeep(name: string, path: string) {
    var rel := Slice(name, |path|);
    HasSuffix(name, KEEP) && rel != "" && rel != KEEP && !HasSuffix(rel, "/" + KEEP)
  }

  /** What both listings ask of a name under the directory. */
  predicate Regular(name: string, path: string) {
    path <= name && WellFormedTail(name[|path|..]) && (path == "" || path[|path| - 1] == '/')
  }

  predicate WellFormedTail(rel: string) {
    rel != "" && rel[0] != '/' && rel[|rel| - 1] != '/'
  }

  /** Every well-formed name under a directory is regular. */
  lemma WellFormedIsRegular(name: string, path: string)
    requires WellFormedName(name) && path <= name && (path == "" || path[|path| - 1] == '/')
    ensures Regular(name, path)
  {
    var rel := name[|path|..];
    assert name == path + rel;
    SplitEmpties(name, "");
    if name[|name| - 1] == '/' {
      WellFormedEnd(name, "");
    }
    assert !(0 < |path| < |name| && name[|path| - 1] == '/' && name[|path|] == '/');
  }

  lemma SuffixOfTail(name: string, path: string)
    requires Regular(name, path)
    ensures HasSuffix(name, KEEP) <==> HasSuffix(name[|path|..], KEEP)
  {
    var rel := name[|path|..];
    assert name == path + rel;
    if |rel| < 5 <= |name| && path != "" {
      assert name[|name| - 5..][4 - |rel|] == name[|path| - 1] == '/';
      assert KEEP[4 - |rel|] != '/';
    }
    if |rel| >= 5 {
      assert name[|name| - 5..] == rel[|rel| - 5..];
    }
  }

  /** The suffix "/.keep" of a relative name shows in what follows its first slash. */
  lemma KeepAfterSlash(rel: string)
    requires IndexSlash(rel) >= 0
    ensures var rest := rel[IndexSlash(rel) + 1..];
            HasSuffix(rel, "/" + KEEP) <==> rest == KEEP || HasSuffix(rest, "/" + KEEP)
  {
    hide HasSuffix, IndexSlash;
    var i := IndexSlash(rel);
    assert rel == rel[..i] + ['/'] + rel[i + 1..];
    if HasSuffix(rel, "/" + KEEP) {
      KeepInRest(rel, i);
    } else {
      KeepFromRest(rel, i);
    }
  }

  lemma KeepInRest(rel: string, i: nat)
    requires i < |rel| && '/' !in rel[..i] && HasSuffix(rel, "/" + KEEP)
    ensures rel[i + 1..] == KEEP || HasSuffix(rel[i + 1..], "/" + KEEP)
  {
    var k := |rel| - 6;
    assert rel[k] == rel[k..][0] == '/';
    assert k >= i by {
      assert forall j :: 0 <= j < i ==> rel[j] == rel[..i][j];
    }
    assert rel[i + 1..] == rel[i..][1..];
    if k > i {
      assert rel[i + 1..][k - i - 1..] == rel[k..];
    }
  }

  lemma KeepFromRest(rel: string, i: nat)
    requires i < |rel| && rel[i] == '/'
    ensures rel[i + 1..] == KEEP || HasSuffix(rel[i + 1..], "/" + KEEP) ==> HasSuffix(rel, "/" + KEEP)
  {
    var rest := rel[i + 1..];
    if rest == KEEP {
      assert rel[i..] == ['/'] + rest;
    } else if HasSuffix(rest, "/" + KEEP) {
      assert rel[|rel| - 6..] == rest[|rest| - 6..];
    }
  }

  lemma KeepIsSuffix(rel: string)
    requires rel == KEEP || HasSuffix(rel, "/" + KEEP)
    ensures HasSuffix(rel, KEEP)
  {
    if rel != KEEP {
      assert rel[|rel| - 5..] == rel[|rel| - 6..][1..];
    }
  }

  /** The two listings place a regular name alike unless it only looks like a placeholder. */
  lemma PlacesCompare(name: string, path: string)
    requires Regular(name, path)
    ensures OddKeep(name, path) ==> SharePlace(name, path).Nowhere? && !ChildPlace(name, path).Nowhere?
    ensures !OddKeep(name, path) ==> SharePlace(name, path) == ChildPlace(name, path)
  {
    hide HasSuffix, IndexSlash;
    var rel := name[|path|..];
    SuffixOfTail(name, path);
    if IndexSlash(rel) >= 0 {
      KeepAfterSlash(rel);
      assert rel[IndexSlash(rel) + 1..] != "" by {
        assert IndexSlash(rel) < |rel| - 1;
      }
    } else {
      NoSlashNoSuffix(rel);
    }
    if rel == KEEP || HasSuffix(rel, "/" + KEEP) {
      KeepIsSuffix(rel);
    }
  }

  lemma NoSlashNoSuffix(rel: string)
    requires IndexSlash(rel) < 0
    ensures !HasSuffix(rel, "/" + KEEP)
  {
    if |rel| >= 6 {
      assert rel[|rel| - 6..][0] == rel[|rel| - 6] != '/';
    }
  }

  lemma MarkedCounts(e: Entries, name: string, prefix: string)
    ensures var m, p := Marked(e, name, prefix), ChildPlace(name, prefix);
            m.files == e.files + (if p.Here? then [p.name] else [])
            && forall d :: m.CountOf(d) == e.CountOf(d) + if p == Below(d) then 1 else 0
  {
    hide ChildPlace, IndexSlash;
  }

  lemma AddCounts(e: Entries, p: Place)
    ensures e.Add(p).files == e.files + (if p.Here? then [p.name] else [])
            && forall d :: e.Add(p).CountOf(d) == e.CountOf(d) + if p == Below(d) then 1 else 0
  {
  }

  lemma NoChildren(path: string)
    ensures Children([], path) == Entries(map[], [])
  {
  }

  lemma ChildrenSnoc(names: seq<string>, name: string, path: string)
    ensures Children(names + [name], path) == Marked(Children(names, path), name, path)
  {
    hide Marked;
    assert (names + [name])[..|names|] == names;
  }

  // The two listings of what one query returns.

  predicate DirPath(path: string) { path == "" || path[|path| - 1] == '/' }

  /** The root and every normalised directory are such paths. */
  lemma DirPathIs(path: string)
    ensures IsDirPath(path) ==> DirPath(path)
    ensures DirPath(path + "/") && DirPath("")
  {
  }

  /** A name that the query returns in another letter case, or that only looks like a placeholder. */
  predicate Unusual(name: string, path: string) { !(path <= name) || OddKeep(name, path) }

  /** The unusual names that the share listing, and that the web client, put at a place. */
  function SharedAt(path: string, p: Place): string -> bool {
    (name: string) => Unusual(name, path) && SharePlace(name, path) == p
  }

  function ShownAt(path: string, p: Place): string -> bool {
    (name: string) => Unusual(name, path) && ChildPlace(name, path) == p
  }

  /** The unusual names that the web client shows as direct files. */
  function ShownHere(path: string): string -> bool {
    (name: string) => Unusual(name, path) && ChildPlace(name, path).Here?
  }

  lemma UsualAgree(name: string, path: string)
    requires WellFormedName(name) && DirPath(path) && !Unusual(name, path)
    ensures SharePlace(name, path) == ChildPlace(name, path)
  {
    hide WellFormedName;
    WellFormedIsRegular(name, path);
    PlacesCompare(name, path);
  }

  /** An unusual name is never a direct file of the share listing. */
  lemma UnusualNotShared(name: string, path: string)
    requires WellFormedName(name) && DirPath(path) && Like(name, path) && Unusual(name, path)
    ensures !SharePlace(name, path).Here?
  {
    hide WellFormedName, HasSuffix;
    if path <= name {
      WellFormedIsRegular(name, path);
      PlacesCompare(name, path);
    } else {
      StartsNoSlash(name);
      assert name[|path| - 1] == '/';
    }
  }

  lemma StartsNoSlash(name: string)
    requires WellFormedName(name)
    ensures name != "" && name[0] != '/'
  {
    SplitEmpties(name, "");
  }

  /** What one more name does to the two listings. */
  lemma PlacesMove(e: Entries, f: Entries, name: string, path: string, d: string)
    requires WellFormedName(name) && DirPath(path) && Like(name, path)
    ensures var g, h := Marked(e, name, path), f.Add(SharePlace(name, path));
            var shown, shared := ShownAt(path, Below(d))(name), SharedAt(path, Below(d))(name);
            g.CountOf(d) - e.CountOf(d) + One(shared) == h.CountOf(d) - f.CountOf(d) + One(shown)
    ensures var g, h := Marked(e, name, path), f.Add(SharePlace(name, path));
            |g.files| - |e.files| == |h.files| - |f.files| + One(ShownHere(path)(name))
            && (e.files == f.files && !ShownHere(path)(name) ==> g.files == h.files)
  {
    hide WellFormedName, SharePlace, ChildPlace, Unusual, Marked, Like;
    MarkedCounts(e, name, path);
    AddCounts(f, SharePlace(name, path));
    if Unusual(name, path) {
      UnusualNotShared(name, path);
    } else {
      UsualAgree(name, path);
    }
  }

  /** The counts of a subdirectory, and the numbers of direct files, differ exactly by the unusual names. */
  lemma {:induction false} ListingsBalance(all: seq<string>, path: string, d: string)
    requires ProperNames(all) && DirPath(path)
    ensures var e, f := Children(Query(all, path), path), ShareListing(Query(all, path), path);
            e.CountOf(d) + Tally(Query(all, path), SharedAt(path, Below(d)))
            == f.CountOf(d) + Tally(Query(all, path), ShownAt(path, Below(d)))
    ensures var e, f := Children(Query(all, path), path), ShareListing(Query(all, path), path);
            |e.files| == |f.files| + Tally(Query(all, path), ShownHere(path))
            && (Tally(Query(all, path), ShownHere(path)) == 0 ==> e.files == f.files)
    decreases |all|
  {
    hide Like, SharePlace, Query, ShareListing, Children, Marked, WellFormedName, SharedAt, ShownAt, ShownHere, Tally;
    if all == [] {
      NothingToBalance(path, d);
    } else {
      var rest, name := all[..|all| - 1], all[|all| - 1];
      assert all == rest + [name];
      assert WellFormedName(name);
      ListingsBalance(rest, path, d);
      QuerySnoc(rest, name, path);
      if Like(name, path) {
        var names := Query(rest, path);
        ListingSnoc(names, name, path);
        ChildrenSnoc(names, name, path);
        TallySnoc(names, name, SharedAt(path, Below(d)));
        TallySnoc(names, name, ShownAt(path, Below(d)));
        TallySnoc(names, name, ShownHere(path));
        PlacesMove(Children(names, path), ShareListing(names, path), name, path, d);
      }
    }
  }

  lemma NothingToBalance(path: string, d: string)
    ensures Query([], path) == [] && Children([], path) == Entries(map[], []) == ShareListing([], path)
    ensures Tally([], SharedAt(path, Below(d))) == 0 == Tally([], ShownAt(path, Below(d)))
    ensures Tally([], ShownHere(path)) == 0
  {
  }

  ghost predicate SameListing(e: Entries, f: Entries) {
    e.files == f.files && forall d :: e.CountOf(d) == f.CountOf(d)
  }

  /** Both listings agree exactly when the web client shows no unusual name as a direct file, and each
      subdirectory gets as many unusual names in the one as in the other. */
  lemma ListingsAgreeIff(all: seq<string>, path: string)
    requires ProperNames(all) && DirPath(path)
    ensures var names := Query(all, path);
            SameListing(Children(names, path), ShareListing(names, path)) <==>
            Tally(names, ShownHere(path)) == 0
            && forall d :: Tally(names, SharedAt(path, Below(d))) == Tally(names, ShownAt(path, Below(d)))
  {
    hide Query, Children, ShareListing, Tally, SharedAt, ShownAt, ShownHere, ProperNames;
    forall d
      ensures var names := Query(all, path);
              Children(names, path).CountOf(d) == ShareListing(names, path).CountOf(d)
              <==> Tally(names, SharedAt(path, Below(d))) == Tally(names, ShownAt(path, Below(d)))
    {
      ListingsBalance(all, path, d);
    }
    ListingsBalance(all, path, "");
  }

  /** Without unusual names they agree. */
  lemma UsualListingsAgree(all: seq<string>, path: string)
    requires ProperNames(all) && DirPath(path)
    requires forall k :: 0 <= k < |Query(all, path)| ==> !Unusual(Query(all, path)[k], path)
    ensures SameListing(Children(Query(all, path), path), ShareListing(Query(all, path), path))
  {
    var names := Query(all, path);
    forall d ensures Tally(names, SharedAt(path, Below(d))) == Tally(names, ShownAt(path, Below(d))) {
      NoneSatisfies(names, SharedAt(path, Below(d)));
      NoneSatisfies(names, ShownAt(path, Below(d)));
    }
    NoneSatisfies(names, ShownHere(path));
    hide Query, ProperNames, Children, ShareListing;
    ListingsAgreeIff(all, path);
  }

  lemma {:induction false} NoneSatisfies(names: seq<string>, p: string -> bool)
    requires forall k :: 0 <= k < |names| ==> !p(names[k])
    ensures Tally(names, p) == 0
  {
    if names != [] { NoneSatisfies(names[..|names| - 1], p); }
  }

  /** For the directory "d/" the query also returns "D/b": a file for the web client, a directory for the share. */
  lemma VariantSplitsListings()
    ensures var all := [InDir('d', 'a'), InDir('D', 'b')];
            ProperNames(all) && Query(all, "d/") == all
            && !OddKeep(InDir('d', 'a'), "d/") && !OddKeep(InDir('D', 'b'), "d/")
            && Children(all, "d/").CountOf("D") == 0 && ShareListing(all, "d/").CountOf("D") == 1
            && !SameListing(Children(all, "d/"), ShareListing(all, "d/"))
  {
    hide WellFormedName, SharePlace, ChildPlace, OddKeep, Like, Query, ShareListing, Children, Marked, InDir;
    var n, m := InDir('d', 'a'), InDir('D', 'b');
    InDirFacts('d', 'a');
    InDirFacts('D', 'b');
    PlacesOfSplit();
    TwoNames(n, m, "d/");
    assert [n] + [m] == [n, m] && [] + [n] == [n];
    ChildrenSnoc([n], m, "d/");
    ChildrenSnoc([], n, "d/");
    NoChildren("d/");
    MarkedCounts(Children([], "d/"), n, "d/");
    MarkedCounts(Children([n], "d/"), m, "d/");
  }

  lemma PlacesOfSplit()
    ensures var n, m := InDir('d', 'a'), InDir('D', 'b');
            Like(n, "d/") && Like(m, "d/") && !OddKeep(n, "d/") && !OddKeep(m, "d/")
            && SharePlace(n, "d/") == Here("a") == ChildPlace(n, "d/")
            && SharePlace(m, "d/") == Below("D") && ChildPlace(m, "d/") == Here("b")
  {
    var n, m := InDir('d', 'a'), InDir('D', 'b');
    InDirFacts('d', 'a');
    InDirFacts('D', 'b');
    hide WellFormedName, HasSuffix;
    assert Like(n, "d/") && Like(m, "d/");
    assert n[..2] == "d/" && n[2..] == "a" && m[2..] == "b" && m[..1] == "D" && m[0] != "d/"[0];
    assert IndexSlash("a") == -1 && IndexSlash("b") == -1;
  }

  /** What the share listing of a query adds up to: the files under the path that are no placeholders, and those
      that the query returns in another letter case. */
  lemma QueryTotal(all: seq<string>, path: string)
    requires ProperNames(all) && DirPath(path)
    ensures var e := ShareListing(Query(all, path), path);
            Sum(e.dirs) + |e.files| == Tally(all, Under(path)) + Tally(all, Stray(path))
  {
    QueryProper(all, path);
    ListingTotal(Query(all, path), path);
    RealFilesOf(all, path);
  }

  function Under(path: string): string -> bool { (name: string) => path <= name && !HasSuffix(name, KEEP) }

  lemma {:induction false} QueryProper(all: seq<string>, path: string)
    requires ProperNames(all)
    ensures ProperNames(Query(all, path))
  {
    hide WellFormedName, Like;
    if all != [] { QueryProper(all[..|all| - 1], path); }
  }

  lemma {:induction false} RealFilesOf(all: seq<string>, path: string)
    ensures Tally(Query(all, path), RealFile()) == Tally(all, Under(path)) + Tally(all, Stray(path))
    decreases |all|
  {
    hide Like, Query, HasSuffix;
    if all == [] {
      NothingToBalance(path, "");
    } else {
      var rest, name := all[..|all| - 1], all[|all| - 1];
      assert all == rest + [name];
      RealFilesOf(rest, path);
      QuerySnoc(rest, name, path);
      TallySnoc(rest, name, Under(path));
      TallySnoc(rest, name, Stray(path));
      TallySnoc(Query(rest, path), name, RealFile());
      if path <= name { PrefixIsLike(name, path); }
    }
  }
}
