/** Numbered file names that avoid the names in use. */
module UniqueNames {
  import opened Basics

  const ATTEMPTS := 10000

  function Digit(n: nat): char
    requires n < 10
  {
    ('0' as int + n) as char
  }

  /** Decimal numeral of n. */
  function Itoa(n: nat): (s: string)
    ensures s != ""
  {
    if n < 10 then [Digit(n)] else Itoa(n / 10) + [Digit(n % 10)]
  }

  lemma {:induction false} ItoaInjective(m: nat, n: nat)
    requires Itoa(m) == Itoa(n)
    ensures m == n
  {
    var s := Itoa(m);
    assert s[|s| - 1] == Digit(m % 10) == Digit(n % 10);
    if m >= 10 && n >= 10 {
      assert s[..|s| - 1] == Itoa(m / 10) == Itoa(n / 10);
      ItoaInjective(m / 10, n / 10);
    }
  }

  /** The last position of a character, or -1. */
  function LastIndex(s: string, c: char): (i: int)
    ensures -1 <= i < |s| && (i >= 0 ==> s[i] == c)
    ensures forall k :: i < k < |s| ==> s[k] != c
  {
    if s == "" then -1 else if s[|s| - 1] == c then |s| - 1 else LastIndex(s[..|s| - 1], c)
  }

  function Base(name: string): string {
    var dot := LastIndex(name, '.');
    if dot > 0 then name[..dot] else name
  }

  function Ext(name: string): string {
    var dot := LastIndex(name, '.');
    if dot > 0 then name[dot..] else ""
  }

  function Numbered(name: string, i: nat): string {
    Base(name) + ("_" + Itoa(i)) + Ext(name)
  }

  /** The names tried in order: the name itself, then the numbered ones. */
  function Candidate(name: string, i: nat): string {
    if i == 0 then name else Numbered(name, i)
  }

  lemma CandidatesDistinct(name: string, i: nat, j: nat)
    requires i < j
    ensures Candidate(name, i) != Candidate(name, j)
  {
    hide Itoa, Base, Ext;
    BaseAndExt(name);
    if i == 0 {
      assert |Candidate(name, j)| > |name|;
    } else if Candidate(name, i) == Candidate(name, j) {
      MiddleInjective(Base(name), Itoa(i), Itoa(j), Ext(name));
      ItoaInjective(i, j);
    }
  }

  lemma MiddleInjective(b: string, m: string, n: string, e: string)
    requires b + ("_" + m) + e == b + ("_" + n) + e
    ensures m == n
  {
    var s := b + ("_" + m) + e;
    assert s[|b| + 1..|s| - |e|] == m;
    assert s[|b| + 1..|s| - |e|] == n;
  }

  /** The first candidate from i on that is free, if any; else the one with the time. */
  function FirstFree(name: string, used: set<string>, now: nat, i: nat): string
    decreases ATTEMPTS - i
  {
    if i >= ATTEMPTS then Numbered(name, now)
    else if Candidate(name, i) !in used then Candidate(name, i)
    else FirstFree(name, used, now, i + 1)
  }

  function UniqueName(name: string, used: set<string>, now: nat): string {
    FirstFree(name, used, now, 0)
  }

  method GenerateUniqueFilename(filename: string, used: set<string>, now: nat) returns (r: string)
    ensures r == UniqueName(filename, used, now)
  {
    if filename !in used {
      return filename;
    }
    var ext, base := "", filename;
    var dot := LastIndex(filename, '.');
    if dot > 0 {
      ext := filename[dot..];
      base := filename[..dot];
    }
    for i := 1 to 10000
      invariant UniqueName(filename, used, now) == FirstFree(filename, used, now, i)
    {
      var candidate := base + ("_" + Itoa(i)) + ext;
      if candidate !in used {
        return candidate;
      }
    }
    r := base + ("_" + Itoa(now)) + ext;
  }

  lemma {:induction false} FirstFreeFacts(name: string, used: set<string>, now: nat, i: nat)
    ensures FirstFree(name, used, now, i) in used ==> forall j :: i <= j < ATTEMPTS ==> Candidate(name, j) in used
    decreases ATTEMPTS - i
  {
    if i < ATTEMPTS && Candidate(name, i) in used {
      FirstFreeFacts(name, used, now, i + 1);
    }
  }

  /** The candidates numbered i to n - 1 are n - i different names. */
  lemma {:induction false} CandidatesFill(name: string, used: set<string>, i: nat, n: nat)
    requires i <= n && forall j :: i <= j < n ==> Candidate(name, j) in used
    ensures |used| >= n - i
    decreases n - i
  {
    if i < n {
      var rest := used - {Candidate(name, i)};
      forall j | i + 1 <= j < n ensures Candidate(name, j) in rest {
        CandidatesDistinct(name, i, j);
      }
      CandidatesFill(name, rest, i + 1, n);
    }
  }

  /** With at most 9999 names in use the result is unused. */
  lemma UniqueNameIsFree(name: string, used: set<string>, now: nat)
    requires |used| < ATTEMPTS
    ensures UniqueName(name, used, now) !in used
  {
    if UniqueName(name, used, now) in used {
      FirstFreeFacts(name, used, now, 0);
      CandidatesFill(name, used, 0, ATTEMPTS);
      assert false;
    }
  }

  /** In general the result is used exactly when all candidates and the name with the time are. */
  lemma UniqueNameTaken(name: string, used: set<string>, now: nat)
    ensures UniqueName(name, used, now) in used <==>
            Numbered(name, now) in used && forall j :: 0 <= j < ATTEMPTS ==> Candidate(name, j) in used
  {
    FirstFreeFacts(name, used, now, 0);
    AllTaken(name, used, now, 0);
  }

  lemma {:induction false} FirstFreeIs(name: string, used: set<string>, now: nat, i: nat, k: nat)
    requires i <= k < ATTEMPTS && Candidate(name, k) !in used
    requires forall j :: i <= j < k ==> Candidate(name, j) in used
    ensures FirstFree(name, used, now, i) == Candidate(name, k)
    decreases k - i
  {
    hide Candidate;
    if i < k { FirstFreeIs(name, used, now, i + 1, k); }
  }

  /** A free name is kept; else the lowest free number from 1 to 9999 is taken, and the time when there is none. */
  lemma UniqueNameIs(name: string, used: set<string>, now: nat, k: nat)
    ensures name !in used ==> UniqueName(name, used, now) == name
    ensures name in used && 1 <= k <= 9999 && Numbered(name, k) !in used
            && (forall j :: 1 <= j < k ==> Numbered(name, j) in used) ==>
              UniqueName(name, used, now) == Numbered(name, k)
    ensures name in used && (forall j :: 1 <= j <= 9999 ==> Numbered(name, j) in used) ==>
              UniqueName(name, used, now) == Numbered(name, now)
  {
    hide Numbered, FirstFree;
    if name !in used {
      FirstFreeIs(name, used, now, 0, 0);
    } else {
      forall j: nat | 1 <= j ensures Candidate(name, j) == Numbered(name, j) {}
      if 1 <= k <= 9999 && Numbered(name, k) !in used && forall j :: 1 <= j < k ==> Numbered(name, j) in used {
        FirstFreeIs(name, used, now, 0, k);
      }
      if forall j :: 1 <= j <= 9999 ==> Numbered(name, j) in used {
        AllTaken(name, used, now, 0);
      }
    }
  }

  /** The number goes before the extension, which starts at the last dot, unless the name starts with it. */
  lemma NumberedIs(b: string, e: string, i: nat)
    requires b != "" && '.' !in e
    ensures Numbered(b + ("." + e), i) == b + ("_" + Itoa(i)) + ("." + e)
  {
    var s := b + ("." + e);
    assert s[|b|] == '.' && s[..|b|] == b && s[|b|..] == "." + e;
    forall k | |b| < k < |s| ensures s[k] != '.' { assert s[k] == e[k - |b| - 1]; }
    LastIndexIs(s, '.', |b|);
    hide Itoa, LastIndex;
  }

  lemma NumberedPlain(e: string, i: nat)
    requires '.' !in e
    ensures Numbered(e, i) == e + ("_" + Itoa(i)) && Numbered("." + e, i) == ("." + e) + ("_" + Itoa(i))
  {
    assert LastIndex(e, '.') == -1;
    LastIndexIs("." + e, '.', 0);
    hide Itoa, LastIndex;
    assert e + ("_" + Itoa(i)) + "" == e + ("_" + Itoa(i));
    assert ("." + e) + ("_" + Itoa(i)) + "" == ("." + e) + ("_" + Itoa(i));
  }

  predicate IsNumeral(s: string) { forall i :: 0 <= i < |s| ==> '0' <= s[i] <= '9' }

  /** The number a decimal numeral stands for. */
  function Read(s: string): nat
    requires IsNumeral(s)
  {
    if s == "" then 0 else 10 * Read(s[..|s| - 1]) + (s[|s| - 1] as int - 48)
  }

  lemma {:induction false} ItoaReads(n: nat)
    ensures IsNumeral(Itoa(n)) && Read(Itoa(n)) == n && (n > 0 ==> Itoa(n)[0] != '0')
  {
    var s := Itoa(n);
    if n >= 10 {
      ItoaReads(n / 10);
      assert s[..|s| - 1] == Itoa(n / 10) && s[0] == Itoa(n / 10)[0];
    } else {
      assert s[..0] == "" && Read("") == 0;
    }
  }

  lemma {:induction false} AllTaken(name: string, used: set<string>, now: nat, i: nat)
    requires i <= ATTEMPTS
    ensures (forall j :: i <= j < ATTEMPTS ==> Candidate(name, j) in used) ==>
              FirstFree(name, used, now, i) == Numbered(name, now)
    decreases ATTEMPTS - i
  {
    if i < ATTEMPTS { AllTaken(name, used, now, i + 1); }
  }

  /** The directory part, with its slash. */
  function Dir(name: string): string { name[..LastIndex(name, '/') + 1] }

  lemma LastIndexIs(s: string, c: char, i: nat)
    requires i < |s| && s[i] == c && forall k :: i < k < |s| ==> s[k] != c
    ensures LastIndex(s, c) == i
  {
  }

  lemma {:induction false} ItoaHasNoSlash(n: nat)
    ensures '/' !in Itoa(n)
  {
    if n >= 10 { ItoaHasNoSlash(n / 10); }
  }

  /** A numbered name stays in its directory exactly when the last dot is not inside the directory part. */
  lemma NumberedKeepsDirectory(name: string, i: nat)
    ensures Dir(Numbered(name, i)) == Dir(name) <==>
            LastIndex(name, '.') <= 0 || LastIndex(name, '/') < LastIndex(name, '.')
  {
    hide Dir, Numbered;
    if LastIndex(name, '.') <= 0 || LastIndex(name, '/') < LastIndex(name, '.') {
      NumberedOutside(name, i);
    } else {
      InsertInDirectory(name, i);
    }
  }

  lemma NumberedOutside(name: string, i: nat)
    requires LastIndex(name, '.') <= 0 || LastIndex(name, '/') < LastIndex(name, '.')
    ensures Dir(Numbered(name, i)) == Dir(name)
  {
    hide Dir, Itoa, Base, Ext, LastIndex;
    BaseAndExt(name);
    InsertAfterDirectory(name, Base(name), "_" + Itoa(i), Ext(name), i);
  }

  lemma BaseAndExt(name: string)
    ensures name == Base(name) + Ext(name)
    ensures |Base(name)| == if LastIndex(name, '.') > 0 then LastIndex(name, '.') else |name|
  {
    hide LastIndex;
  }

  lemma InsertAfterDirectory(name: string, b: string, mid: string, e: string, i: nat)
    requires name == b + e && LastIndex(name, '/') < |b| && mid == "_" + Itoa(i)
    ensures Dir(b + mid + e) == Dir(name)
  {
    hide Itoa;
    ItoaHasNoSlash(i);
    var slash, s := LastIndex(name, '/'), b + mid + e;
    forall k | slash < k < |s| ensures s[k] != '/' {
      if k < |b| {
        assert s[k] == name[k];
      } else if k < |b| + |mid| {
        assert s[k] == mid[k - |b|];
      } else {
        assert s[k] == name[k - |mid|];
      }
    }
    if slash >= 0 {
      assert s[slash] == name[slash];
      LastIndexIs(s, '/', slash);
    }
    assert s[..slash + 1] == name[..slash + 1];
  }

  lemma InsertInDirectory(name: string, i: nat)
    requires 0 < LastIndex(name, '.') <= LastIndex(name, '/')
    ensures Dir(Numbered(name, i)) != Dir(name)
  {
    hide Itoa, LastIndex;
    var dot, slash := LastIndex(name, '.'), LastIndex(name, '/');
    var s, mid := Numbered(name, i), "_" + Itoa(i);
    assert s == name[..dot] + mid + name[dot..];
    assert s[slash + |mid|] == name[slash];
    assert |Dir(s)| > |Dir(name)|;
  }

  /** The names given to a series of files, each avoiding the ones given before. */
  function SavedNames(wanted: seq<string>, used: set<string>, now: nat): (r: seq<string>)
    ensures |r| == |wanted|
  {
    if wanted == [] then []
    else
      var name := UniqueName(wanted[0], used, now);
      [name] + SavedNames(wanted[1..], used + {name}, now)
  }

  /** No name is in use, and no two are equal. */
  predicate AllNew(names: seq<string>, used: set<string>) {
    && (forall i :: 0 <= i < |names| ==> names[i] !in used)
    && Distinct(names)
  }

  lemma AllNewCons(name: string, rest: seq<string>, used: set<string>)
    requires name !in used && AllNew(rest, used + {name})
    ensures AllNew([name] + rest, used)
  {
    var names := [name] + rest;
    assert forall i :: 0 < i < |names| ==> names[i] == rest[i - 1];
  }

  /** One save of several files creates names that differ from each other and from all in use. */
  lemma {:induction false} SavedNamesFresh(wanted: seq<string>, used: set<string>, now: nat)
    requires |used| + |wanted| <= ATTEMPTS
    ensures AllNew(SavedNames(wanted, used, now), used)
  {
    hide UniqueName, AllNew;
    if wanted == [] {
      NothingNew(used);
    } else {
      var name := UniqueName(wanted[0], used, now);
      UniqueNameIsFree(wanted[0], used, now);
      SavedNamesFresh(wanted[1..], used + {name}, now);
      AllNewCons(name, SavedNames(wanted[1..], used + {name}, now), used);
    }
  }

  lemma NothingNew(used: set<string>)
    ensures AllNew([], used)
  {
  }
}
