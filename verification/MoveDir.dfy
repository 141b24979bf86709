/** Moving a directory: a rename of every file under a prefix. Stored objects stay where they are. */
module MoveDir {
  import opened Paths

  type Id = nat

  datatype File = File(name: string, owner: string, space: string, path: string, deleted: bool)

  type Table = map<Id, File>

  const ALL_SPACES := "*"

  /** What the queries of one caller see; an empty owner is not filtered. */
  datatype Caller = Caller(space: string, owner: string)
  {
    predicate Sees(f: File) {
      !f.deleted && (space == ALL_SPACES || f.space == space) && (owner == "" || f.owner == owner)
    }
  }

  /** The ids ListFiles returns for a prefix. */
  function Listed(t: Table, c: Caller, prefix: string): set<Id> {
    set id | id in t && c.Sees(t[id]) && Like(t[id].name, prefix)
  }

  function NewName(from: string, to: string, name: string): string {
    to + TrimPrefix(name, from)
  }

  /** The table after the files in `done` have been renamed. */
  function Renamed(t: Table, done: set<Id>, from: string, to: string): Table {
    map id | id in t :: if id in done then t[id].(name := NewName(from, to, t[id].name)) else t[id]
  }

  datatype Outcome = PrefixRequired | SamePrefix | SourceEmpty | TargetOccupied | Moved(success: nat, fail: nat)

  /** The checks before the loop. */
  function Checked(t: Table, c: Caller, from: string, to: string): Outcome {
    if from == "" || to == "" then PrefixRequired
    else if from == to then SamePrefix
    else if Listed(t, c, from) == {} then SourceEmpty
    else if Listed(t, c, to) != {} then TargetOccupied
    else Moved(0, 0)
  }

  /** `failing` are the files whose UPDATE fails. */
  function Move(t: Table, c: Caller, from: string, to: string, failing: set<Id>): (Table, Outcome) {
    var listed := Listed(t, c, from);
    if Checked(t, c, from, to).Moved? then
      (Renamed(t, listed - failing, from, to), Moved(|listed - failing|, |listed * failing|))
    else (t, Checked(t, c, from, to))
  }

  class FileTable {
    var files: Table

    constructor (files: Table)
      ensures this.files == files
    {
      this.files := files;
    }

    method MoveDir(c: Caller, oldPrefix: string, newPrefix: string, failing: set<Id>)
      returns (r: Outcome, from: string, to: string)
      modifies this
      ensures IsDirPath(from) && Segments(from) == Segments(Slashed(TrimSpace(oldPrefix)))
      ensures IsDirPath(to) && Segments(to) == Segments(Slashed(TrimSpace(newPrefix)))
      ensures (files, r) == Move(old(files), c, from, to, failing)
    {
      from := NormalizeDirPath(oldPrefix);
      to := NormalizeDirPath(newPrefix);
      if from == "" || to == "" {
        return PrefixRequired, from, to;
      }
      if from == to {
        return SamePrefix, from, to;
      }
      var listed := Listed(files, c, from);
      if listed == {} {
        return SourceEmpty, from, to;
      }
      if Listed(files, c, to) != {} {
        return TargetOccupied, from, to;
      }
      var success, fail := RenameAll(listed, from, to, failing);
      r := Moved(success, fail);
    }

    /** The loop over the listed files; a failing UPDATE is counted and skipped. */
    method RenameAll(listed: set<Id>, from: string, to: string, failing: set<Id>) returns (success: nat, fail: nat)
      requires listed <= files.Keys
      modifies this
      ensures files == Renamed(old(files), listed - failing, from, to)
      ensures success == |listed - failing| && fail == |listed * failing|
    {
      hide NewName, Renamed;
      success, fail := 0, 0;
      var todo := listed;
      ghost var t, wanted := files, listed - failing;
      RenamedNothing(t, wanted - todo, from, to);
      while todo != {}
        invariant todo <= listed
        invariant files == Renamed(t, wanted - todo, from, to)
        invariant success == |wanted - todo| && success + fail + |todo| == |listed|
        decreases |todo|
      {
        var id :| id in todo;
        RenamedOneMore(t, wanted, todo, id, from, to);
        todo := todo - {id};
        if id in failing {
          fail := fail + 1;
        } else {
          files := files[id := files[id].(name := NewName(from, to, files[id].name))];
          success := success + 1;
        }
      }
      assert wanted - todo == wanted;
      assert listed == wanted + listed * failing;
    }
  }

  lemma RenamedNothing(t: Table, none: set<Id>, from: string, to: string)
    requires none == {}
    ensures Renamed(t, none, from, to) == t
  {
  }

  lemma RenamedOneMore(t: Table, wanted: set<Id>, todo: set<Id>, id: Id, from: string, to: string)
    requires id in t && id in todo
    ensures var u, v := Renamed(t, wanted - todo, from, to), Renamed(t, wanted - (todo - {id}), from, to);
            id in u && v == if id in wanted then u[id := u[id].(name := NewName(from, to, u[id].name))] else u
    ensures |wanted - (todo - {id})| == |wanted - todo| + if id in wanted then 1 else 0
  {
    hide NewName;
    if id in wanted {
      assert wanted - (todo - {id}) == (wanted - todo) + {id};
    } else {
      assert wanted - (todo - {id}) == wanted - todo;
    }
  }

  // Names stay unique.

  /** No two live files of one owner and space share a name. */
  ghost predicate UniqueNames(t: Table) {
    forall i, j :: i in t && j in t && i != j ==> !Clash(t[i], t[j])
  }

  predicate Clash(f: File, g: File) {
    !f.deleted && !g.deleted && f.owner == g.owner && f.space == g.space && f.name == g.name
  }

  /** The query finds a file whose name differs from the prefix in letter case. */
  predicate CaseVariant(f: File, c: Caller, prefix: string) {
    c.Sees(f) && Like(f.name, prefix) && !(prefix <= f.name)
  }

  /** A file outside the directory would end up on the name of a file inside it. */
  predicate Collides(f: File, g: File, c: Caller, from: string) {
    && c.Sees(f) && from <= f.name && CaseVariant(g, c, from)
    && f.owner == g.owner && f.space == g.space && f.name == from + g.name
  }

  lemma RenamedLike(from: string, to: string, name: string)
    ensures to <= NewName(from, to, name) && Like(NewName(from, to, name), to)
  {
  }

  /** Two renamed files clash only if they did before or one is a case variant of the directory. */
  lemma RenamedPair(f: File, g: File, c: Caller, from: string, to: string)
    requires c.Sees(f) && c.Sees(g) && Like(f.name, from) && Like(g.name, from) && !Clash(f, g)
    requires !Collides(f, g, c, from) && !Collides(g, f, c, from)
    ensures !Clash(f.(name := NewName(from, to, f.name)), g.(name := NewName(from, to, g.name)))
  {
    var p, q := TrimPrefix(f.name, from), TrimPrefix(g.name, from);
    assert (to + p)[|to|..] == p && (to + q)[|to|..] == q;
    assert from <= f.name ==> f.name == from + p;
    assert from <= g.name ==> g.name == from + q;
  }

  /** After every iteration, whatever subset of files has been renamed so far, names are unique,
      provided no case variant of the directory collides. */
  lemma MoveKeepsNamesUnique(t: Table, c: Caller, from: string, to: string, done: set<Id>)
    requires UniqueNames(t) && Checked(t, c, from, to).Moved? && done <= Listed(t, c, from)
    requires forall i, j :: i in t && j in t ==> !Collides(t[i], t[j], c, from)
    ensures UniqueNames(Renamed(t, done, from, to))
  {
    var u := Renamed(t, done, from, to);
    forall i, j | i in u && j in u && i != j ensures !Clash(u[i], u[j]) {
      assert !Clash(t[i], t[j]) && !Clash(t[j], t[i]);
      if i in done && j in done {
        RenamedPair(t[i], t[j], c, from, to);
      } else if i in done {
        RenamedLike(from, to, t[i].name);
        assert j !in Listed(t, c, to);
      } else if j in done {
        RenamedLike(from, to, t[j].name);
        assert i !in Listed(t, c, to);
      }
    }
  }

  /** A complete move keeps names unique exactly when no case variant collides. */
  lemma MoveUniqueIff(t: Table, c: Caller, from: string, to: string)
    requires UniqueNames(t) && Checked(t, c, from, to).Moved?
    ensures UniqueNames(Move(t, c, from, to, {}).0) <==>
            forall i, j :: i in t && j in t ==> !Collides(t[i], t[j], c, from)
  {
    var listed := Listed(t, c, from);
    var u := Renamed(t, listed, from, to);
    assert listed - {} == listed;
    if forall i, j :: i in t && j in t ==> !Collides(t[i], t[j], c, from) {
      MoveKeepsNamesUnique(t, c, from, to, listed);
    } else {
      var i, j :| i in t && j in t && Collides(t[i], t[j], c, from);
      PrefixIsLike(t[i].name, from);
      assert i in listed && j in listed && i != j;
      assert TrimPrefix(t[i].name, from) == t[j].name == TrimPrefix(t[j].name, from);
      assert Clash(u[i], u[j]);
    }
  }

  // What is left alone.

  /** A complete move renames only files under the prefix exactly when no case variant of it is visible. */
  lemma OutsideUntouchedIff(t: Table, c: Caller, from: string, to: string)
    requires Checked(t, c, from, to).Moved?
    ensures (forall id :: id in t && !(from <= t[id].name) ==> Move(t, c, from, to, {}).0[id] == t[id])
            <==> forall id :: id in t ==> !CaseVariant(t[id], c, from)
  {
    var u := Move(t, c, from, to, {}).0;
    assert Listed(t, c, from) - {} == Listed(t, c, from);
    forall id | id in t && CaseVariant(t[id], c, from) ensures u[id] != t[id] {
      assert u[id].name == to + t[id].name;
      assert |u[id].name| > |t[id].name|;
    }
  }

  /** Whatever fails: no file appears or disappears, and only names of listed files change. */
  lemma OnlyNamesChange(t: Table, c: Caller, from: string, to: string, failing: set<Id>, id: Id)
    requires id in t
    ensures var u := Move(t, c, from, to, failing).0;
            u.Keys == t.Keys && u[id] == t[id].(name := u[id].name)
            && (id !in Listed(t, c, from) || id in failing ==> u[id] == t[id])
  {
  }

  /** The files a prefix query returns to the caller. */
  predicate Shown(t: Table, c: Caller, prefix: string, id: Id) {
    id in t && !t[id].deleted && (c.space == "*" || t[id].space == c.space) && (c.owner == "" || t[id].owner == c.owner)
    && LikeMatches(Escaped(prefix) + "%", t[id].name)
  }

  lemma ListedIs(t: Table, c: Caller, prefix: string)
    ensures forall id :: id in Listed(t, c, prefix) <==> Shown(t, c, prefix, id)
  {
    forall id ensures id in Listed(t, c, prefix) <==> Shown(t, c, prefix, id) {
      if id in t { EscapedPrefixQuery(prefix, t[id].name); }
    }
  }

  /** The answer: which check refuses, or how many were renamed; a refusal changes nothing. */
  lemma MoveAnswers(t: Table, c: Caller, from: string, to: string, failing: set<Id>)
    ensures var (u, r) := Move(t, c, from, to, failing);
            (r.PrefixRequired? <==> from == "" || to == "")
            && (r.SamePrefix? <==> from == to && from != "")
            && (r.SourceEmpty? <==> from != "" && to != "" && from != to && forall id :: !Shown(t, c, from, id))
            && (r.TargetOccupied? <==> from != "" && to != "" && from != to
                                       && (exists id :: Shown(t, c, from, id)) && exists id :: Shown(t, c, to, id))
            && (!r.Moved? ==> u == t)
            && (r.Moved? ==> r.fail == |set id | id in failing && Shown(t, c, from, id)|
                             && r.success == |set id | id in t && Shown(t, c, from, id) && id !in failing|)
  {
    ListedIs(t, c, from);
    ListedIs(t, c, to);
    hide Shown;
    var listed := Listed(t, c, from);
    assert listed == {} <==> forall id :: id !in listed;
    assert Listed(t, c, to) == {} <==> forall id :: id !in Listed(t, c, to);
    assert (set id | id in failing && Shown(t, c, from, id)) == listed * failing;
    assert (set id | id in t && Shown(t, c, from, id) && id !in failing) == listed - failing;
  }

  /** Whatever fails: deleted files, and files of other users and other spaces, stay where they are. */
  lemma ForeignUntouched(t: Table, c: Caller, from: string, to: string, failing: set<Id>, id: Id)
    requires id in t
    requires t[id].deleted || (c.owner != "" && t[id].owner != c.owner) || (c.space != "*" && t[id].space != c.space)
    ensures id in Move(t, c, from, to, failing).0 && Move(t, c, from, to, failing).0[id] == t[id]
  {
  }

  /** And the caller's live files below the directory keep the rest of their names. */
  lemma OwnMoved(t: Table, c: Caller, from: string, to: string, id: Id, rest: string)
    requires Checked(t, c, from, to).Moved? && id in t && !t[id].deleted && t[id].name == from + rest
    requires (c.owner == "" || t[id].owner == c.owner) && (c.space == "*" || t[id].space == c.space)
    ensures id in Move(t, c, from, to, {}).0 && Move(t, c, from, to, {}).0[id] == t[id].(name := to + rest)
  {
    PrefixIsLike(t[id].name, from);
    assert t[id].name[|from|..] == rest;
    assert Listed(t, c, from) - {} == Listed(t, c, from);
  }

  /** A move to a directory above is always refused. */
  lemma AncestorRefused(t: Table, c: Caller, from: string, to: string, failing: set<Id>)
    requires to <= from && to != ""
    ensures Move(t, c, from, to, failing).0 == t
    ensures to != from && Listed(t, c, from) != {} ==> Move(t, c, from, to, failing).1 == TargetOccupied
  {
    if Listed(t, c, from) != {} {
      var id :| id in Listed(t, c, from);
      assert id in Listed(t, c, to);
    }
  }

  // Moving back.

  lemma LikeIsSymmetricOnPrefixes(name: string, p: string, q: string)
    requires Like(name, p) && q <= name
    ensures Like(p, q) || Like(q, p)
  {
    if |q| <= |p| {
      forall i | 0 <= i < |q| ensures Lower(p[i]) == Lower(q[i]) {}
    } else {
      forall i | 0 <= i < |p| ensures Lower(q[i]) == Lower(p[i]) {}
    }
  }

  lemma NewNameInverts(from: string, to: string, name: string)
    requires from <= name
    ensures NewName(to, from, NewName(from, to, name)) == name
  {
    var m := NewName(from, to, name);
    assert m[|to|..] == name[|from|..];
    assert name == from + name[|from|..];
  }

  lemma NewNameDiffers(from: string, to: string, name: string)
    requires from != to && to != "" && Like(name, from)
    ensures NewName(from, to, name) != name
    ensures from != "" && !(from <= name) ==> NewName(to, from, NewName(from, to, name)) == from + name != name
  {
    var m := NewName(from, to, name);
    if from <= name {
      assert m[..|to|] == to && |m| - |name| == |to| - |from|;
    } else {
      assert m == to + name && m[|to|..] == name;
      assert |m| > |name| && (from != "" ==> |from + name| > |name|);
    }
  }

  /** After a complete move the files listed under the new directory are those that were under the old one. */
  lemma ListedAfterMove(t: Table, c: Caller, from: string, to: string)
    requires Checked(t, c, from, to).Moved?
    ensures var u := Move(t, c, from, to, {}).0;
            u == Renamed(t, Listed(t, c, from), from, to) && Listed(u, c, to) == Listed(t, c, from)
            && (Listed(u, c, from) == {} <==> !Like(to, from))
  {
    var listed := Listed(t, c, from);
    var u := Move(t, c, from, to, {}).0;
    assert listed - {} == listed;
    forall id | id in t ensures id in Listed(u, c, to) <==> id in listed {
      RenamedLike(from, to, t[id].name);
      assert id !in Listed(t, c, to);
    }
    if Like(to, from) {
      var id :| id in listed;
      RenamedLike(from, to, t[id].name);
      assert id in Listed(u, c, from);
    } else {
      forall id | id in t ensures id !in Listed(u, c, from) {
        if id in listed && Like(u[id].name, from) {
          RenamedLike(from, to, t[id].name);
          LikeIsSymmetricOnPrefixes(u[id].name, from, to);
          NotBelow(t, c, from, to);
        }
      }
    }
  }

  lemma NotBelow(t: Table, c: Caller, from: string, to: string)
    requires Checked(t, c, from, to).Moved?
    ensures !Like(from, to)
  {
    var id :| id in Listed(t, c, from);
    assert id !in Listed(t, c, to);
  }

  /** Moving there and back restores the table exactly when the new directory is not below the old one, in
      any letter case, and no visible file is a case variant of the old one. */
  lemma MoveAndBack(t: Table, c: Caller, from: string, to: string)
    requires Checked(t, c, from, to).Moved?
    ensures var u := Move(t, c, from, to, {}).0;
            Move(u, c, to, from, {}).0 == t
            <==> !Like(to, from) && forall id :: id in t ==> !CaseVariant(t[id], c, from)
    ensures var (u, r) := Move(t, c, from, to, {});
            if Like(to, from) then Move(u, c, to, from, {}) == (u, TargetOccupied)
            else Move(u, c, to, from, {}).1 == r
  {
    ListedAfterMove(t, c, from, to);
    var listed, u := Listed(t, c, from), Move(t, c, from, to, {}).0;
    if Like(to, from) {
      var id :| id in listed;
      NewNameDiffers(from, to, t[id].name);
      assert u[id] != t[id];
    } else {
      BackRenames(t, c, from, to);
    }
  }

  lemma BackAndForth(from: string, to: string, name: string)
    requires from != to && from != "" && to != ""
    ensures Like(name, from) ==> (NewName(to, from, NewName(from, to, name)) == name <==> from <= name)
  {
    if from <= name {
      NewNameInverts(from, to, name);
    } else if Like(name, from) {
      NewNameDiffers(from, to, name);
    }
  }

  lemma BackRenames(t: Table, c: Caller, from: string, to: string)
    requires Checked(t, c, from, to).Moved? && !Like(to, from)
    ensures var u := Move(t, c, from, to, {}).0;
            Move(u, c, to, from, {}).0 == t <==> forall id :: id in t ==> !CaseVariant(t[id], c, from)
    ensures var (u, r) := Move(t, c, from, to, {}); Move(u, c, to, from, {}).1 == r
  {
    hide Renamed;
    ListedAfterMove(t, c, from, to);
    assert Listed(t, c, from) - {} == Listed(t, c, from);
    RenamedTwice(t, c, from, to);
  }

  lemma RenamedTwice(t: Table, c: Caller, from: string, to: string)
    requires from != to && from != "" && to != ""
    ensures var listed := Listed(t, c, from);
            Renamed(Renamed(t, listed, from, to), listed, to, from) == t
            <==> forall id :: id in t ==> !CaseVariant(t[id], c, from)
  {
    hide NewName, Like;
    var listed := Listed(t, c, from);
    var v := Renamed(Renamed(t, listed, from, to), listed, to, from);
    assert v.Keys == t.Keys;
    forall id | id in t ensures v[id] == t[id] <==> !CaseVariant(t[id], c, from) {
      BackAndForth(from, to, t[id].name);
    }
  }

  /** A directory moved below itself stays there: the way back is refused. */
  lemma NestedMoveStays()
    ensures var t: Table := map[1 := File("a/x", "u", "s", "p", false)];
            var c := Caller("s", "u");
            var (u, r) := Move(t, c, "a/", "a/b/", {});
            r.Moved? && Move(u, c, "a/b/", "a/", {}) == (u, TargetOccupied) && u != t
  {
    var t: Table := map[1 := File("a/x", "u", "s", "p", false)];
    var c := Caller("s", "u");
    assert Like("a/x", "a/") && !Like("a/x", "a/b/");
    assert Listed(t, c, "a/b/") == {} && 1 in Listed(t, c, "a/");
    assert "a/b/"[..2] == "a/";
    PrefixIsLike("a/b/", "a/");
    ListedAfterMove(t, c, "a/", "a/b/");
    NewNameDiffers("a/", "a/b/", "a/x");
  }

  /** A case variant does not come back under its name. */
  lemma CaseVariantStays()
    ensures var t: Table := map[1 := File("A/x", "u", "s", "p", false)];
            var c := Caller("s", "u");
            var (u, r) := Move(t, c, "a/", "b/", {});
            r.Moved? && Move(u, c, "b/", "a/", {}).0 != t
  {
    var t: Table := map[1 := File("A/x", "u", "s", "p", false)];
    var c := Caller("s", "u");
    assert Like("A/x", "a/") && Lower('A') == 'a' && Lower('b') == 'b';
    assert "A/x"[0] == 'A' && "b/"[0] == 'b' && Lower('A') != Lower('b');
    assert !Like("A/x", "b/");
    assert Listed(t, c, "b/") == {} && 1 in Listed(t, c, "a/");
    assert "A/x"[..2] == "A/" && "A/"[0] != "a/"[0];
    assert CaseVariant(t[1], c, "a/");
    MoveAndBack(t, c, "a/", "b/");
  }

  /** A directory that differs only in letter case is swept along and lands on another file. */
  lemma CaseVariantExample()
    ensures var t: Table := map[1 := File("docs/Docs/x", "u", "s", "p1", false),
                                2 := File("Docs/x", "u", "s", "p2", false)];
            var c := Caller("s", "u");
            UniqueNames(t) && Checked(t, c, "docs/", "n/").Moved? && !UniqueNames(Move(t, c, "docs/", "n/", {}).0)
  {
    var t: Table := map[1 := File("docs/Docs/x", "u", "s", "p1", false),
                        2 := File("Docs/x", "u", "s", "p2", false)];
    var c := Caller("s", "u");
    assert t[1].name[0] == 'd' && t[2].name[0] == 'D';
    assert "docs/" <= t[1].name by { assert t[1].name == "docs/" + "Docs/x"; }
    assert t[1].name[0] != 'n' && Lower('n') == 'n' && Lower('D') == 'd';
    assert Listed(t, c, "n/") == {};
    PrefixIsLike(t[1].name, "docs/");
    assert 1 in Listed(t, c, "docs/");
    assert Like(t[2].name, "docs/");
    assert Collides(t[1], t[2], c, "docs/") by { assert t[1].name == "docs/" + t[2].name; }
    MoveUniqueIff(t, c, "docs/", "n/");
  }
}
