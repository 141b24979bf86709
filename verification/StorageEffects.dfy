/** What each step of SharedStorage does to rows and objects, field by field. */
module StorageEffects {
  import opened Basics
  import opened Paths
  import opened SharedStorage
  import UniqueNames

  /** Where the bytes of a storage path lie. */
  function Lies(p: Path): Place { if p.Local? then Disk(p.file) else Bucket(p.key) }

  /** The queries' filters: "*" is any space, "" any owner. */
  predicate Seen(r: Record, space: string, owner: string) {
    (space == "*" || r.space == space) && (owner == "" || r.owner == owner)
  }

  /** Some live file of the name that the queries see. */
  predicate Taken(s: State, space: string, name: string, owner: string) {
    exists j | j in s.files :: s.files[j].deletedAt == None && s.files[j].name == name && Seen(s.files[j], space, owner)
  }

  lemma TakenIs(s: State, space: string, name: string, owner: string)
    ensures s.NameTaken(space, name, owner) <==> Taken(s, space, name, owner)
  {
    if s.NameTaken(space, name, owner) {
      var j :| j in s.files && !s.files[j].Trashed() && s.files[j].name == name && InSpace(s.files[j], space)
               && OwnedBy(s.files[j], owner);
      assert s.files[j].deletedAt == None && Seen(s.files[j], space, owner);
    }
    if Taken(s, space, name, owner) {
      var j :| j in s.files && s.files[j].deletedAt == None && s.files[j].name == name
               && Seen(s.files[j], space, owner);
      assert !s.files[j].Trashed() && InSpace(s.files[j], space) && OwnedBy(s.files[j], owner);
    }
  }

  // New files.

  /** The row of a new file: live, of the caller, and measured where nothing failed. */
  predicate IsNew(r: Record, who: Owner, p: Path) {
    r.name == who.name && r.owner == who.user && r.space == who.space && r.path == p && r.deletedAt == None
  }

  /** A torn write leaves a part of the bytes, one that does not open nothing at all. */
  predicate Stored(s: State, t: State, at: Place, b: Bytes, w: Write) {
    match w
    case Written => t.objects == s.objects[at := b]
    case Torn(n) => t.objects.Keys == s.objects.Keys + {at} && t.objects[at] == b[..Min(n, |b|)]
                    && forall q :: q in s.objects && q != at ==> t.objects[q] == s.objects[q]
    case NotOpened => t.objects == s.objects
  }

  lemma CompleteDoes(s: State, h: Bytes -> string, id: Id, p: Path, b: Bytes, who: Owner, f: StoreFaults)
    ensures var t := Complete(s, h, id, p, b, who, f);
            Stored(s, t, Lies(p), b, f.write)
            && if !f.write.Written? || f.insert then t.files == s.files
               else id in t.files && t.files == s.files[id := t.files[id]] && IsNew(t.files[id], who, p)
                    && t.files[id].measured == (!f.unhashed && !f.unsized)
                    && t.files[id].hash == (if f.unhashed then "" else h(b))
                    && t.files[id].size == (if f.unsized then 0 else |b|)
  {
  }

  lemma ComposeDoes(s: State, id: Id, key: nat, b: Bytes, hash: string, who: Owner, failing: bool)
    ensures var t := Compose(s, id, key, b, hash, who, failing);
            t.objects == s.objects[Bucket(key) := b]
            && if failing then t.files == s.files
               else id in t.files && t.files == s.files[id := t.files[id]] && IsNew(t.files[id], who, S3(key))
                    && t.files[id].size == |b| && t.files[id].hash == hash && !t.files[id].measured
  {
  }

  /** Refused when the name is taken; on a new place a failing insert leaves nothing unless the clean-up fails. */
  lemma CreateTextDoes(s: State, h: Bytes -> string, id: Id, file: nat, b: Bytes, who: Owner, f: StoreFaults)
    ensures var t := CreateText(s, h, id, file, b, who, f);
            if Taken(s, who.space, who.name, who.user) then t == s
            else if f.write.Written? && f.insert && !f.delete
            then t.files == s.files && t.objects == s.objects - {Disk(file)}
            else Stored(s, t, Disk(file), b, f.write)
                 && if !f.write.Written? || f.insert then t.files == s.files
                    else id in t.files && t.files == s.files[id := t.files[id]] && IsNew(t.files[id], who, Local(file))
                         && t.files[id].size == |b| && t.files[id].measured == !f.unhashed
                         && (!f.unhashed ==> t.files[id].hash == h(b))
  {
    TakenIs(s, who.space, who.name, who.user);
    hide State.NameTaken, Taken;
  }

  lemma MkdirDoes(s: State, id: Id, file: nat, owner: string, who: Owner, f: StoreFaults)
    ensures var t := Mkdir(s, id, file, owner, who, f);
            if Taken(s, who.space, who.name, owner) then t == s
            else if f.write.Written? && f.insert && !f.delete
            then t.files == s.files && t.objects == s.objects - {Disk(file)}
            else Stored(s, t, Disk(file), [], f.write)
                 && if !f.write.Written? || f.insert then t.files == s.files
                    else id in t.files && t.files == s.files[id := t.files[id]] && IsNew(t.files[id], who, Local(file))
                         && t.files[id].size == 0 && t.files[id].hash == "" && !t.files[id].measured
  {
    TakenIs(s, who.space, who.name, owner);
  }

  // Shared files.

  /** The new row is the caller's, and in everything else that of a live source with the hash and size asked for. */
  predicate IsCopy(r: Record, src: Record, who: Owner) {
    IsNew(r, who, src.path) && r.size == src.size && r.hash == src.hash && r.measured == src.measured
  }

  /** A live row with the hash and the size asked for. */
  predicate IsSourceRow(s: State, j: Id, hash: string, size: nat) {
    j in s.files && s.files[j].deletedAt == None && s.files[j].hash == hash && s.files[j].size == size
  }

  /** A live file of the caller's name that the caller sees. */
  predicate HasName(s: State, j: Id, who: Owner) {
    j in s.files && s.files[j].deletedAt == None && s.files[j].name == who.name
    && Seen(s.files[j], who.space, who.user)
  }

  lemma CheckUploadDoes(s: State, id: Id, hash: string, size: nat, src: Option<Id>, existing: Option<Id>,
                        who: Owner, failing: bool)
    ensures var t := CheckUpload(s, id, hash, size, src, existing, who, failing);
            t.objects == s.objects
            && if src.Some? && IsSourceRow(s, src.value, hash, size) && !failing
                  && (existing.Some? && existing.value != src.value ==> !HasName(s, existing.value, who))
               then id in t.files && t.files == s.files[id := t.files[id]]
                    && IsCopy(t.files[id], s.files[src.value], who)
               else t.files == s.files
  {
  }

  /** The shared file itself, or the files whose names start with the shared directory. */
  predicate Offered(s: State, id: Id, share: Share) {
    id in s.files && s.files[id].deletedAt == None
    && match share
       case FileShare(file) => id == file
       case DirShare(prefix) => |prefix| > 0 && |prefix| <= |s.files[id].name|
                                && forall i :: 0 <= i < |prefix| ==> s.files[id].name[i] == prefix[i]
  }

  predicate Placeholder(name: string) {
    |name| >= 5 && name[|name| - 5] == '.' && name[|name| - 4..] == "keep"
  }

  lemma PlaceholderIs(name: string)
    ensures HasSuffix(name, KEEP) <==> Placeholder(name)
  {
    if |name| >= 5 {
      var tail := name[|name| - 5..];
      assert tail == [tail[0]] + name[|name| - 4..];
      assert KEEP == ['.'] + "keep";
    }
  }

  /** Saved is exactly what the share offers and is no placeholder, under a name in the target directory
      that nothing there has, while there are numbers left. */
  lemma SaveOneDoes(s: State, id: Id, src: Id, share: Share, dir: string, user: string, space: string,
                    now: nat, failing: bool)
    ensures var (t, saved) := SaveOne(s, id, src, share, dir, user, space, now, failing);
            t.objects == s.objects
            && (saved.Some? <==> Offered(s, src, share) && !Placeholder(s.files[src].name) && !failing)
            && (saved.None? ==> t == s)
            && (saved.Some? ==> id in t.files && t.files == s.files[id := t.files[id]]
                                && IsCopy(t.files[id], s.files[src], Owner(user, space, saved.value)))
  {
    hide UniqueNames.UniqueName, BaseName, NamesInUse, HasSuffix;
    if src in s.files { PlaceholderIs(s.files[src].name); }
  }

  lemma SavedName(s: State, id: Id, src: Id, share: Share, dir: string, user: string, space: string,
                  now: nat, base: string, sub: string)
    requires Offered(s, src, share) && !Placeholder(s.files[src].name) && '/' !in base
    requires s.files[src].name == base || s.files[src].name == sub + "/" + base
    ensures var saved := SaveOne(s, id, src, share, dir, user, space, now, false).1;
            saved == Some(UniqueNames.UniqueName(dir + base, NamesInUse(s, space, user), now))
    ensures !Taken(s, space, dir + base, user) ==>
              SaveOne(s, id, src, share, dir, user, space, now, false).1 == Some(dir + base)
  {
    var name := s.files[src].name;
    PlaceholderIs(name);
    if name == base {
      assert UniqueNames.LastIndex(base, '/') == -1;
    } else {
      assert name[|sub|] == '/' && name[|sub| + 1..] == base;
      forall k | |sub| < k < |name| ensures name[k] != '/' { assert name[k] == base[k - |sub| - 1]; }
      UniqueNames.LastIndexIs(name, '/', |sub|);
    }
    assert BaseName(name) == base;
    UniqueNames.UniqueNameIs(dir + base, NamesInUse(s, space, user), now, 1);
    hide UniqueNames.UniqueName, BaseName, HasSuffix;
    if dir + base in NamesInUse(s, space, user) {
      var j :| j in s.files && !s.files[j].Trashed() && InSpace(s.files[j], space) && OwnedBy(s.files[j], user)
               && s.files[j].name == dir + base;
      assert Seen(s.files[j], space, user);
    }
  }

  // The trash.

  lemma DeleteDoes(s: State, id: Id, user: string, admin: bool, now: int, failing: bool, j: Id)
    requires j in s.files
    ensures var t := DeleteFileById(s, id, user, admin, now, failing);
            t.objects == s.objects && t.files.Keys == s.files.Keys
            && t.files[j] == if j == id && s.files[j].deletedAt == None && (admin || s.files[j].owner == user)
                                && !failing
                             then s.files[j].(deletedAt := Some(now)) else s.files[j]
  {
  }

  lemma {:induction false} BatchDeleteDoes(s: State, ids: seq<Id>, user: string, admin: bool, now: int,
                                           failing: set<Id>, j: Id)
    requires j in s.files
    ensures var t := BatchDelete(s, ids, user, admin, now, failing);
            t.objects == s.objects && t.files.Keys == s.files.Keys
            && t.files[j] == if j in ids && s.files[j].deletedAt == None && (admin || s.files[j].owner == user)
                                && j !in failing
                             then s.files[j].(deletedAt := Some(now)) else s.files[j]
  {
    hide DeleteFileById;
    if ids != [] {
      var n := |ids| - 1;
      BatchDeleteDoes(s, ids[..n], user, admin, now, failing, j);
      var t := BatchDelete(s, ids[..n], user, admin, now, failing);
      DeleteDoes(t, ids[n], user, admin, now, ids[n] in failing, j);
      assert ids == ids[..n] + [ids[n]];
    }
  }

  /** Which rows a directory deletion takes, and what it does to them. */
  lemma DeleteDirTakes(s: State, prefix: string, owner: string, space: string, now: int, failing: bool, id: Id)
    requires id in s.files
    ensures var t := DeleteDir(s, prefix, owner, space, now, failing);
            var r := s.files[id];
            t.objects == s.objects && t.files.Keys == s.files.Keys
            && t.files[id] == if prefix != "" && !failing && r.deletedAt == None
                                 && LikeMatches(Escaped(prefix) + "%", r.name) && Seen(r, space, owner)
                              then r.(deletedAt := Some(now)) else r
  {
    EscapedPrefixQuery(prefix, s.files[id].name);
    hide Like, LikeMatches, Escaped;
  }

  lemma RestoreDoes(s: State, id: Id, owner: string, space: string, failing: bool)
    ensures var t := RestoreFile(s, id, owner, space, failing);
            var can := id in s.files && s.files[id].deletedAt.Some? && Seen(s.files[id], space, owner)
                       && !Taken(s, s.files[id].space, s.files[id].name, owner) && !failing;
            t.objects == s.objects
            && t.files == if can then s.files[id := s.files[id].(deletedAt := None)] else s.files
  {
    if id in s.files { TakenIs(s, s.files[id].space, s.files[id].name, owner); }
  }

  /** Only a trashed row of the caller goes; the object is dealt with by FreeIs. */
  lemma PurgeDoes(s: State, id: Id, owner: string, f: Fault)
    ensures var t := Purge(s, id, owner, f);
            var can := id in s.files && s.files[id].deletedAt.Some? && (owner == "" || s.files[id].owner == owner)
                       && f != RowFails;
            (can ==> t.files == s.files - {id}) && (!can ==> t == s)
            && forall q :: q in t.objects ==> q in s.objects && t.objects[q] == s.objects[q]
  {
  }

  lemma {:induction false} PurgeAllDoes(s: State, ids: seq<Id>, owner: string, faults: map<Id, Fault>, j: Id)
    ensures var t := PurgeAll(s, ids, owner, faults);
            (j in t.files <==>
             j in s.files && !(j in ids && s.files[j].deletedAt.Some? && (owner == "" || s.files[j].owner == owner)
                               && (j in faults ==> faults[j] != RowFails)))
            && (j in t.files ==> t.files[j] == s.files[j])
  {
    hide Purge;
    if ids != [] {
      var n := |ids| - 1;
      PurgeAllDoes(s, ids[..n], owner, faults, j);
      PurgeDoes(PurgeAll(s, ids[..n], owner, faults), ids[n], owner, FaultOf(faults, ids[n]));
      assert ids == ids[..n] + [ids[n]];
    }
  }

  /** The rows the trash listing returns, each once, in some order. */
  predicate IsTrashList(s: State, ids: seq<Id>, space: string, owner: string) {
    Distinct(ids) && (forall k :: 0 <= k < |ids| ==> ids[k] in s.files)
    && forall id :: id in s.files ==> (id in ids <==> s.files[id].deletedAt.Some? && Seen(s.files[id], space, owner))
  }

  /** Emptying takes all of the caller's trash in the space, and nothing else. */
  lemma EmptyTrashDoes(s: State, ids: seq<Id>, space: string, owner: string, faults: map<Id, Fault>, j: Id)
    requires IsTrashList(s, ids, space, owner)
    ensures var t := PurgeAll(s, ids, owner, faults);
            (j in t.files <==> j in s.files && !(s.files[j].deletedAt.Some? && Seen(s.files[j], space, owner)
                                                 && (j in faults ==> faults[j] != RowFails)))
            && (j in t.files ==> t.files[j] == s.files[j])
  {
    PurgeAllDoes(s, ids, owner, faults, j);
  }

  /** The rows trashed before the cutoff, each once, in some order. */
  predicate IsExpiredList(s: State, ids: seq<Id>, cutoff: int) {
    Distinct(ids) && (forall k :: 0 <= k < |ids| ==> ids[k] in s.files)
    && forall id :: id in s.files ==>
         (id in ids <==> s.files[id].deletedAt.Some? && s.files[id].deletedAt.value < cutoff)
  }

  /** The start-up clean-up takes exactly these. */
  lemma CleanUpDoes(s: State, ids: seq<Id>, cutoff: int, faults: seq<Fault>, j: Id)
    requires IsExpiredList(s, ids, cutoff) && |faults| == |ids|
    ensures var t := CleanUp(s, ids, cutoff, false, faults);
            (j in t.files <==> j in s.files && !(s.files[j].deletedAt.Some? && s.files[j].deletedAt.value < cutoff))
            && (j in t.files ==> t.files[j] == s.files[j])
    ensures CleanUp(s, ids, cutoff, true, faults) == s
  {
    forall k | 0 <= k < |ids| ensures Expired(s, ids[k], cutoff) { assert ids[k] in ids; }
    FreeAllFiles(s.Without(set id | id in ids), PathsOf(s, ids), faults);
  }

  /** Whatever list it is given, a row that is live or was trashed later never goes. */
  lemma CleanUpSpares(s: State, ids: seq<Id>, cutoff: int, failing: bool, faults: seq<Fault>, j: Id)
    requires j in s.files && (s.files[j].deletedAt == None || s.files[j].deletedAt.value >= cutoff)
    ensures var t := CleanUp(s, ids, cutoff, failing, faults); j in t.files && t.files[j] == s.files[j]
  {
    if !failing && |faults| == |ids| && forall k :: 0 <= k < |ids| ==> Expired(s, ids[k], cutoff) {
      FreeAllFiles(s.Without(set id | id in ids), PathsOf(s, ids), faults);
      assert forall k :: 0 <= k < |ids| && Expired(s, ids[k], cutoff) ==> ids[k] != j;
    }
  }

  /** What the clean-up counts as freed: the entries without a row, whether or not deleting the object then fails. */
  lemma {:induction false} ReportedIs(s: State, paths: seq<Path>, faults: seq<Fault>)
    requires |paths| == |faults|
    ensures Reported(s, paths, faults)
            == |set k | 0 <= k < |paths| && faults[k] != CountFails
                        && !(exists id :: id in s.files && s.files[id].path == paths[k])|
  {
    if paths != [] {
      var n := |paths| - 1;
      ReportedIs(s, paths[..n], faults[..n]);
      ReferencesZero(s, paths[n]);
      var less := set k | 0 <= k < n && faults[..n][k] != CountFails
                          && !(exists id :: id in s.files && s.files[id].path == paths[..n][k]);
      var all := set k | 0 <= k < |paths| && faults[k] != CountFails
                         && !(exists id :: id in s.files && s.files[id].path == paths[k]);
      if n in all { assert all == less + {n}; } else { assert all == less; }
    }
  }

  // Names.

  lemma RenameDoes(s: State, names: map<Id, string>, j: Id)
    requires j in s.files
    ensures var t := Rename(s, names);
            t.objects == s.objects && t.files.Keys == s.files.Keys
            && t.files[j].name == (if j in names then names[j] else s.files[j].name)
            && t.files[j].(name := "") == s.files[j].(name := "")
  {
  }

  // Editing.

  /** A local file is overwritten where it lies, a file of the object store is not reached. */
  lemma EditDoes(s: State, h: Bytes -> string, id: Id, user: string, admin: bool, b: Bytes, f: EditFaults)
    ensures var t := Edit(s, h, id, user, admin, b, f);
            var can := id in s.files && s.files[id].deletedAt == None && (admin || s.files[id].owner == user);
            (!can ==> t == s)
            && (can ==> Stored(s, t, if s.files[id].path.Local? then Disk(s.files[id].path.file)
                                     else DiskNamedS3(s.files[id].path.key), b, f.write)
                        && t.files == if !f.write.Written? || f.row then s.files
                                      else s.files[id := s.files[id].(size := |b|, measured := !f.unhashed,
                                                                      hash := if f.unhashed then "" else h(b))])
  {
  }
}
