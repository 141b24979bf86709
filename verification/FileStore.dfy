/** The handlers over the file table and the storage back ends, one call at a time,
    each tied to the step of SharedStorage that it takes. */
module FileStore {
  import opened Basics
  import opened SharedStorage
  import opened StorageEffects
  import opened Paths
  import UniqueNames

  datatype Checked = Miss | Conflict | Failed | Instant(id: Id)

  ghost predicate NoSource(s: State, sum: string, size: nat) {
    forall id :: id in s.files ==> !IsSource(s, id, sum, size)
  }

  predicate DistinctIds(items: seq<Item>) {
    forall j, k :: 0 <= j < k < |items| ==> items[j].id != items[k].id
  }

  lemma StaysSafe(s: State, h: Bytes -> string, e: Event)
    ensures Safe(s) && DrawsFresh(s, e) ==> Safe(Apply(s, h, e))
  {
    if Safe(s) && DrawsFresh(s, e) { StepIsSafe(s, h, e); }
  }

  function FaultsOf(ids: seq<Id>, faults: map<Id, Fault>): (f: seq<Fault>)
    ensures |f| == |ids|
  {
    seq(|ids|, k requires 0 <= k < |ids| => FaultOf(faults, ids[k]))
  }

  lemma ExpiredListed(s: State, ids: seq<Id>, cutoff: int)
    requires IsExpiredList(s, ids, cutoff)
    ensures forall k :: 0 <= k < |ids| ==> Expired(s, ids[k], cutoff)
  {
    forall k | 0 <= k < |ids| ensures Expired(s, ids[k], cutoff) { assert ids[k] in ids; }
  }

  /** The rows of a result, each once. */
  method RowsOf(ids: set<Id>) returns (r: seq<Id>)
    ensures Distinct(r) && (forall id :: id in r <==> id in ids) && forall k :: 0 <= k < |r| ==> r[k] in ids
  {
    r := [];
    var todo := ids;
    while todo != {}
      invariant todo <= ids && Distinct(r) && forall id :: id in r <==> id in ids && id !in todo
    {
      var id :| id in todo;
      assert forall k :: 0 <= k < |r| ==> r[k] in r;
      r := r + [id];
      todo := todo - {id};
    }
    assert forall k :: 0 <= k < |r| ==> r[k] in r;
  }

  class Repository {
    const hash: Bytes -> string
    var files: map<Id, Record>
    var objects: map<Place, Bytes>

    function View(): State reads this { State(files, objects) }

    constructor (h: Bytes -> string)
      ensures View() == EMPTY && hash == h
    {
      hash, files, objects := h, map[], map[];
    }

    /** Writing a file or an object: created or truncated, then filled. */
    method Store(at: Place, b: Bytes, w: Write) returns (ok: bool)
      modifies this`objects
      ensures View() == AfterWrite(old(View()), at, b, w)
      ensures ok <==> w == Written
    {
      if w.NotOpened? { return false; }
      objects := objects[at := b];
      if w.Torn? {
        objects := objects[at := if w.n <= |b| then b[..w.n] else b];
        return false;
      }
      return true;
    }

    method CompleteUpload(id: Id, p: Path, b: Bytes, who: Owner, f: StoreFaults) returns (ok: bool)
      modifies this
      ensures View() == Complete(old(View()), hash, id, p, b, who, f)
      ensures ok <==> f.write == Written
      ensures Safe(old(View())) && id !in old(files) && PlaceOf(p) !in old(objects) ==> Safe(View())
    {
      StaysSafe(View(), hash, Completing(id, p, b, who, f));
      ok := Store(PlaceOf(p), b, f.write);
      if !ok { return; }
      var sum := if f.unhashed then "" else hash(b);
      var size := if f.unsized then 0 else |b|;
      if !f.insert {
        files := files[id := Record(who.name, size, sum, !f.unhashed && !f.unsized, p, who.user, who.space, None)];
      }
    }

    /** FindFileByName. */
    method FindFileByName(space: string, name: string, owner: string) returns (found: Option<Id>)
      ensures found.Some? <==> View().NameTaken(space, name, owner)
      ensures found.Some? ==> LiveIn(View(), found.value, space, owner) && files[found.value].name == name
    {
      if id :| id in files && !files[id].Trashed() && files[id].name == name && InSpace(files[id], space)
               && OwnedBy(files[id], owner)
      {
        return Some(id);
      }
      return None;
    }

    method CreateTextFile(id: Id, file: nat, b: Bytes, who: Owner, f: StoreFaults) returns (ok: bool)
      modifies this
      ensures View() == CreateText(old(View()), hash, id, file, b, who, f)
      ensures ok <==> !old(View()).NameTaken(who.space, who.name, who.user) && f.write == Written && !f.insert
      ensures Safe(old(View())) && id !in old(files) && Disk(file) !in old(objects) ==> Safe(View())
    {
      StaysSafe(View(), hash, CreatingText(id, file, b, who, f));
      var existing := FindFileByName(who.space, who.name, who.user);
      if existing.Some? { return false; }
      ok := Store(Disk(file), b, f.write);
      if !ok { return; }
      if f.insert {
        if !f.delete { objects := objects - {Disk(file)}; }
        return false;
      }
      var sum := if f.unhashed then "" else hash(b);
      files := files[id := Record(who.name, |b|, sum, !f.unhashed, Local(file), who.user, who.space, None)];
    }

    /** Mkdir: a placeholder object without a hash. */
    method Mkdir(id: Id, file: nat, owner: string, who: Owner, f: StoreFaults) returns (ok: bool)
      modifies this
      ensures View() == SharedStorage.Mkdir(old(View()), id, file, owner, who, f)
      ensures ok <==> !old(View()).NameTaken(who.space, who.name, owner) && f.write == Written && !f.insert
      ensures Safe(old(View())) && id !in old(files) && Disk(file) !in old(objects) ==> Safe(View())
    {
      StaysSafe(View(), hash, MakingDir(id, file, owner, who, f));
      var existing := FindFileByName(who.space, who.name, owner);
      if existing.Some? { return false; }
      ok := Store(Disk(file), [], f.write);
      if !ok { return; }
      if f.insert {
        if !f.delete { objects := objects - {Disk(file)}; }
        return false;
      }
      files := files[id := Record(who.name, 0, "", false, Local(file), who.user, who.space, None)];
    }

    /** GetFileByHash, over all owners. */
    method GetFileByHash(sum: string, size: nat) returns (src: Option<Id>)
      ensures src.Some? ==> IsSource(View(), src.value, sum, size)
      ensures src.None? ==> NoSource(View(), sum, size)
    {
      if id :| id in files && IsSource(View(), id, sum, size) {
        return Some(id);
      }
      return None;
    }

    /** CheckUpload: the two queries, then a record that shares the source's object. */
    method CheckUpload(id: Id, sum: string, size: nat, who: Owner, failing: bool)
      returns (r: Checked, src: Option<Id>, existing: Option<Id>)
      modifies this`files
      ensures src.Some? ==> IsSource(old(View()), src.value, sum, size)
      ensures src.None? ==> NoSource(old(View()), sum, size)
      ensures existing.Some? ==> IsNamed(old(View()), existing.value, who)
      ensures src.Some? && existing.None? ==> !old(View()).NameTaken(who.space, who.name, who.user)
      ensures View() == SharedStorage.CheckUpload(old(View()), id, sum, size, src, existing, who, failing)
      ensures Safe(old(View())) && id !in old(files) ==> Safe(View())
      ensures r == if src.None? then Miss
                   else if existing.Some? && existing != src then Conflict
                   else if failing then Failed else Instant(id)
    {
      existing := None;
      src := GetFileByHash(sum, size);
      ghost var s := View();
      if src.None? { return Miss, src, existing; }
      existing := FindFileByName(who.space, who.name, who.user);
      if existing.Some? && existing.value != src.value { return Conflict, src, existing; }
      if failing { return Failed, src, existing; }
      var f := files[src.value];
      files := files[id := Record(who.name, f.size, f.hash, f.measured, f.path, who.user, who.space, None)];
      r := Instant(id);
      StaysSafe(s, hash, Checking(id, sum, size, src, existing, who, failing));
    }

    /** The save loop; the names of the new records, in order, None where a file was not saved. */
    method SaveShareToMyFiles(items: seq<Item>, share: Share, dir: string, user: string, space: string, now: nat)
      returns (names: seq<Option<string>>)
      modifies this`files
      ensures View() == SaveShare(old(View()), items, share, dir, user, space, now)
      ensures |names| == |items|
      ensures Safe(old(View())) ==> Safe(View())
      ensures DistinctIds(items) ==> forall k :: 0 <= k < |items| && names[k].Some? ==>
                items[k].id in files && files[items[k].id].name == names[k].value
    {
      hide SaveOne;
      names := [];
      ghost var s := View();
      for n := 0 to |items|
        invariant objects == s.objects
        invariant View() == SaveShare(s, items[..n], share, dir, user, space, now)
        invariant |names| == n
        invariant DistinctIds(items) ==> forall k :: 0 <= k < n && names[k].Some? ==>
                    items[k].id in files && files[items[k].id].name == names[k].value
      {
        assert items[..n + 1][..n] == items[..n];
        var name := SaveFile(items[n], share, dir, user, space, now);
        names := names + [name];
      }
      assert items[..|items|] == items;
      SaveShareKeeps(s, items, share, dir, user, space, now, hash);
    }

    method SaveFile(i: Item, share: Share, dir: string, user: string, space: string, now: nat)
      returns (saved: Option<string>)
      modifies this`files
      ensures (View(), saved) == SaveOne(old(View()), i.id, i.src, share, dir, user, space, now, i.failing)
      ensures saved.Some? ==> i.id in files && files[i.id].name == saved.value
      ensures forall j :: j in old(files) && j != i.id ==> j in files && files[j] == old(files[j])
    {
      if i.src !in files || files[i.src].Trashed() { return None; }
      var f := files[i.src];
      if !IsFileInShare(View(), i.src, share) { return None; }
      if HasSuffix(f.name, KEEP) { return None; }
      var name := UniqueNames.GenerateUniqueFilename(dir + BaseName(f.name), NamesInUse(View(), space, user), now);
      if i.failing { return None; }
      files := files[i.id := Record(name, f.size, f.hash, f.measured, f.path, user, space, None)];
      return Some(name);
    }

    method DeleteFile(id: Id, now: int)
      requires id in files && !files[id].Trashed()
      modifies this`files
      ensures View() == Trash(old(View()), {id}, now)
    {
      ghost var s := View();
      files := files[id := files[id].(deletedAt := Some(now))];
      assert files == Trash(s, {id}, now).files;
    }

    method DeleteFileByID(id: Id, user: string, admin: bool, now: int, failing: bool) returns (ok: bool)
      modifies this`files
      ensures View() == DeleteFileById(old(View()), id, user, admin, now, failing)
      ensures ok <==> MayChange(old(View()), id, user, admin) && !failing
      ensures Safe(old(View())) ==> Safe(View())
      ensures |TrashedIds(View())| == |TrashedIds(old(View()))| + if ok then 1 else 0
    {
      StaysSafe(View(), hash, Deleting(id, user, admin, now, failing));
      if id !in files || files[id].Trashed() { return false; }
      if files[id].owner != user && !admin { return false; }
      if failing { return false; }
      TrashAdds(View(), {id}, now);
      DeleteFile(id, now);
      return true;
    }

    method BatchDelete(ids: seq<Id>, user: string, admin: bool, now: int, failures: set<Id>)
      returns (succeeded: nat, failed: nat)
      modifies this`files
      ensures View() == SharedStorage.BatchDelete(old(View()), ids, user, admin, now, failures)
      ensures succeeded + failed == |ids| && succeeded + |TrashedIds(old(View()))| == |TrashedIds(View())|
      ensures Safe(old(View())) ==> Safe(View())
    {
      hide DeleteFileById, TrashedIds;
      StaysSafe(View(), hash, BatchDeleting(ids, user, admin, now, failures));
      succeeded, failed := 0, 0;
      ghost var s := View();
      for n := 0 to |ids|
        invariant objects == s.objects && succeeded + |TrashedIds(s)| == |TrashedIds(View())|
        invariant View() == SharedStorage.BatchDelete(s, ids[..n], user, admin, now, failures)
        invariant succeeded + failed == n
      {
        assert ids[..n + 1][..n] == ids[..n];
        var ok := DeleteFileByID(ids[n], user, admin, now, ids[n] in failures);
        if ok { succeeded := succeeded + 1; } else { failed := failed + 1; }
      }
      assert ids[..|ids|] == ids;
    }

    /** DeleteFilesByPrefix: the listed rows are marked one by one, all or none of them. */
    method DeleteDir(prefix: string, owner: string, space: string, now: int, failing: bool) returns (count: nat)
      modifies this`files
      ensures View() == SharedStorage.DeleteDir(old(View()), prefix, owner, space, now, failing)
      ensures count + |TrashedIds(old(View()))| == |TrashedIds(View())|
      ensures Safe(old(View())) ==> Safe(View())
    {
      hide Like, InSpace, OwnedBy, TrashedIds;
      StaysSafe(View(), hash, DirDeleting(prefix, owner, space, now, failing));
      if prefix == "" { return 0; }
      var ids := set id | id in files && !files[id].Trashed() && Like(files[id].name, prefix)
                          && InSpace(files[id], space) && OwnedBy(files[id], owner);
      if failing { return 0; }
      count := |ids|;
      TrashAdds(View(), ids, now);
      MarkAll(ids, now);
    }

    /** The transaction's loop. */
    method MarkAll(ids: set<Id>, now: int)
      requires forall id :: id in ids ==> id in files && !files[id].Trashed()
      modifies this`files
      ensures View() == Trash(old(View()), ids, now)
    {
      hide Trash;
      ghost var s := View();
      var todo := ids;
      TrashNothing(s, ids - todo, now);
      while todo != {}
        invariant todo <= ids && View() == Trash(s, ids - todo, now)
      {
        var id :| id in todo;
        TrashOneMore(s, ids, todo, id, now);
        files := files[id := files[id].(deletedAt := Some(now))];
        todo := todo - {id};
      }
      assert ids - todo == ids;
    }

    method Restore(id: Id, owner: string, space: string, failing: bool) returns (ok: bool)
      modifies this`files
      ensures View() == RestoreFile(old(View()), id, owner, space, failing)
      ensures ok <==> View() != old(View())
      ensures ok ==> id in files && !files[id].Trashed() && id in old(files) && old(files)[id].Trashed()
      ensures Safe(old(View())) ==> Safe(View())
    {
      StaysSafe(View(), hash, Restoring(id, owner, space, failing));
      if id !in files || !files[id].Trashed() || !InSpace(files[id], space) || !OwnedBy(files[id], owner) {
        return false;
      }
      var existing := FindFileByName(files[id].space, files[id].name, owner);
      if existing.Some? || failing { return false; }
      files := files[id := files[id].(deletedAt := None)];
      return true;
    }

    /** CountByStoragePath, then the object if nothing refers to it. */
    method FreeObject(p: Path, f: Fault) returns (gone: bool)
      modifies this`objects
      ensures View() == Free(old(View()), p, f)
      ensures gone <==> f != CountFails && old(View()).References(p) == 0
    {
      if f == CountFails { return false; }
      var count := View().References(p);
      if count > 0 { return false; }
      if f != DeleteFails { objects := objects - {PlaceOf(p)}; }
      return true;
    }

    method PermanentDelete(id: Id, owner: string, f: Fault) returns (ok: bool)
      modifies this
      ensures View() == Purge(old(View()), id, owner, f)
      ensures |files| + (if ok then 1 else 0) == |old(files)|
      ensures !ok ==> View() == old(View())
      ensures Safe(old(View())) ==> Safe(View())
    {
      StaysSafe(View(), hash, Purging(id, owner, f));
      if id !in files || !files[id].Trashed() || !OwnedBy(files[id], owner) || f == RowFails { return false; }
      var p := files[id].path;
      ghost var before := files;
      files := files - {id};
      assert before == files[id := before[id]];
      var _ := FreeObject(p, f);
      return true;
    }

    /** ListTrashedFiles, in whatever order. */
    method ListTrashedFiles(space: string, owner: string) returns (ids: seq<Id>)
      ensures IsTrashList(View(), ids, space, owner)
    {
      var todo := set id | id in files && files[id].Trashed() && InSpace(files[id], space) && OwnedBy(files[id], owner);
      ids := RowsOf(todo);
    }

    /** EmptyTrash: what is listed is purged; the count is of the rows that went. */
    method EmptyTrash(space: string, owner: string, faults: map<Id, Fault>)
      returns (ids: seq<Id>, succeeded: nat, failed: nat)
      modifies this
      ensures IsTrashList(old(View()), ids, space, owner)
      ensures View() == PurgeAll(old(View()), ids, owner, faults)
      ensures succeeded + failed == |ids| && |files| + succeeded == |old(files)|
      ensures forall j :: j in files <==>
                j in old(files) && !(old(files)[j].deletedAt.Some? && Seen(old(files)[j], space, owner)
                                     && (j in faults ==> faults[j] != RowFails))
      ensures Safe(old(View())) ==> Safe(View())
    {
      ghost var s := View();
      ids := ListTrashedFiles(space, owner);
      succeeded, failed := PurgeListed(ids, owner, faults);
      forall j ensures j in files <==>
                         j in s.files && !(s.files[j].deletedAt.Some? && Seen(s.files[j], space, owner)
                                           && (j in faults ==> faults[j] != RowFails))
      {
        EmptyTrashDoes(s, ids, space, owner, faults, j);
      }
    }

    /** The rows are deleted one by one. */
    method PurgeListed(ids: seq<Id>, owner: string, faults: map<Id, Fault>) returns (succeeded: nat, failed: nat)
      modifies this
      ensures View() == PurgeAll(old(View()), ids, owner, faults)
      ensures succeeded + failed == |ids| && |files| + succeeded == |old(files)|
      ensures Safe(old(View())) ==> Safe(View())
    {
      hide Purge;
      StaysSafe(View(), hash, Emptying(ids, owner, faults));
      succeeded, failed := 0, 0;
      ghost var s := View();
      for n := 0 to |ids|
        invariant View() == PurgeAll(s, ids[..n], owner, faults)
        invariant succeeded + failed == n && |files| + succeeded == |s.files|
      {
        assert ids[..n + 1][..n] == ids[..n];
        var ok := PermanentDelete(ids[n], owner, FaultOf(faults, ids[n]));
        if ok { succeeded := succeeded + 1; } else { failed := failed + 1; }
      }
      assert ids[..|ids|] == ids;
    }

    /** CleanupExpiredTrash's query, in whatever order. */
    method ListExpired(cutoff: int) returns (ids: seq<Id>)
      ensures IsExpiredList(View(), ids, cutoff)
    {
      var todo := set id | id in files && files[id].Trashed() && files[id].deletedAt.value < cutoff;
      ids := RowsOf(todo);
    }

    /** The start-up clean-up: the rows in one transaction, then object after object. */
    method CleanUpTrash(cutoff: int, failing: bool, faults: map<Id, Fault>) returns (ids: seq<Id>, deleted: nat)
      modifies this
      ensures IsExpiredList(old(View()), ids, cutoff)
      ensures View() == CleanUp(old(View()), ids, cutoff, failing, FaultsOf(ids, faults))
      ensures deleted == if failing then 0 else Reported(old(View()).Without(set id | id in ids),
                                                         PathsOf(old(View()), ids), FaultsOf(ids, faults))
      ensures !failing ==> forall j :: j in files <==>
                j in old(files) && !(old(files)[j].deletedAt.Some? && old(files)[j].deletedAt.value < cutoff)
      ensures Safe(old(View())) ==> Safe(View())
    {
      hide Safe, Reported, FreeAll;
      ghost var s := View();
      ids := ListExpired(cutoff);
      ghost var frees := FaultsOf(ids, faults);
      CleanUpKeeps(s, ids, cutoff, failing, frees, hash);
      ExpiredListed(s, ids, cutoff);
      deleted := 0;
      if failing { return; }
      var paths := PathsOf(View(), ids);
      files := files - set id | id in ids;
      deleted := FreeListed(ids, paths, faults);
      forall j ensures j in files <==>
                         j in s.files && !(s.files[j].deletedAt.Some? && s.files[j].deletedAt.value < cutoff)
      {
        CleanUpDoes(s, ids, cutoff, frees, j);
      }
    }

    method FreeListed(ids: seq<Id>, paths: seq<Path>, faults: map<Id, Fault>) returns (deleted: nat)
      requires |paths| == |ids|
      modifies this`objects
      ensures View() == FreeAll(old(View()), paths, FaultsOf(ids, faults))
      ensures deleted == Reported(old(View()), paths, FaultsOf(ids, faults))
    {
      hide Free;
      deleted := 0;
      ghost var s, frees := View(), FaultsOf(ids, faults);
      for n := 0 to |paths|
        invariant deleted == Reported(s, paths[..n], frees[..n])
        invariant View() == FreeAll(s, paths[..n], frees[..n])
      {
        assert paths[..n + 1][..n] == paths[..n] && frees[..n + 1][..n] == frees[..n];
        FreeAllFiles(s, paths[..n], frees[..n]);
        var gone := FreeObject(paths[n], FaultOf(faults, ids[n]));
        if gone { deleted := deleted + 1; }
      }
      assert paths[..|paths|] == paths && frees[..|frees|] == frees;
    }

    /** UpdateFileContent: in place, whoever else refers to the object. */
    method UpdateFileContent(id: Id, user: string, admin: bool, b: Bytes, f: EditFaults) returns (ok: bool)
      modifies this
      ensures View() == Edit(old(View()), hash, id, user, admin, b, f)
      ensures ok <==> MayChange(old(View()), id, user, admin) && Updates(f)
      ensures Safe(old(View())) ==> Safe(View())
    {
      StaysSafe(View(), hash, Editing(id, user, admin, b, f));
      if id !in files || files[id].Trashed() { return false; }
      if files[id].owner != user && !admin { return false; }
      ok := Store(EditPlace(files[id].path), b, f.write);
      if !ok { return; }
      var sum := if f.unhashed then "" else hash(b);
      if f.row { return false; }
      files := files[id := files[id].(size := |b|, hash := sum, measured := !f.unhashed)];
    }
  }
}
