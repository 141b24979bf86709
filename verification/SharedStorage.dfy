/** Stored objects that several file records share, created once and freed by reference counting. */
module SharedStorage {
  import opened Basics
  import opened Paths
  import UniqueNames

  type Id = nat

  /** A storage path names its back end: "local:" and a file, or "s3:" and an object key. */
  datatype Path = Local(file: nat) | S3(key: nat)

  /** Where bytes lie. A local file may also be named like an S3 path, prefix and all. */
  datatype Place = Disk(file: nat) | Bucket(key: nat) | DiskNamedS3(key: nat)

  function PlaceOf(p: Path): Place {
    match p
    case Local(file) => Disk(file)
    case S3(key) => Bucket(key)
  }

  /** Where the editor writes: only the "local:" prefix is taken off. */
  function EditPlace(p: Path): Place {
    match p
    case Local(file) => Disk(file)
    case S3(key) => DiskNamedS3(key)
  }

  /** A row of the file table. `measured` tells that the server computed size and hash from the bytes. */
  datatype Record = Record(
    name: string, size: nat, hash: string, measured: bool, path: Path,
    owner: string, space: string, deletedAt: Option<int>)
  {
    predicate Trashed() { deletedAt.Some? }
  }

  datatype State = State(files: map<Id, Record>, objects: map<Place, Bytes>)
  {
    /** CountByStoragePath: every row with the path, live or trashed. */
    function References(p: Path): nat {
      |set id | id in files && files[id].path == p|
    }

    predicate NameTaken(space: string, name: string, owner: string) {
      exists id | id in files ::
        !files[id].Trashed() && files[id].name == name && InSpace(files[id], space) && OwnedBy(files[id], owner)
    }

    function With(id: Id, r: Record): State { State(files[id := r], objects) }

    function Put(at: Place, b: Bytes): State { State(files, objects[at := b]) }

    function Drop(at: Place): State { State(files, objects - {at}) }

    function Without(ids: set<Id>): State { State(files - ids, objects) }
  }

  predicate InSpace(r: Record, space: string) { space == "*" || r.space == space }

  predicate OwnedBy(r: Record, owner: string) { owner == "" || r.owner == owner }

  const EMPTY := State(map[], map[])

  // New objects.

  /** How creating a file goes: the write, whether hashing the result or asking its size fails,
      whether inserting the row fails and whether the clean-up after that fails. */
  datatype StoreFaults = StoreFaults(write: Write, unhashed: bool, unsized: bool, insert: bool, delete: bool)

  function AfterWrite(s: State, at: Place, b: Bytes, w: Write): State {
    if w.NotOpened? then s else s.Put(at, Content(b, w))
  }

  function NewRecord(h: Bytes -> string, b: Bytes, f: StoreFaults, p: Path, who: Owner): Record {
    Record(who.name, if f.unsized then 0 else |b|, if f.unhashed then "" else h(b),
           !f.unhashed && !f.unsized, p, who.user, who.space, None)
  }

  datatype Owner = Owner(user: string, space: string, name: string)

  /** CompleteUpload: the result of inserting the row is ignored. */
  function Complete(s: State, h: Bytes -> string, id: Id, p: Path, b: Bytes, who: Owner, f: StoreFaults): State {
    var t := AfterWrite(s, PlaceOf(p), b, f.write);
    if f.write != Written || f.insert then t else t.With(id, NewRecord(h, b, f, p, who))
  }

  /** CompleteUpload of a direct upload: the client's own hash is taken on trust. */
  function Compose(s: State, id: Id, key: nat, b: Bytes, hash: string, who: Owner, failing: bool): State {
    var t := s.Put(Bucket(key), b);
    if failing then t else t.With(id, Record(who.name, |b|, hash, false, S3(key), who.user, who.space, None))
  }

  /** CreateTextFile: when the row cannot be inserted the object is deleted again. The size is what was written. */
  function CreateText(s: State, h: Bytes -> string, id: Id, file: nat, b: Bytes, who: Owner, f: StoreFaults): State {
    if s.NameTaken(who.space, who.name, who.user) then s
    else
      var t := AfterWrite(s, Disk(file), b, f.write);
      if f.write != Written then t
      else if f.insert then (if f.delete then t else t.Drop(Disk(file)))
      else t.With(id, NewRecord(h, b, f.(unsized := false), Local(file), who))
  }

  /** Mkdir: an empty placeholder object whose record carries no hash. */
  function Mkdir(s: State, id: Id, file: nat, owner: string, who: Owner, f: StoreFaults): State {
    if s.NameTaken(who.space, who.name, owner) then s
    else
      var t := AfterWrite(s, Disk(file), [], f.write);
      if f.write != Written then t
      else if f.insert then (if f.delete then t else t.Drop(Disk(file)))
      else t.With(id, Record(who.name, 0, "", false, Local(file), who.user, who.space, None))
  }

  // New records on old objects.

  function SharedRecord(src: Record, who: Owner): Record {
    Record(who.name, src.size, src.hash, src.measured, src.path, who.user, who.space, None)
  }

  /** GetFileByHash: a live record with this hash and size. */
  predicate IsSource(s: State, src: Id, hash: string, size: nat) {
    src in s.files && !s.files[src].Trashed() && s.files[src].hash == hash && s.files[src].size == size
  }

  /** FindFileByName: one of the live records with this name, if there is any. */
  predicate IsNamed(s: State, j: Id, who: Owner) {
    j in s.files && !s.files[j].Trashed() && s.files[j].name == who.name
    && InSpace(s.files[j], who.space) && OwnedBy(s.files[j], who.user)
  }

  /** CheckUpload after the request checks, given what the two queries answered. Without a source
      there is no instant upload, and another file of that name is a conflict. */
  function CheckUpload(s: State, id: Id, hash: string, size: nat, src: Option<Id>, existing: Option<Id>,
                       who: Owner, failing: bool): State
  {
    if src.None? || !IsSource(s, src.value, hash, size) then s
    else if existing.Some? && IsNamed(s, existing.value, who) && existing != src then s
    else if failing then s
    else s.With(id, SharedRecord(s.files[src.value], who))
  }

  datatype Share = FileShare(file: Id) | DirShare(prefix: string)

  predicate IsFileInShare(s: State, id: Id, share: Share)
    requires id in s.files
  {
    match share
    case FileShare(file) => id == file
    case DirShare(prefix) => prefix != "" && prefix <= s.files[id].name
  }

  function NamesInUse(s: State, space: string, owner: string): set<string> {
    set id | id in s.files && !s.files[id].Trashed() && InSpace(s.files[id], space) && OwnedBy(s.files[id], owner)
      :: s.files[id].name
  }

  function BaseName(name: string): string {
    name[UniqueNames.LastIndex(name, '/') + 1..]
  }

  /** One turn of the save loop; None when the file is skipped or the insert fails. */
  function SaveOne(s: State, id: Id, src: Id, share: Share, dir: string, user: string, space: string,
                   now: nat, failing: bool): (State, Option<string>)
  {
    if src !in s.files || s.files[src].Trashed() || !IsFileInShare(s, src, share) || HasSuffix(s.files[src].name, KEEP)
    then (s, None)
    else
      var name := UniqueNames.UniqueName(dir + BaseName(s.files[src].name), NamesInUse(s, space, user), now);
      if failing then (s, None)
      else (s.With(id, SharedRecord(s.files[src], Owner(user, space, name))), Some(name))
  }

  /** A request to save one file: its id, the id of the new record and whether the insert fails. */
  datatype Item = Item(src: Id, id: Id, failing: bool)

  function SaveShare(s: State, items: seq<Item>, share: Share, dir: string, user: string, space: string, now: nat)
    : State
  {
    if items == [] then s
    else
      var t := SaveShare(s, items[..|items| - 1], share, dir, user, space, now);
      var i := items[|items| - 1];
      SaveOne(t, i.id, i.src, share, dir, user, space, now, i.failing).0
  }

  // Into the trash and back.

  function Trash(s: State, ids: set<Id>, now: int): State {
    State(map id | id in s.files ::
            if id in ids && !s.files[id].Trashed() then s.files[id].(deletedAt := Some(now)) else s.files[id],
          s.objects)
  }

  lemma TrashNothing(s: State, ids: set<Id>, now: int)
    requires ids == {}
    ensures Trash(s, ids, now) == s
  {
  }

  lemma TrashOneMore(s: State, ids: set<Id>, todo: set<Id>, id: Id, now: int)
    requires id in todo && id in ids && id in s.files && !s.files[id].Trashed()
    ensures var t := Trash(s, ids - todo, now);
            id in t.files
            && Trash(s, ids - (todo - {id}), now) == t.With(id, t.files[id].(deletedAt := Some(now)))
  {
  }

  function TrashedIds(s: State): set<Id> { set id | id in s.files && s.files[id].Trashed() }

  lemma TrashAdds(s: State, ids: set<Id>, now: int)
    requires forall id :: id in ids ==> id in s.files && !s.files[id].Trashed()
    ensures TrashedIds(Trash(s, ids, now)) == TrashedIds(s) + ids
    ensures |TrashedIds(Trash(s, ids, now))| == |TrashedIds(s)| + |ids|
  {
  }

  /** The caller may delete a live file: the owner, or an administrator. */
  predicate MayChange(s: State, id: Id, user: string, admin: bool) {
    id in s.files && !s.files[id].Trashed() && (admin || s.files[id].owner == user)
  }

  function DeleteFileById(s: State, id: Id, user: string, admin: bool, now: int, failing: bool): State {
    if !MayChange(s, id, user, admin) || failing then s else Trash(s, {id}, now)
  }

  function BatchDelete(s: State, ids: seq<Id>, user: string, admin: bool, now: int, failing: set<Id>): State {
    if ids == [] then s
    else
      var id := ids[|ids| - 1];
      DeleteFileById(BatchDelete(s, ids[..|ids| - 1], user, admin, now, failing), id, user, admin, now, id in failing)
  }

  function DeleteDir(s: State, prefix: string, owner: string, space: string, now: int, failing: bool): State {
    if prefix == "" || failing then s
    else
      var ids := set id | id in s.files && !s.files[id].Trashed() && Like(s.files[id].name, prefix)
                          && InSpace(s.files[id], space) && OwnedBy(s.files[id], owner);
      Trash(s, ids, now)
  }

  function RestoreFile(s: State, id: Id, owner: string, space: string, failing: bool): State {
    if id !in s.files || !s.files[id].Trashed() || !InSpace(s.files[id], space) || !OwnedBy(s.files[id], owner)
       || s.NameTaken(s.files[id].space, s.files[id].name, owner) || failing
    then s
    else s.With(id, s.files[id].(deletedAt := None))
  }

  // Freeing.

  datatype Fault = NoFault | RowFails | CountFails | DeleteFails

  /** The object of a deleted row goes when no row refers to it any more. */
  function Free(s: State, p: Path, f: Fault): State {
    if f == CountFails || s.References(p) > 0 || f == DeleteFails then s else s.Drop(PlaceOf(p))
  }

  /** PermanentDelete, and one turn of EmptyTrash. */
  function Purge(s: State, id: Id, owner: string, f: Fault): State {
    if id !in s.files || !s.files[id].Trashed() || !OwnedBy(s.files[id], owner) || f == RowFails then s
    else Free(s.Without({id}), s.files[id].path, f)
  }

  function PurgeAll(s: State, ids: seq<Id>, owner: string, faults: map<Id, Fault>): State {
    if ids == [] then s
    else
      var id := ids[|ids| - 1];
      Purge(PurgeAll(s, ids[..|ids| - 1], owner, faults), id, owner, FaultOf(faults, id))
  }

  function FaultOf(faults: map<Id, Fault>, id: Id): Fault {
    if id in faults then faults[id] else NoFault
  }

  predicate Expired(s: State, id: Id, cutoff: int) {
    id in s.files && s.files[id].Trashed() && s.files[id].deletedAt.value < cutoff
  }

  function FreeAll(s: State, paths: seq<Path>, faults: seq<Fault>): State
    requires |paths| == |faults|
  {
    if paths == [] then s
    else
      var n := |paths| - 1;
      Free(FreeAll(s, paths[..n], faults[..n]), paths[n], faults[n])
  }

  function PathsOf(s: State, ids: seq<Id>): (r: seq<Path>)
    requires forall k :: 0 <= k < |ids| ==> ids[k] in s.files
    ensures |r| == |ids| && forall k :: 0 <= k < |ids| ==> r[k] == s.files[ids[k]].path
  {
    seq(|ids|, k requires 0 <= k < |ids| => s.files[ids[k]].path)
  }

  /** The start-up clean-up: all expired rows go in one transaction, then their objects are freed. */
  function CleanUp(s: State, ids: seq<Id>, cutoff: int, failing: bool, faults: seq<Fault>): State {
    if failing || |faults| != |ids| || !(forall k :: 0 <= k < |ids| ==> Expired(s, ids[k], cutoff)) then s
    else FreeAll(s.Without(set id | id in ids), PathsOf(s, ids), faults)
  }

  // Editing in place.

  /** UpdateFileContent: the write, and whether hashing or updating the row fails. */
  datatype EditFaults = EditFaults(write: Write, unhashed: bool, row: bool)

  function Edit(s: State, h: Bytes -> string, id: Id, user: string, admin: bool, b: Bytes, f: EditFaults): State {
    if !MayChange(s, id, user, admin) then s
    else
      var t := AfterWrite(s, EditPlace(s.files[id].path), b, f.write);
      if f.write != Written || f.row then t
      else if f.unhashed then t.With(id, s.files[id].(size := |b|, hash := "", measured := false))
      else t.With(id, s.files[id].(size := |b|, hash := h(b), measured := true))
  }

  // What the steps keep.

  /** No record points at a missing object. */
  ghost predicate Safe(s: State) {
    forall id :: id in s.files ==> PlaceOf(s.files[id].path) in s.objects
  }

  ghost predicate Referenced(s: State, at: Place) {
    exists id :: id in s.files && PlaceOf(s.files[id].path) == at
  }

  /** Every stored object is the object of some record. */
  ghost predicate NoOrphan(s: State) {
    forall at :: at in s.objects ==> Referenced(s, at)
  }

  predicate Matches(r: Record, b: Bytes, h: Bytes -> string) {
    r.size == |b| && r.hash == h(b)
  }

  /** What the server measured is still true of the stored bytes. */
  ghost predicate Agrees(s: State, h: Bytes -> string) {
    forall id :: id in s.files && s.files[id].measured && PlaceOf(s.files[id].path) in s.objects ==>
      Matches(s.files[id], s.objects[PlaceOf(s.files[id].path)], h)
  }

  lemma ReferencesZero(s: State, p: Path)
    ensures s.References(p) == 0 <==> forall id :: id in s.files ==> s.files[id].path != p
  {
    var ids := set id | id in s.files && s.files[id].path == p;
    assert forall id :: id in ids <==> id in s.files && s.files[id].path == p;
    assert ids == {} <==> |ids| == 0;
    if forall id :: id in s.files ==> s.files[id].path != p {
      assert ids == {};
    } else {
      var id :| id in s.files && s.files[id].path == p;
      assert id in ids;
    }
  }

  /** Freeing never takes an object that a record needs, whatever fails. */
  lemma FreeKeeps(s: State, p: Path, f: Fault, h: Bytes -> string)
    ensures Safe(s) ==> Safe(Free(s, p, f))
    ensures Agrees(s, h) ==> Agrees(Free(s, p, f), h)
  {
    ReferencesZero(s, p);
  }

  /** Without faults it takes the object exactly when nothing refers to it. */
  lemma FreeIsExact(s: State, p: Path, at: Place)
    ensures at in Free(s, p, NoFault).objects <==>
            at in s.objects && (at == PlaceOf(p) ==> Referenced(s, at))
  {
    ReferencesZero(s, p);
    if at == PlaceOf(p) && Referenced(s, at) {
      var id :| id in s.files && PlaceOf(s.files[id].path) == at;
      assert s.files[id].path == p;
    }
  }

  /** A failing count or deletion leaves it where it is. */
  lemma FreeIs(s: State, p: Path, f: Fault, at: Place)
    ensures at in Free(s, p, f).objects <==>
            at in s.objects && (at == PlaceOf(p) && !LosesObject(f) ==> Referenced(s, at))
  {
    ReferencesZero(s, p);
    if at == PlaceOf(p) && Referenced(s, at) {
      var id :| id in s.files && PlaceOf(s.files[id].path) == at;
      assert s.files[id].path == p;
    }
  }

  predicate LosesObject(f: Fault) { f == CountFails || f == DeleteFails }

  /** The place is on the list, at an entry that does not fail. */
  ghost predicate Cleared(paths: seq<Path>, faults: seq<Fault>, at: Place)
    requires |paths| == |faults|
  {
    exists k :: 0 <= k < |paths| && PlaceOf(paths[k]) == at && !LosesObject(faults[k])
  }

  lemma ClearedSnoc(paths: seq<Path>, faults: seq<Fault>, at: Place)
    requires |paths| == |faults| > 0
    ensures var n := |paths| - 1;
            Cleared(paths, faults, at) <==>
            Cleared(paths[..n], faults[..n], at) || (PlaceOf(paths[n]) == at && !LosesObject(faults[n]))
  {
    var n := |paths| - 1;
    if Cleared(paths, faults, at) {
      var k :| 0 <= k < |paths| && PlaceOf(paths[k]) == at && !LosesObject(faults[k]);
      assert k < n ==> PlaceOf(paths[..n][k]) == at && !LosesObject(faults[..n][k]);
    }
    if Cleared(paths[..n], faults[..n], at) {
      var k :| 0 <= k < n && PlaceOf(paths[..n][k]) == at && !LosesObject(faults[..n][k]);
      assert PlaceOf(paths[k]) == at && !LosesObject(faults[k]);
    }
  }

  /** Several expired rows may share a path: an object goes exactly when nothing refers to it and some entry
      of the list for it does not fail. */
  lemma {:induction false} FreeAllIsExact(s: State, paths: seq<Path>, faults: seq<Fault>, at: Place)
    requires |paths| == |faults|
    ensures FreeAll(s, paths, faults).files == s.files
    ensures at in FreeAll(s, paths, faults).objects <==>
            at in s.objects && (Cleared(paths, faults, at) ==> Referenced(s, at))
  {
    hide Cleared;
    if paths == [] {
      NothingCleared(at);
    } else {
      var n := |paths| - 1;
      FreeAllIsExact(s, paths[..n], faults[..n], at);
      ClearedSnoc(paths, faults, at);
      var t := FreeAll(s, paths[..n], faults[..n]);
      FreeIs(t, paths[n], faults[n], at);
      assert Referenced(t, at) <==> Referenced(s, at);
    }
  }

  lemma NothingCleared(at: Place)
    ensures !Cleared([], [], at)
  {
  }

  /** How many of the listed paths are reported as freed: those nothing refers to, each time they are listed. */
  function Reported(s: State, paths: seq<Path>, faults: seq<Fault>): nat
    requires |paths| == |faults|
  {
    if paths == [] then 0
    else
      var n := |paths| - 1;
      Reported(s, paths[..n], faults[..n]) + if faults[n] != CountFails && s.References(paths[n]) == 0 then 1 else 0
  }

  lemma {:induction false} FreeAllFiles(s: State, paths: seq<Path>, faults: seq<Fault>)
    requires |paths| == |faults|
    ensures FreeAll(s, paths, faults).files == s.files
  {
    if paths != [] { FreeAllFiles(s, paths[..|paths| - 1], faults[..|paths| - 1]); }
  }

  lemma {:induction false} FreeAllKeeps(s: State, paths: seq<Path>, faults: seq<Fault>, h: Bytes -> string)
    requires |paths| == |faults|
    ensures Safe(s) ==> Safe(FreeAll(s, paths, faults))
    ensures Agrees(s, h) ==> Agrees(FreeAll(s, paths, faults), h)
  {
    if paths != [] {
      var n := |paths| - 1;
      FreeAllKeeps(s, paths[..n], faults[..n], h);
      FreeKeeps(FreeAll(s, paths[..n], faults[..n]), paths[n], faults[n], h);
    }
  }

  // Runs.

  datatype Event =
    | Completing(id: Id, p: Path, b: Bytes, who: Owner, f: StoreFaults)
    | Composing(id: Id, key: nat, b: Bytes, hash: string, who: Owner, failing: bool)
    | CreatingText(id: Id, file: nat, b: Bytes, who: Owner, f: StoreFaults)
    | MakingDir(id: Id, file: nat, owner: string, who: Owner, f: StoreFaults)
    | Checking(id: Id, hash: string, size: nat, src: Option<Id>, existing: Option<Id>, who: Owner, failing: bool)
    | SavingShare(items: seq<Item>, share: Share, dir: string, user: string, space: string, time: nat)
    | Deleting(id: Id, user: string, admin: bool, now: int, failing: bool)
    | BatchDeleting(ids: seq<Id>, user: string, admin: bool, now: int, failures: set<Id>)
    | DirDeleting(prefix: string, owner: string, space: string, now: int, failing: bool)
    | Restoring(id: Id, owner: string, space: string, failing: bool)
    | Purging(id: Id, owner: string, fault: Fault)
    | Emptying(ids: seq<Id>, owner: string, faults: map<Id, Fault>)
    | Cleaning(ids: seq<Id>, cutoff: int, failing: bool, frees: seq<Fault>)
    | Renaming(names: map<Id, string>)
    | Editing(id: Id, user: string, admin: bool, b: Bytes, edit: EditFaults)

  /** Renames and directory moves change nothing but names. */
  function Rename(s: State, names: map<Id, string>): State {
    State(map id | id in s.files :: if id in names then s.files[id].(name := names[id]) else s.files[id], s.objects)
  }

  function Apply(s: State, h: Bytes -> string, e: Event): State {
    match e
    case Completing(id, p, b, who, f) => Complete(s, h, id, p, b, who, f)
    case Composing(id, key, b, hash, who, failing) => Compose(s, id, key, b, hash, who, failing)
    case CreatingText(id, file, b, who, f) => CreateText(s, h, id, file, b, who, f)
    case MakingDir(id, file, owner, who, f) => Mkdir(s, id, file, owner, who, f)
    case Checking(id, hash, size, src, existing, who, failing) =>
      CheckUpload(s, id, hash, size, src, existing, who, failing)
    case SavingShare(items, share, dir, user, space, time) => SaveShare(s, items, share, dir, user, space, time)
    case Deleting(id, user, admin, now, failing) => DeleteFileById(s, id, user, admin, now, failing)
    case BatchDeleting(ids, user, admin, now, failures) => BatchDelete(s, ids, user, admin, now, failures)
    case DirDeleting(prefix, owner, space, now, failing) => DeleteDir(s, prefix, owner, space, now, failing)
    case Restoring(id, owner, space, failing) => RestoreFile(s, id, owner, space, failing)
    case Purging(id, owner, fault) => Purge(s, id, owner, fault)
    case Emptying(ids, owner, faults) => PurgeAll(s, ids, owner, faults)
    case Cleaning(ids, cutoff, failing, frees) => CleanUp(s, ids, cutoff, failing, frees)
    case Renaming(names) => Rename(s, names)
    case Editing(id, user, admin, b, edit) => Edit(s, h, id, user, admin, b, edit)
  }

  /** Drawn ids are new, and so are the places derived from them. */
  predicate DrawsFresh(s: State, e: Event) {
    match e
    case Completing(id, p, _, _, _) => id !in s.files && PlaceOf(p) !in s.objects
    case Composing(id, key, _, _, _, _) => id !in s.files && Bucket(key) !in s.objects
    case CreatingText(id, file, _, _, _) => id !in s.files && Disk(file) !in s.objects
    case MakingDir(id, file, _, _, _) => id !in s.files && Disk(file) !in s.objects
    case Checking(id, _, _, _, _, _, _) => id !in s.files
    case SavingShare(items, _, _, _, _, _) =>
      (forall k :: 0 <= k < |items| ==> items[k].id !in s.files)
      && forall j, k :: 0 <= j < k < |items| ==> items[j].id != items[k].id
    case _ => true
  }

  function Run(s: State, h: Bytes -> string, es: seq<Event>): State {
    if es == [] then s else Apply(Run(s, h, es[..|es| - 1]), h, es[|es| - 1])
  }

  predicate Fresh(s: State, h: Bytes -> string, es: seq<Event>) {
    es == [] || (Fresh(s, h, es[..|es| - 1]) && DrawsFresh(Run(s, h, es[..|es| - 1]), es[|es| - 1]))
  }

  // Steps that leave paths, measurements and objects alone.

  ghost predicate SameContent(s: State, t: State) {
    t.objects == s.objects && t.files.Keys == s.files.Keys
    && forall id :: id in s.files ==> Alike(s.files[id], t.files[id])
  }

  predicate Alike(r: Record, q: Record) {
    q.path == r.path && q.measured == r.measured && q.size == r.size && q.hash == r.hash
  }

  lemma SameContentKeeps(s: State, t: State, h: Bytes -> string)
    requires SameContent(s, t)
    ensures Safe(s) <==> Safe(t)
    ensures NoOrphan(s) ==> NoOrphan(t)
    ensures Agrees(s, h) <==> Agrees(t, h)
  {
    forall id | id in s.files ensures Alike(s.files[id], t.files[id]) {}
    if NoOrphan(s) {
      forall at | at in t.objects ensures Referenced(t, at) {
        assert Referenced(s, at);
        var id :| id in s.files && PlaceOf(s.files[id].path) == at;
        assert Alike(s.files[id], t.files[id]);
        assert id in t.files;
      }
    }
  }

  lemma {:induction false} BatchDeleteSame(s: State, ids: seq<Id>, user: string, admin: bool, now: int,
                                           failing: set<Id>)
    ensures SameContent(s, BatchDelete(s, ids, user, admin, now, failing))
  {
    if ids != [] {
      BatchDeleteSame(s, ids[..|ids| - 1], user, admin, now, failing);
    }
  }

  predicate OnlyMarks(e: Event) {
    e.Deleting? || e.BatchDeleting? || e.DirDeleting? || e.Restoring? || e.Renaming?
  }

  lemma MarksKeepContent(s: State, h: Bytes -> string, e: Event)
    requires OnlyMarks(e)
    ensures SameContent(s, Apply(s, h, e))
  {
    if e.BatchDeleting? {
      BatchDeleteSame(s, e.ids, e.user, e.admin, e.now, e.failures);
    }
  }

  lemma MarksLeakNothing(s: State, e: Event)
    requires OnlyMarks(e)
    ensures !Leaks(s, e)
  {
  }

  // New records.

  lemma SharingKeeps(s: State, id: Id, src: Id, who: Owner, h: Bytes -> string)
    requires src in s.files
    ensures Safe(s) ==> Safe(s.With(id, SharedRecord(s.files[src], who)))
    ensures Agrees(s, h) ==> Agrees(s.With(id, SharedRecord(s.files[src], who)), h)
    ensures NoOrphan(s) && id !in s.files ==> NoOrphan(s.With(id, SharedRecord(s.files[src], who)))
  {
    var t := s.With(id, SharedRecord(s.files[src], who));
    if NoOrphan(s) && id !in s.files {
      forall at | at in t.objects ensures Referenced(t, at) {
        assert Referenced(s, at);
        var j :| j in s.files && PlaceOf(s.files[j].path) == at;
        assert j in t.files && t.files[j] == s.files[j];
      }
    }
  }

  lemma SaveOneKeeps(s: State, i: Item, share: Share, dir: string, user: string, space: string, now: nat,
                     h: Bytes -> string)
    ensures var t := SaveOne(s, i.id, i.src, share, dir, user, space, now, i.failing).0;
            (Safe(s) ==> Safe(t)) && (Agrees(s, h) ==> Agrees(t, h))
            && (NoOrphan(s) && i.id !in s.files ==> NoOrphan(t))
            && t.files.Keys <= s.files.Keys + {i.id}
  {
    hide Safe, Agrees, NoOrphan;
    if i.src in s.files {
      var name := UniqueNames.UniqueName(dir + BaseName(s.files[i.src].name), NamesInUse(s, space, user), now);
      SharingKeeps(s, i.id, i.src, Owner(user, space, name), h);
    }
  }

  function IdsOf(items: seq<Item>): set<Id> { set k | 0 <= k < |items| :: items[k].id }

  lemma {:induction false} SaveShareKeeps(s: State, items: seq<Item>, share: Share, dir: string, user: string,
                                          space: string, now: nat, h: Bytes -> string)
    ensures var t := SaveShare(s, items, share, dir, user, space, now);
            (Safe(s) ==> Safe(t)) && (Agrees(s, h) ==> Agrees(t, h))
            && (NoOrphan(s) && DrawsFresh(s, SavingShare(items, share, dir, user, space, now)) ==> NoOrphan(t))
            && t.files.Keys <= s.files.Keys + IdsOf(items)
  {
    hide Safe, Agrees, NoOrphan, SaveOne;
    if items != [] {
      var n := |items| - 1;
      SaveShareKeeps(s, items[..n], share, dir, user, space, now, h);
      var t := SaveShare(s, items[..n], share, dir, user, space, now);
      SaveOneKeeps(t, items[n], share, dir, user, space, now, h);
      assert IdsOf(items[..n]) <= IdsOf(items) && items[n].id in IdsOf(items);
    }
  }

  lemma CreatingKeeps(s: State, at: Place, b: Bytes, w: Write, h: Bytes -> string)
    requires at !in s.objects
    ensures Safe(s) ==> Safe(AfterWrite(s, at, b, w)) && Safe(s.Put(at, b).Drop(at))
    ensures Safe(s) && Agrees(s, h) ==> Agrees(AfterWrite(s, at, b, w), h) && Agrees(s.Put(at, b).Drop(at), h)
    ensures s.Put(at, b).Drop(at) == s
  {
    assert s.Put(at, b).Drop(at).objects == s.objects;
  }

  lemma InsertingKeeps(s: State, b: Bytes, id: Id, r: Record, h: Bytes -> string)
    requires PlaceOf(r.path) !in s.objects && (r.measured ==> Matches(r, b, h))
    ensures Safe(s) ==> Safe(s.Put(PlaceOf(r.path), b).With(id, r))
    ensures Safe(s) && Agrees(s, h) ==> Agrees(s.Put(PlaceOf(r.path), b).With(id, r), h)
    ensures NoOrphan(s) && id !in s.files ==> NoOrphan(s.Put(PlaceOf(r.path), b).With(id, r))
  {
    var t := s.Put(PlaceOf(r.path), b).With(id, r);
    if NoOrphan(s) && id !in s.files {
      forall at | at in t.objects ensures Referenced(t, at) {
        if at == PlaceOf(r.path) {
          assert id in t.files && t.files[id] == r;
        } else {
          assert Referenced(s, at);
          var j :| j in s.files && PlaceOf(s.files[j].path) == at;
          assert j in t.files && t.files[j] == s.files[j];
        }
      }
    }
  }

  lemma OrphanMade(s: State, at: Place, b: Bytes, w: Write)
    requires Safe(s) && at !in s.objects && !w.NotOpened?
    ensures !NoOrphan(AfterWrite(s, at, b, w))
  {
    var t := AfterWrite(s, at, b, w);
    assert at in t.objects && !Referenced(t, at);
  }

  lemma CreationKeeps(s: State, h: Bytes -> string, e: Event)
    requires e.Completing? || e.Composing? || e.CreatingText? || e.MakingDir?
    requires DrawsFresh(s, e) && Safe(s)
    ensures Safe(Apply(s, h, e))
    ensures Agrees(s, h) ==> Agrees(Apply(s, h, e), h)
    ensures NoOrphan(s) ==> (NoOrphan(Apply(s, h, e)) <==> !Leaks(s, e))
  {
    hide Safe, Agrees, NoOrphan;
    match e {
      case Completing(id, p, b, who, f) =>
        CreatingKeeps(s, PlaceOf(p), b, f.write, h);
        if !f.write.NotOpened? { OrphanMade(s, PlaceOf(p), b, f.write); }
        InsertingKeeps(s, b, id, NewRecord(h, b, f, p, who), h);
      case Composing(id, key, b, hash, who, failing) =>
        CreatingKeeps(s, Bucket(key), b, Written, h);
        OrphanMade(s, Bucket(key), b, Written);
        InsertingKeeps(s, b, id, Record(who.name, |b|, hash, false, S3(key), who.user, who.space, None), h);
      case CreatingText(id, file, b, who, f) =>
        CreatingKeeps(s, Disk(file), b, f.write, h);
        if !f.write.NotOpened? { OrphanMade(s, Disk(file), b, f.write); }
        InsertingKeeps(s, b, id, NewRecord(h, b, f.(unsized := false), Local(file), who), h);
      case MakingDir(id, file, owner, who, f) =>
        CreatingKeeps(s, Disk(file), [], f.write, h);
        if !f.write.NotOpened? { OrphanMade(s, Disk(file), [], f.write); }
        InsertingKeeps(s, [], id, Record(who.name, 0, "", false, Local(file), who.user, who.space, None), h);
    }
  }

  /** The step leaves an object without a record: a torn write, a row that cannot be written, or the last reference
      to an object gone while counting or deleting fails. */
  predicate Leaks(s: State, e: Event) {
    match e
    case Completing(_, _, _, _, f) => f.write.Torn? || (f.write.Written? && f.insert)
    case Composing(_, _, _, _, _, failing) => failing
    case CreatingText(_, _, _, who, f) => !s.NameTaken(who.space, who.name, who.user) && CreationLeaks(f)
    case MakingDir(_, _, owner, who, f) => !s.NameTaken(who.space, who.name, owner) && CreationLeaks(f)
    case Purging(id, owner, fault) => PurgeLeaks(s, id, owner, fault)
    case Emptying(ids, owner, faults) => PurgeAllLeaks(s, ids, owner, faults)
    case Cleaning(ids, cutoff, failing, frees) => CleanUpLeaks(s, ids, cutoff, failing, frees)
    case Editing(id, user, admin, _, edit) =>
      MayChange(s, id, user, admin) && s.files[id].path.S3? && !edit.write.NotOpened?
    case _ => false
  }

  predicate CreationLeaks(f: StoreFaults) { f.write.Torn? || (f.write.Written? && f.insert && f.delete) }

  predicate PurgeLeaks(s: State, id: Id, owner: string, f: Fault) {
    id in s.files && s.files[id].Trashed() && OwnedBy(s.files[id], owner) && LosesObject(f)
    && s.Without({id}).References(s.files[id].path) == 0
  }

  predicate PurgeAllLeaks(s: State, ids: seq<Id>, owner: string, faults: map<Id, Fault>) {
    ids != [] &&
    var n := |ids| - 1;
    (PurgeAllLeaks(s, ids[..n], owner, faults)
     || PurgeLeaks(PurgeAll(s, ids[..n], owner, faults), ids[n], owner, FaultOf(faults, ids[n])))
  }

  /** Some listed object is no longer referred to, and every entry for it fails. */
  predicate CleanUpLeaks(s: State, ids: seq<Id>, cutoff: int, failing: bool, frees: seq<Fault>) {
    !failing && |frees| == |ids| && (forall k :: 0 <= k < |ids| ==> Expired(s, ids[k], cutoff)) &&
    var t := s.Without(set id | id in ids);
    exists k :: 0 <= k < |ids| && t.References(s.files[ids[k]].path) == 0
                && AllFail(PathsOf(s, ids), frees, s.files[ids[k]].path)
  }

  predicate AllFail(paths: seq<Path>, frees: seq<Fault>, p: Path)
    requires |paths| == |frees|
  {
    forall j :: 0 <= j < |paths| && paths[j] == p ==> LosesObject(frees[j])
  }

  // Freeing.

  lemma PurgeKeeps(s: State, id: Id, owner: string, f: Fault, h: Bytes -> string)
    ensures Safe(s) ==> Safe(Purge(s, id, owner, f))
    ensures Agrees(s, h) ==> Agrees(Purge(s, id, owner, f), h)
  {
    if Purge(s, id, owner, f) != s { FreeKeeps(s.Without({id}), s.files[id].path, f, h); }
  }

  lemma ReferencedWithout(s: State, id: Id, at: Place)
    requires id in s.files && at != PlaceOf(s.files[id].path)
    ensures Referenced(s.Without({id}), at) <==> Referenced(s, at)
  {
    var t := s.Without({id});
    if Referenced(s, at) {
      var j :| j in s.files && PlaceOf(s.files[j].path) == at;
      assert j in t.files && t.files[j] == s.files[j];
    }
  }

  /** A purge leaves an orphan exactly when it leaks, and never tidies one up. */
  lemma PurgeOrphans(s: State, id: Id, owner: string, f: Fault)
    requires Safe(s)
    ensures NoOrphan(Purge(s, id, owner, f)) <==> NoOrphan(s) && !PurgeLeaks(s, id, owner, f)
  {
    var u := Purge(s, id, owner, f);
    if id in s.files && s.files[id].Trashed() && OwnedBy(s.files[id], owner) && f != RowFails {
      var p, t := s.files[id].path, s.Without({id});
      var q := PlaceOf(p);
      assert Referenced(s, q) && q in s.objects;
      hide Purge, Free, OwnedBy;
      forall at ensures at in u.objects && !Referenced(u, at) <==>
                        if at == q then !Referenced(t, q) && LosesObject(f) else at in s.objects && !Referenced(s, at)
      {
        PurgedAt(s, id, owner, f, at);
        if at != q { ReferencedWithout(s, id, at); }
      }
      ReferencesPlace(t, p);
    }
  }

  lemma PurgedAt(s: State, id: Id, owner: string, f: Fault, at: Place)
    requires id in s.files && s.files[id].Trashed() && OwnedBy(s.files[id], owner) && f != RowFails
    ensures var t, u := s.Without({id}), Purge(s, id, owner, f);
            (Referenced(u, at) <==> Referenced(t, at))
            && (at in u.objects <==>
                at in s.objects && (at == PlaceOf(s.files[id].path) && !LosesObject(f) ==> Referenced(t, at)))
  {
    FreeIs(s.Without({id}), s.files[id].path, f, at);
    assert Purge(s, id, owner, f).files == s.Without({id}).files;
  }

  lemma ReferencesPlace(s: State, p: Path)
    ensures s.References(p) == 0 <==> !Referenced(s, PlaceOf(p))
  {
    ReferencesZero(s, p);
    if Referenced(s, PlaceOf(p)) {
      var id :| id in s.files && PlaceOf(s.files[id].path) == PlaceOf(p);
      assert s.files[id].path == p;
    }
  }

  lemma {:induction false} PurgeAllKeeps(s: State, ids: seq<Id>, owner: string, faults: map<Id, Fault>,
                                         h: Bytes -> string)
    ensures Safe(s) ==> Safe(PurgeAll(s, ids, owner, faults))
    ensures Agrees(s, h) ==> Agrees(PurgeAll(s, ids, owner, faults), h)
    ensures Safe(s) ==>
              (NoOrphan(PurgeAll(s, ids, owner, faults)) <==> NoOrphan(s) && !PurgeAllLeaks(s, ids, owner, faults))
  {
    hide Safe, Agrees, NoOrphan, Purge, PurgeLeaks;
    if ids != [] {
      var n := |ids| - 1;
      PurgeAllKeeps(s, ids[..n], owner, faults, h);
      var t := PurgeAll(s, ids[..n], owner, faults);
      PurgeKeeps(t, ids[n], owner, FaultOf(faults, ids[n]), h);
      if Safe(t) { PurgeOrphans(t, ids[n], owner, FaultOf(faults, ids[n])); }
    }
  }

  lemma CleanUpKeeps(s: State, ids: seq<Id>, cutoff: int, failing: bool, frees: seq<Fault>, h: Bytes -> string)
    ensures Safe(s) ==> Safe(CleanUp(s, ids, cutoff, failing, frees))
    ensures Agrees(s, h) ==> Agrees(CleanUp(s, ids, cutoff, failing, frees), h)
    ensures Safe(s) && NoOrphan(s) ==>
              (NoOrphan(CleanUp(s, ids, cutoff, failing, frees)) <==> !CleanUpLeaks(s, ids, cutoff, failing, frees))
  {
    if CleanUp(s, ids, cutoff, failing, frees) != s {
      FreeAllKeeps(s.Without(set id | id in ids), PathsOf(s, ids), frees, h);
    }
    if Safe(s) && NoOrphan(s) && !failing && |frees| == |ids|
       && forall k :: 0 <= k < |ids| ==> Expired(s, ids[k], cutoff)
    {
      CleanUpOrphans(s, ids, cutoff, frees);
    }
  }

  lemma CleanUpOrphans(s: State, ids: seq<Id>, cutoff: int, frees: seq<Fault>)
    requires Safe(s) && NoOrphan(s) && |frees| == |ids| && forall k :: 0 <= k < |ids| ==> Expired(s, ids[k], cutoff)
    ensures NoOrphan(CleanUp(s, ids, cutoff, false, frees)) <==> !CleanUpLeaks(s, ids, cutoff, false, frees)
  {
    var paths, t := PathsOf(s, ids), s.Without(set id | id in ids);
    var u := CleanUp(s, ids, cutoff, false, frees);
    hide CleanUp, FreeAll, AllFail, Cleared;
    assert u == FreeAll(t, paths, frees) by { CleanUpFrees(s, ids, cutoff, frees); }
    forall k | 0 <= k < |ids|
      ensures t.References(paths[k]) == 0 && AllFail(paths, frees, paths[k]) <==>
              PlaceOf(paths[k]) in u.objects && !Referenced(u, PlaceOf(paths[k]))
    {
      var at := PlaceOf(paths[k]);
      FreeAllIsExact(t, paths, frees, at);
      ReferencesPlace(t, paths[k]);
      AllFailIff(paths, frees, paths[k]);
    }
    if !NoOrphan(u) {
      var at :| at in u.objects && !Referenced(u, at);
      FreeAllIsExact(t, paths, frees, at);
      var k := OrphanIsListed(s, t, ids, at);
      assert PlaceOf(paths[k]) == at;
    }
  }

  lemma CleanUpFrees(s: State, ids: seq<Id>, cutoff: int, frees: seq<Fault>)
    requires |frees| == |ids| && forall k :: 0 <= k < |ids| ==> Expired(s, ids[k], cutoff)
    ensures CleanUp(s, ids, cutoff, false, frees) == FreeAll(s.Without(set id | id in ids), PathsOf(s, ids), frees)
  {
  }

  lemma AllFailIff(paths: seq<Path>, frees: seq<Fault>, p: Path)
    requires |paths| == |frees|
    ensures AllFail(paths, frees, p) <==> !Cleared(paths, frees, PlaceOf(p))
  {
    assert forall q :: PlaceOf(q) == PlaceOf(p) <==> q == p;
  }

  lemma OrphanIsListed(s: State, t: State, ids: seq<Id>, at: Place) returns (k: nat)
    requires NoOrphan(s) && at in s.objects && t == s.Without(set id | id in ids) && !Referenced(t, at)
    requires forall k :: 0 <= k < |ids| ==> ids[k] in s.files
    ensures k < |ids| && PlaceOf(s.files[ids[k]].path) == at
  {
    assert Referenced(s, at);
    var j :| j in s.files && PlaceOf(s.files[j].path) == at;
    assert forall i :: i in t.files ==> PlaceOf(t.files[i].path) != at;
    assert j !in t.files;
    k :| 0 <= k < |ids| && ids[k] == j;
  }

  // Editing in place.

  predicate Updates(f: EditFaults) { f.write.Written? && !f.row }

  /** Whether an edit leaves all measurements true: what now lies where it wrote fits every other record of
      that object (and the edited one, when its row kept the old measurements), and a record in the object
      store, whose object the edit does not reach, already had the new content. */
  predicate EditFits(s: State, h: Bytes -> string, id: Id, b: Bytes, f: EditFaults)
    requires id in s.files
  {
    (f.write.NotOpened? ||
     forall j :: j in s.files && s.files[j].measured && PlaceOf(s.files[j].path) == EditPlace(s.files[id].path)
                 && !(j == id && Updates(f)) ==>
       Matches(s.files[j], Content(b, f.write), h))
    && (Updates(f) && !f.unhashed && s.files[id].path.S3? && PlaceOf(s.files[id].path) in s.objects ==>
          var stored := s.objects[PlaceOf(s.files[id].path)];
          |stored| == |b| && h(stored) == h(b))
  }

  /** What the row of the edited record says afterwards. */
  function Reworded(r: Record, h: Bytes -> string, b: Bytes, f: EditFaults): Record {
    if !Updates(f) then r
    else if f.unhashed then r.(size := |b|, hash := "", measured := false)
    else r.(size := |b|, hash := h(b), measured := true)
  }

  lemma EditEffects(s: State, h: Bytes -> string, id: Id, user: string, admin: bool, b: Bytes, f: EditFaults)
    requires MayChange(s, id, user, admin)
    ensures var t := Edit(s, h, id, user, admin, b, f);
            t.files == s.files[id := Reworded(s.files[id], h, b, f)]
            && t.objects == if f.write.NotOpened? then s.objects
                            else s.objects[EditPlace(s.files[id].path) := Content(b, f.write)]
  {
    assert s.files[id := s.files[id]] == s.files;
  }

  lemma EditSafe(s: State, h: Bytes -> string, id: Id, user: string, admin: bool, b: Bytes, f: EditFaults)
    ensures Safe(s) ==> Safe(Edit(s, h, id, user, admin, b, f))
    ensures NoOrphan(s) ==>
              (NoOrphan(Edit(s, h, id, user, admin, b, f)) <==> !Leaks(s, Editing(id, user, admin, b, f)))
  {
    if MayChange(s, id, user, admin) {
      EditEffects(s, h, id, user, admin, b, f);
      var t, at := Edit(s, h, id, user, admin, b, f), EditPlace(s.files[id].path);
      hide Edit, MayChange;
      assert forall j :: j in s.files ==> t.files[j].path == s.files[j].path;
      forall q ensures Referenced(t, q) <==> Referenced(s, q) {
        if Referenced(s, q) {
          var j :| j in s.files && PlaceOf(s.files[j].path) == q;
          assert PlaceOf(t.files[j].path) == q;
        }
      }
      assert at in t.objects || f.write.NotOpened?;
      if s.files[id].path.S3? {
        assert !Referenced(t, at);
      } else {
        assert Referenced(s, at);
      }
    }
  }

  /** An edit keeps every record's size and hash true exactly when it fits, whichever of its steps fails. */
  lemma EditIff(s: State, h: Bytes -> string, id: Id, user: string, admin: bool, b: Bytes, f: EditFaults)
    requires Safe(s) && Agrees(s, h) && MayChange(s, id, user, admin)
    ensures Agrees(Edit(s, h, id, user, admin, b, f), h) <==> EditFits(s, h, id, b, f)
  {
    EditEffects(s, h, id, user, admin, b, f);
    var t, at := Edit(s, h, id, user, admin, b, f), EditPlace(s.files[id].path);
    hide Edit, MayChange;
    assert forall j :: j in s.files && j != id ==> t.files[j] == s.files[j];
    if EditFits(s, h, id, b, f) {
      forall j | j in t.files && t.files[j].measured && PlaceOf(t.files[j].path) in t.objects
        ensures Matches(t.files[j], t.objects[PlaceOf(t.files[j].path)], h)
      {
        var q := PlaceOf(s.files[j].path);
        assert PlaceOf(t.files[j].path) == q;
        if q == at && !f.write.NotOpened? {
          assert t.objects[q] == Content(b, f.write);
        } else {
          assert t.objects[q] == s.objects[q];
        }
      }
    }
    if Agrees(t, h) && Updates(f) && s.files[id].path.S3? {
      assert PlaceOf(t.files[id].path) in t.objects;
    }
    if Agrees(t, h) && !f.write.NotOpened? {
      forall j | j in s.files && s.files[j].measured && PlaceOf(s.files[j].path) == at && !(j == id && Updates(f))
        ensures Matches(s.files[j], Content(b, f.write), h)
      {
        assert t.files[j] == s.files[j];
      }
    }
  }

  /** Without faults, for a local file: exactly when every other measured record of the file fits the new bytes. */
  lemma CleanEditIff(s: State, h: Bytes -> string, id: Id, user: string, admin: bool, b: Bytes)
    requires Safe(s) && Agrees(s, h) && MayChange(s, id, user, admin) && s.files[id].path.Local?
    ensures Agrees(Edit(s, h, id, user, admin, b, EditFaults(Written, false, false)), h) <==>
            forall j :: j in s.files && j != id && s.files[j].measured && s.files[j].path == s.files[id].path ==>
              Matches(s.files[j], b, h)
  {
    EditIff(s, h, id, user, admin, b, EditFaults(Written, false, false));
    assert forall p, q :: PlaceOf(p) == PlaceOf(q) <==> p == q;
  }

  // Every step.

  /** Whatever fails, no step leaves a record without its object. */
  lemma StepIsSafe(s: State, h: Bytes -> string, e: Event)
    requires Safe(s) && DrawsFresh(s, e)
    ensures Safe(Apply(s, h, e))
  {
    StepKeeps(s, h, e);
  }

  lemma StepKeeps(s: State, h: Bytes -> string, e: Event)
    requires Safe(s) && DrawsFresh(s, e)
    ensures Safe(Apply(s, h, e))
    ensures NoOrphan(s) ==> (NoOrphan(Apply(s, h, e)) <==> !Leaks(s, e))
    ensures Agrees(s, h) && !e.Editing? ==> Agrees(Apply(s, h, e), h)
  {
    hide Safe, NoOrphan, Agrees, SameContent, DrawsFresh, Leaks;
    if OnlyMarks(e) {
      MarksLeakNothing(s, e);
      MarksKeepContent(s, h, e);
      SameContentKeeps(s, Apply(s, h, e), h);
    } else if e.Completing? || e.Composing? || e.CreatingText? || e.MakingDir? {
      CreationKeeps(s, h, e);
    } else {
      SharingAndFreeingKeep(s, h, e);
    }
  }

  lemma SharingAndFreeingKeep(s: State, h: Bytes -> string, e: Event)
    requires Safe(s) && DrawsFresh(s, e)
    requires e.Checking? || e.SavingShare? || e.Purging? || e.Emptying? || e.Cleaning? || e.Editing?
    ensures Safe(Apply(s, h, e))
    ensures NoOrphan(s) ==> (NoOrphan(Apply(s, h, e)) <==> !Leaks(s, e))
    ensures Agrees(s, h) && !e.Editing? ==> Agrees(Apply(s, h, e), h)
  {
    hide Safe, NoOrphan, Agrees, Purge, PurgeAll, CleanUp, Edit, SaveShare, PurgeLeaks, PurgeAllLeaks, CleanUpLeaks;
    match e
    case Checking(id, hash, size, src, existing, who, failing) =>
      if src.Some? && src.value in s.files {
        SharingKeeps(s, id, src.value, who, h);
      }
    case SavingShare(items, share, dir, user, space, time) =>
      SaveShareKeeps(s, items, share, dir, user, space, time, h);
    case Purging(id, owner, fault) =>
      PurgeKeeps(s, id, owner, fault, h);
      PurgeOrphans(s, id, owner, fault);
    case Emptying(ids, owner, faults) => PurgeAllKeeps(s, ids, owner, faults, h);
    case Cleaning(ids, cutoff, failing, frees) => CleanUpKeeps(s, ids, cutoff, failing, frees, h);
    case Editing(id, user, admin, b, edit) => EditSafe(s, h, id, user, admin, b, edit);
  }

  /** Every step, whatever fails, keeps all measurements true exactly when it is not an edit that does not fit. */
  predicate Fits(s: State, h: Bytes -> string, e: Event) {
    e.Editing? && MayChange(s, e.id, e.user, e.admin) ==> EditFits(s, h, e.id, e.b, e.edit)
  }

  lemma StepAgreesIff(s: State, h: Bytes -> string, e: Event)
    requires Safe(s) && Agrees(s, h) && DrawsFresh(s, e)
    ensures Agrees(Apply(s, h, e), h) <==> Fits(s, h, e)
  {
    StepKeeps(s, h, e);
    if e.Editing? && MayChange(s, e.id, e.user, e.admin) {
      EditIff(s, h, e.id, e.user, e.admin, e.b, e.edit);
    }
  }

  // Written runs.

  lemma {:induction false} RunKeepsSafe(s: State, h: Bytes -> string, es: seq<Event>)
    requires Safe(s) && Fresh(s, h, es)
    ensures Safe(Run(s, h, es))
  {
    hide Apply, DrawsFresh, Safe;
    if es != [] {
      var before := es[..|es| - 1];
      RunKeepsSafe(s, h, before);
      StepIsSafe(Run(s, h, before), h, es[|es| - 1]);
    }
  }

  /** In every reachable state every live or trashed record has its object, even when counting,
      deleting, inserting or writing fails. */
  lemma RunsAreSafe(h: Bytes -> string, es: seq<Event>)
    requires Fresh(EMPTY, h, es)
    ensures Safe(Run(EMPTY, h, es))
  {
    RunKeepsSafe(EMPTY, h, es);
  }

  predicate NothingLeaks(s: State, h: Bytes -> string, es: seq<Event>) {
    forall k :: 0 <= k < |es| ==> !Leaks(Run(s, h, es[..k]), es[k])
  }

  lemma {:induction false} RunKeepsNoOrphan(s: State, h: Bytes -> string, es: seq<Event>)
    requires Safe(s) && NoOrphan(s) && Fresh(s, h, es) && NothingLeaks(s, h, es)
    ensures NoOrphan(Run(s, h, es))
  {
    hide Apply, DrawsFresh, Leaks, Safe, NoOrphan;
    if es != [] {
      var n := |es| - 1;
      assert NothingLeaks(s, h, es[..n]) by {
        forall k | 0 <= k < n ensures !Leaks(Run(s, h, es[..n][..k]), es[..n][k]) {
          assert es[..n][..k] == es[..k];
        }
      }
      RunKeepsNoOrphan(s, h, es[..n]);
      RunKeepsSafe(s, h, es[..n]);
      StepKeeps(Run(s, h, es[..n]), h, es[n]);
    }
  }

  /** Over a whole run every stored object always has a record exactly when no step leaks. */
  lemma RunsLeaveNoOrphan(h: Bytes -> string, es: seq<Event>)
    requires Fresh(EMPTY, h, es)
    ensures (forall k :: 0 <= k <= |es| ==> NoOrphan(Run(EMPTY, h, es[..k]))) <==> NothingLeaks(EMPTY, h, es)
  {
    hide Apply, DrawsFresh, Leaks, Safe, NoOrphan;
    forall k | 0 <= k <= |es|
      ensures Fresh(EMPTY, h, es[..k]) && (NothingLeaks(EMPTY, h, es) ==> NothingLeaks(EMPTY, h, es[..k]))
    {
      FreshBefore(EMPTY, h, es, k);
      forall i | 0 <= i < k ensures es[..k][..i] == es[..i] {}
    }
    EmptyHolds();
    if NothingLeaks(EMPTY, h, es) {
      forall k | 0 <= k <= |es| ensures NoOrphan(Run(EMPTY, h, es[..k])) { RunKeepsNoOrphan(EMPTY, h, es[..k]); }
    } else {
      var k :| 0 <= k < |es| && Leaks(Run(EMPTY, h, es[..k]), es[k]);
      if NoOrphan(Run(EMPTY, h, es[..k])) {
        LeakShows(h, es, k);
        assert !NoOrphan(Run(EMPTY, h, es[..k + 1]));
      }
    }
  }

  lemma EmptyHolds()
    ensures Safe(EMPTY) && NoOrphan(EMPTY)
  {
  }

  lemma {:induction false} FreshBefore(s: State, h: Bytes -> string, es: seq<Event>, k: nat)
    requires Fresh(s, h, es) && k <= |es|
    ensures Fresh(s, h, es[..k])
    ensures k < |es| ==> DrawsFresh(Run(s, h, es[..k]), es[k])
    decreases |es|
  {
    hide Apply, DrawsFresh;
    if k == |es| {
      assert es[..k] == es;
    } else {
      var n := |es| - 1;
      assert es[..n][..k] == es[..k];
      FreshBefore(s, h, es[..n], k);
    }
  }

  predicate AllDrawFresh(s: State, h: Bytes -> string, es: seq<Event>) {
    forall k :: 0 <= k < |es| ==> DrawsFresh(Run(s, h, es[..k]), es[k])
  }

  lemma {:induction false} FreshIs(s: State, h: Bytes -> string, es: seq<Event>)
    ensures Fresh(s, h, es) <==> AllDrawFresh(s, h, es)
  {
    hide Run, DrawsFresh;
    if Fresh(s, h, es) {
      forall k | 0 <= k < |es| ensures DrawsFresh(Run(s, h, es[..k]), es[k]) { FreshBefore(s, h, es, k); }
    }
    if AllDrawFresh(s, h, es) && es != [] {
      var n := |es| - 1;
      forall k | 0 <= k < n ensures DrawsFresh(Run(s, h, es[..n][..k]), es[..n][k]) {
        assert es[..n][..k] == es[..k];
      }
      FreshIs(s, h, es[..n]);
    }
  }

  lemma LeakShows(h: Bytes -> string, es: seq<Event>, k: nat)
    requires Fresh(EMPTY, h, es) && k < |es| && Leaks(Run(EMPTY, h, es[..k]), es[k]) && NoOrphan(Run(EMPTY, h, es[..k]))
    ensures !NoOrphan(Run(EMPTY, h, es[..k + 1]))
  {
    hide Apply, DrawsFresh, Leaks, Safe, NoOrphan;
    FreshBefore(EMPTY, h, es, k);
    RunsAreSafe(h, es[..k]);
    StepKeeps(Run(EMPTY, h, es[..k]), h, es[k]);
    assert es[..k + 1][..k] == es[..k];
  }

  predicate EditsFit(h: Bytes -> string, es: seq<Event>) {
    forall k :: 0 <= k < |es| ==> Fits(Run(EMPTY, h, es[..k]), h, es[k])
  }

  /** As long as every edit fits, size and hash of every measured record are those of its object. */
  lemma {:induction false} RunsAgree(h: Bytes -> string, es: seq<Event>)
    requires Fresh(EMPTY, h, es) && EditsFit(h, es)
    ensures Agrees(Run(EMPTY, h, es), h)
  {
    hide Apply, DrawsFresh, Fits, Safe;
    if es != [] {
      var n := |es| - 1;
      assert EditsFit(h, es[..n]) by {
        forall k | 0 <= k < n ensures Fits(Run(EMPTY, h, es[..n][..k]), h, es[..n][k]) {
          assert es[..n][..k] == es[..k];
        }
      }
      RunsAgree(h, es[..n]);
      RunsAreSafe(h, es[..n]);
      assert es[..n] == es[..|es| - 1];
      StepAgreesIff(Run(EMPTY, h, es[..n]), h, es[n]);
    }
  }

  /** What an instant upload gives its caller: a record whose object is there, and has the hash and size asked for
      exactly when what the source's record says of it is true; so always when the server measured the source. */
  lemma InstantUploadDelivers(s: State, h: Bytes -> string, id: Id, hash: string, size: nat, src: Id,
                              existing: Option<Id>, who: Owner)
    requires existing.None? || existing == Some(src)
    requires Safe(s) && id !in s.files && IsSource(s, src, hash, size)
    ensures var t := CheckUpload(s, id, hash, size, Some(src), existing, who, false);
            id in t.files && PlaceOf(t.files[id].path) in t.objects &&
            var b := t.objects[PlaceOf(t.files[id].path)];
            (h(b) == hash && |b| == size <==> Matches(s.files[src], b, h))
            && (Agrees(s, h) && s.files[src].measured ==> h(b) == hash && |b| == size)
  {
    var q := PlaceOf(s.files[src].path);
    assert q in s.objects;
    if Agrees(s, h) && s.files[src].measured { assert Matches(s.files[src], s.objects[q], h); }
  }

  // Whose records a step may change.

  /** The step is one of the owner, of an administrator (no owner given), or the clean-up's or a rename. */
  predicate MayTouch(e: Event, owner: string) {
    match e
    case Deleting(_, user, admin, _, _) => admin || user == owner
    case BatchDeleting(_, user, admin, _, _) => admin || user == owner
    case DirDeleting(_, actor, _, _, _) => actor == "" || actor == owner
    case Restoring(_, actor, _, _) => actor == "" || actor == owner
    case Purging(_, actor, _) => actor == "" || actor == owner
    case Emptying(_, actor, _) => actor == "" || actor == owner
    case Editing(_, user, admin, _, _) => admin || user == owner
    case Cleaning(_, _, _, _) => true
    case Renaming(_) => true
    case _ => false
  }

  predicate Unchanged(s: State, t: State, id: Id) {
    id in s.files && id in t.files && t.files[id] == s.files[id]
  }

  lemma {:induction false} BatchDeleteOthers(s: State, ids: seq<Id>, user: string, admin: bool, now: int,
                                             failures: set<Id>, id: Id)
    requires id in s.files && !admin && user != s.files[id].owner
    ensures Unchanged(s, BatchDelete(s, ids, user, admin, now, failures), id)
  {
    if ids != [] { BatchDeleteOthers(s, ids[..|ids| - 1], user, admin, now, failures, id); }
  }

  lemma {:induction false} PurgeAllOthers(s: State, ids: seq<Id>, owner: string, faults: map<Id, Fault>, id: Id)
    requires id in s.files && owner != "" && owner != s.files[id].owner
    ensures Unchanged(s, PurgeAll(s, ids, owner, faults), id)
  {
    if ids != [] { PurgeAllOthers(s, ids[..|ids| - 1], owner, faults, id); }
  }

  lemma {:induction false} SaveShareOthers(s: State, items: seq<Item>, share: Share, dir: string, user: string,
                                           space: string, now: nat, id: Id)
    requires id in s.files && forall k :: 0 <= k < |items| ==> items[k].id != id
    ensures Unchanged(s, SaveShare(s, items, share, dir, user, space, now), id)
  {
    hide UniqueNames.UniqueName, IsFileInShare, BaseName;
    if items != [] { SaveShareOthers(s, items[..|items| - 1], share, dir, user, space, now, id); }
  }

  /** Nobody but its owner, an administrator, a rename or the clean-up changes or removes a record, whatever fails. */
  lemma OthersRecordsUntouched(s: State, h: Bytes -> string, e: Event, id: Id)
    requires id in s.files && DrawsFresh(s, e) && !MayTouch(e, s.files[id].owner)
    ensures Unchanged(s, Apply(s, h, e), id)
  {
    hide BatchDelete, PurgeAll, SaveShare;
    match e
    case BatchDeleting(ids, user, admin, now, failures) => BatchDeleteOthers(s, ids, user, admin, now, failures, id);
    case Emptying(ids, owner, faults) => PurgeAllOthers(s, ids, owner, faults, id);
    case SavingShare(items, share, dir, user, space, time) =>
      SaveShareOthers(s, items, share, dir, user, space, time, id);
    case _ =>
  }

  /** Another live file of the caller has this file's name in its space. */
  predicate Rival(s: State, id: Id, user: string, j: Id)
    requires id in s.files
  {
    j in s.files && j != id && !s.files[j].Trashed() && s.files[j].name == s.files[id].name
    && InSpace(s.files[j], s.files[id].space) && OwnedBy(s.files[j], user)
  }

  lemma TrashedVisible(r: Record, user: string, now: int)
    requires r.owner == user
    ensures InSpace(r.(deletedAt := Some(now)), r.space) && OwnedBy(r.(deletedAt := Some(now)), user)
  {
  }

  /** Restoring undoes a deletion exactly when no other file has taken the name. */
  lemma RestoreUndoesDelete(s: State, id: Id, user: string, now: int)
    requires MayChange(s, id, user, false)
    ensures RestoreFile(DeleteFileById(s, id, user, false, now, false), id, user, s.files[id].space, false) == s
            <==> forall j :: !Rival(s, id, user, j)
  {
    var t, r := DeleteFileById(s, id, user, false, now, false), s.files[id];
    hide InSpace, OwnedBy;
    TrashedVisible(r, user, now);
    assert t.files == s.files[id := r.(deletedAt := Some(now))];
    assert t.NameTaken(r.space, r.name, user) <==> exists j :: Rival(s, id, user, j) by {
      if j :| Rival(s, id, user, j) { assert j in t.files && t.files[j] == s.files[j]; }
      if t.NameTaken(r.space, r.name, user) {
        var j :| j in t.files && !t.files[j].Trashed() && t.files[j].name == r.name
                 && InSpace(t.files[j], r.space) && OwnedBy(t.files[j], user);
        assert Rival(s, id, user, j);
      }
    }
    var u := t.With(id, r);
    assert u.files == s.files;
  }

  // Names of saved files.

  predicate LiveIn(s: State, id: Id, space: string, owner: string) {
    id in s.files && !s.files[id].Trashed() && InSpace(s.files[id], space) && OwnedBy(s.files[id], owner)
  }

  ghost predicate NamesUnique(s: State, space: string, owner: string) {
    forall i, j :: LiveIn(s, i, space, owner) && LiveIn(s, j, space, owner) && s.files[i].name == s.files[j].name ==>
      i == j
  }

  lemma InsertName(s: State, id: Id, r: Record, space: string, owner: string)
    requires NamesUnique(s, space, owner) && id !in s.files && r.name !in NamesInUse(s, space, owner)
    requires !r.Trashed() && InSpace(r, space) && OwnedBy(r, owner)
    ensures NamesUnique(s.With(id, r), space, owner)
    ensures NamesInUse(s.With(id, r), space, owner) == NamesInUse(s, space, owner) + {r.name}
  {
    var t := s.With(id, r);
    hide InSpace, OwnedBy;
    assert LiveIn(t, id, space, owner) && t.files[id].name == r.name;
    assert forall j :: j != id ==> (LiveIn(s, j, space, owner) <==> LiveIn(t, j, space, owner));
    assert forall j :: LiveIn(s, j, space, owner) ==> s.files[j].name in NamesInUse(s, space, owner);
    forall n | n in NamesInUse(s, space, owner) ensures n in NamesInUse(t, space, owner) {
      var j :| LiveIn(s, j, space, owner) && s.files[j].name == n;
      assert LiveIn(t, j, space, owner) && t.files[j].name == n;
    }
  }

  lemma SaveOneNames(s: State, i: Item, share: Share, dir: string, user: string, space: string, now: nat)
    requires NamesUnique(s, space, user) && |NamesInUse(s, space, user)| < UniqueNames.ATTEMPTS && i.id !in s.files
    ensures var t := SaveOne(s, i.id, i.src, share, dir, user, space, now, i.failing).0;
            NamesUnique(t, space, user) && |NamesInUse(t, space, user)| <= |NamesInUse(s, space, user)| + 1
  {
    hide NamesUnique, NamesInUse, UniqueNames.UniqueName;
    var (t, saved) := SaveOne(s, i.id, i.src, share, dir, user, space, now, i.failing);
    if saved.Some? {
      UniqueNames.UniqueNameIsFree(dir + BaseName(s.files[i.src].name), NamesInUse(s, space, user), now);
      InsertName(s, i.id, SharedRecord(s.files[i.src], Owner(user, space, saved.value)), space, user);
    }
  }

  /** While fewer names are in use than are tried, saving a share never gives two live files one name. */
  lemma {:induction false} SavedNamesUnique(s: State, items: seq<Item>, share: Share, dir: string, user: string,
                                            space: string, now: nat)
    requires NamesUnique(s, space, user) && DrawsFresh(s, SavingShare(items, share, dir, user, space, now))
    requires |NamesInUse(s, space, user)| + |items| <= UniqueNames.ATTEMPTS
    ensures var t := SaveShare(s, items, share, dir, user, space, now);
            NamesUnique(t, space, user) && |NamesInUse(t, space, user)| <= |NamesInUse(s, space, user)| + |items|
            && t.files.Keys <= s.files.Keys + IdsOf(items)
  {
    hide NamesUnique, NamesInUse, SaveOne;
    if items != [] {
      var n := |items| - 1;
      SavedNamesUnique(s, items[..n], share, dir, user, space, now);
      var t := SaveShare(s, items[..n], share, dir, user, space, now);
      assert items[n].id !in IdsOf(items[..n]);
      SaveOneNames(t, items[n], share, dir, user, space, now);
      SaveOneKeeps(t, items[n], share, dir, user, space, now, (b: Bytes) => "");
      assert IdsOf(items[..n]) <= IdsOf(items) && items[n].id in IdsOf(items);
    }
  }

  // What the steps do not promise.

  /** A record inserted late is safe exactly when its object is still there. Where no object is without a
      record, that is when some row still has the path, which can be counted before inserting. */
  lemma LateInsertIff(s: State, id: Id, r: Record)
    requires Safe(s) && id !in s.files
    ensures Safe(s.With(id, r)) <==> PlaceOf(r.path) in s.objects
    ensures s.References(r.path) > 0 ==> Safe(s.With(id, r))
    ensures NoOrphan(s) ==> (Safe(s.With(id, r)) <==> s.References(r.path) > 0)
  {
    var t := s.With(id, r);
    assert id in t.files && t.files[id] == r;
    ReferencesZero(s, r.path);
    if NoOrphan(s) && PlaceOf(r.path) in s.objects {
      assert Referenced(s, PlaceOf(r.path));
      var j :| j in s.files && PlaceOf(s.files[j].path) == PlaceOf(r.path);
      assert s.files[j].path == r.path;
    }
  }

  /** Whatever happens between the query for the source and the insert, that count decides. */
  lemma LateInsertAfterRun(s: State, h: Bytes -> string, es: seq<Event>, src: Id, id: Id, who: Owner)
    requires Safe(s) && NoOrphan(s) && Fresh(s, h, es) && src in s.files && id !in Run(s, h, es).files
    ensures var u, r := Run(s, h, es), SharedRecord(s.files[src], who);
            (u.References(r.path) > 0 ==> Safe(u.With(id, r)))
            && (NothingLeaks(s, h, es) ==> (Safe(u.With(id, r)) <==> u.References(r.path) > 0))
  {
    hide Safe, NoOrphan, Fresh, NothingLeaks;
    RunKeepsSafe(s, h, es);
    if NothingLeaks(s, h, es) { RunKeepsNoOrphan(s, h, es); }
    LateInsertIff(Run(s, h, es), id, SharedRecord(s.files[src], who));
  }

  const ALICE := Owner("alice", "space", "a")
  const BOB := Owner("bob", "space", "b")
  const WELL := StoreFaults(Written, false, false, false, false)

  lemma RunTwo(s: State, h: Bytes -> string, e: Event, f: Event)
    ensures Run(s, h, [e]) == Apply(s, h, e)
    ensures Run(s, h, [e, f]) == Apply(Apply(s, h, e), h, f)
  {
    hide Apply;
    assert [e, f][..1] == [e] && [e][..0] == [];
    assert Run(s, h, [e]) == Apply(Run(s, h, [e][..0]), h, e);
  }

  /** So it does happen: the source found by a check is trashed and purged before the check inserts. */
  lemma OverlappingCheckAndPurge(h: Bytes -> string)
    ensures var s := Run(EMPTY, h, [Completing(0, Local(0), [1], ALICE, WELL)]);
            var t := Run(s, h, [Deleting(0, "alice", false, 10, false), Purging(0, "alice", NoFault)]);
            IsSource(s, 0, h([1]), 1) && Safe(t) && !Safe(t.With(1, SharedRecord(s.files[0], BOB)))
  {
    var e := Completing(0, Local(0), [1], ALICE, WELL);
    var d, p := Deleting(0, "alice", false, 10, false), Purging(0, "alice", NoFault);
    RunTwo(EMPTY, h, e, d);
    var s := Run(EMPTY, h, [e]);
    RunTwo(s, h, d, p);
    var t, trashed := Run(s, h, [d, p]), Apply(s, h, d);
    assert s.files.Keys == {0} && s.files[0].owner == "alice" && !s.files[0].Trashed();
    assert MayChange(s, 0, "alice", false);
    assert trashed == Trash(s, {0}, 10);
    assert trashed.files.Keys == {0} && trashed.files[0] == s.files[0].(deletedAt := Some(10));
    assert trashed.Without({0}).files == map[];
    ReferencesZero(trashed.Without({0}), Local(0));
    assert t.files == map[] && Disk(0) !in t.objects;
    LateInsertIff(t, 1, SharedRecord(s.files[0], BOB));
  }

  /** A direct upload is hashed by its client. When that hash is wrong, an instant upload for it is served the
      other bytes. */
  lemma ForeignHash(h: Bytes -> string)
    requires h([1]) != h([2])
    ensures var s := Run(EMPTY, h, [Composing(0, 0, [1], h([2]), ALICE, false),
                                    Checking(1, h([2]), 1, Some(0), None, BOB, false)]);
            Safe(s) && 1 in s.files && s.files[1].hash == h([2]) && h(s.objects[PlaceOf(s.files[1].path)]) != h([2])
  {
    var e, c := Composing(0, 0, [1], h([2]), ALICE, false), Checking(1, h([2]), 1, Some(0), None, BOB, false);
    RunTwo(EMPTY, h, e, c);
    var s := Run(EMPTY, h, [e, c]);
    assert s.files[1] == SharedRecord(Apply(EMPTY, h, e).files[0], BOB);
    assert s.objects[Bucket(0)] == [1];
  }

  /** Editing a shared file falsifies the other records: Bob's instant upload then has Alice's new bytes. */
  lemma EditOfSharedFile(h: Bytes -> string)
    ensures var s := Run(EMPTY, h, [Completing(0, Local(0), [1], ALICE, WELL),
                                    Checking(1, h([1]), 1, Some(0), None, BOB, false)]);
            Safe(s) && Agrees(s, h) && MayChange(s, 0, "alice", false)
            && !Agrees(Edit(s, h, 0, "alice", false, [2, 2], EditFaults(Written, false, false)), h)
  {
    var e, c := Completing(0, Local(0), [1], ALICE, WELL), Checking(1, h([1]), 1, Some(0), None, BOB, false);
    RunTwo(EMPTY, h, e, c);
    var s := Run(EMPTY, h, [e, c]);
    assert s.files[1] == SharedRecord(s.files[0], BOB);
    CleanEditIff(s, h, 0, "alice", false, [2, 2]);
  }
}
