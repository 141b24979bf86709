/** The upload handlers over the session table and the chunk files, one request at a time,
    each tied to the steps of UploadProtocol that it takes. */
module UploadServer {
  import opened Basics
  import opened Slices
  import opened UploadProtocol
  import opened Paths
  import UploadPool

  datatype InitAnswer = BadRequest | QuotaExceeded | Conflict | Failed | Ready(sid: Sid)
  datatype ChunkAnswer = SessionNotFound | NotActive | SaveFailed | Received
  datatype CompleteAnswer = NoSession | NotAllReceived | AssemblyFailed | Complete

  class UploadHandler {
    var sessions: map<Sid, Session>
    var files: map<Fid, Completed>

    function View(): Server reads this { Server(sessions, files) }

    constructor ()
      ensures View() == EMPTY.server
    {
      sessions, files := map[], map[];
    }

    /** FindActiveSessionByHash: one of the sessions that match, if there is any. */
    method FindActiveSession(r: Request) returns (found: Option<Sid>)
      ensures found.Some? ==> Resumable(View(), found.value, r)
      ensures found.None? ==> forall sid :: sid in sessions ==> !Resumable(View(), sid, r)
    {
      if r.fingerprint == "" { return None; }
      if sid :| sid in sessions && Resumable(View(), sid, r) {
        return Some(sid);
      }
      return None;
    }

    /** `taken` is the answer of FindFileByName; `force` that the request says to overwrite or to rename. */
    method InitUpload(r: Request, overQuota: bool, taken: bool, force: bool, id: Sid, failing: bool)
      returns (a: InitAnswer, found: Option<Sid>)
      modifies this`sessions
      ensures found.Some? ==> Resumable(old(View()), found.value, r)
      ensures a.Ready? || a.Failed? ==>
                found.Some? || forall j :: j in old(sessions) ==> !Resumable(old(View()), j, r)
      ensures (View(), if a.Ready? then Some(a.sid) else None)
              == Init(old(View()), r, overQuota || (taken && !force), id, found, failing)
      ensures a.Ready? && a.sid in old(sessions) ==>
                View() == old(View()) && r.fingerprint != "" && sessions[a.sid].active
                && sessions[a.sid].space == r.space && sessions[a.sid].name == r.name
                && sessions[a.sid].fingerprint == r.fingerprint
      ensures a.Ready? && a.sid !in old(sessions) ==>
                a.sid == id && sessions[id].space == r.space && sessions[id].name == r.name
                && sessions[id].size == r.size && sessions[id].fingerprint == r.fingerprint
                && sessions[id].recorded == {}
      ensures a.QuotaExceeded? <==>
                InInt64(r.size) && InInt64(r.chunkSize) && r.name != "" && r.size > 0 && overQuota
      ensures a.BadRequest? <==> !Acceptable(r) && !a.QuotaExceeded?
      ensures a.Conflict? <==> Acceptable(r) && !overQuota && taken && !force
    {
      found := None;
      if !InInt64(r.size) || !InInt64(r.chunkSize) { return BadRequest, found; }
      if r.name == "" || r.size <= 0 { return BadRequest, found; }
      if overQuota { return QuotaExceeded, found; }
      var valid := ValidateFilePath(r.name);
      if !valid { return BadRequest, found; }
      var chunkSize := r.chunkSize;
      if chunkSize <= 0 { chunkSize := 512 * 1024; }
      var totalChunks := GoDiv(Wrap64(r.size + chunkSize - 1), chunkSize);
      if taken && !force { return Conflict, found; }
      found := FindActiveSession(r);
      if found.Some? { return Ready(found.value), found; }
      if failing || id in sessions { return Failed, found; }
      sessions := sessions[id := Session(r.space, r.name, r.fingerprint, r.size, chunkSize, totalChunks,
                                         true, {}, map[])];
      return Ready(id), found;
    }

    method UploadChunk(sid: Sid, i: nat, data: Bytes, how: Write, rowFails: bool) returns (r: ChunkAnswer)
      modifies this`sessions
      ensures var s := SaveChunk(old(View()), sid, i, data, how, false);
              View() == if r.Received? then RecordChunk(s, sid, i, rowFails) else s
      ensures r.Received? <==> Admits(old(View()), sid, false) && how.Written?
    {
      if sid !in sessions { return SessionNotFound; }
      if !sessions[sid].active { return NotActive; }
      if how.NotOpened? { return SaveFailed; }
      sessions := sessions[sid := sessions[sid].(stored := sessions[sid].stored[i := Content(data, how)])];
      if how.Torn? { return SaveFailed; }
      if !rowFails {
        sessions := sessions[sid := sessions[sid].(recorded := sessions[sid].recorded + {i})];
      }
      return Received;
    }

    /** GetUploadStatus: the missing chunks are those that the browser's pool will upload. */
    method GetUploadStatus(sid: Sid) returns (found: bool, received: set<nat>, missing: seq<nat>)
      ensures found <==> sid in sessions
      ensures found ==> received == sessions[sid].recorded
                        && missing == UploadPool.MissingOf(Chunks(sessions[sid]), received)
                        && (missing == [] <==> Indices(Chunks(sessions[sid])) <= received)
    {
      if sid !in sessions { return false, {}, []; }
      received, missing := sessions[sid].recorded, [];
      var total, i := sessions[sid].total, 0;
      while i < total
        invariant i <= Chunks(sessions[sid]) && missing == UploadPool.MissingOf(i, received)
      {
        if i !in received { missing := missing + [i]; }
        i := i + 1;
      }
      UploadPool.NothingMissing(i, received);
      return true, received, missing;
    }

    /** AssembleFile: the chunk files one after another; None when one is missing. */
    method AssembleFile(sid: Sid, failing: bool) returns (content: Option<Bytes>)
      requires sid in sessions
      ensures content.Some? <==> !failing && AllStored(sessions[sid])
      ensures content.Some? ==> content.value == Glue(Stored(sessions[sid]), Chunks(sessions[sid]))
    {
      if failing { return None; }
      var s := sessions[sid];
      var dst: Bytes := [];
      var i := 0;
      while i < s.total
        invariant i <= Chunks(s) && dst == Glue(Stored(s), i)
        invariant forall k: nat :: k < i ==> k in s.stored
      {
        if i !in s.stored { return None; }
        dst := dst + s.stored[i];
        i := i + 1;
      }
      return Some(dst);
    }

    /** CompleteUpload: the gate, the assembly, then the status and the chunk files, whose errors are ignored. */
    method CompleteUpload(sid: Sid, fid: Fid, assemblyFails: bool, markFails: bool, gone: set<nat>)
      returns (r: CompleteAnswer)
      requires fid !in files
      modifies this
      ensures r.Complete? <==> Gate(old(View()), sid) && !assemblyFails && AllStored(old(sessions)[sid])
      ensures View() == if r.Complete?
                        then Clear(Mark(Assemble(old(View()), sid, fid, false), sid, markFails), sid, gone)
                        else old(View())
    {
      if sid !in sessions { return NoSession; }
      if |sessions[sid].recorded| != sessions[sid].total { return NotAllReceived; }
      var content := AssembleFile(sid, assemblyFails);
      if content.None? { return AssemblyFailed; }
      files := files[fid := Completed(sid, content.value)];
      if !markFails { sessions := sessions[sid := sessions[sid].(active := false)]; }
      sessions := sessions[sid := sessions[sid].(stored := sessions[sid].stored - gone)];
      return Complete;
    }
  }
}
