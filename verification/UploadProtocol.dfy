/** Resumable chunked upload over the relay path: browsers, concurrent handlers and the server's two stores. */
module UploadProtocol {
  import opened Basics
  import opened Slices
  import opened Paths

  type Sid = nat
  type Cid = nat
  type Fid = nat

  datatype Request = Request(space: string, name: string, fingerprint: string, size: int, chunkSize: int)

  /** A row of upload_sessions with its rows of chunks, and the session's directory of chunk files. */
  datatype Session = Session(
    space: string, name: string, fingerprint: string, size: nat, chunkSize: nat, total: int, active: bool,
    recorded: set<nat>, stored: map<nat, Bytes>)

  /** As many chunk files as the assembly opens. */
  function Chunks(s: Session): nat { if s.total < 0 then 0 else s.total }

  datatype Completed = Completed(sid: Sid, content: Bytes)

  datatype Server = Server(sessions: map<Sid, Session>, files: map<Fid, Completed>)
  {
    function With(sid: Sid, s: Session): Server { Server(sessions[sid := s], files) }

    /** A complete request for the session has assembled its file. */
    predicate Assembled(sid: Sid) { exists fid :: fid in files && files[fid].sid == sid }
  }

  // The handlers, step by step.

  /** FindActiveSessionByHash: size and chunk size are not compared. */
  predicate Resumable(s: Server, sid: Sid, r: Request) {
    r.fingerprint != "" && sid in s.sessions && s.sessions[sid].active && s.sessions[sid].space == r.space
    && s.sessions[sid].name == r.name && s.sessions[sid].fingerprint == r.fingerprint
  }

  /** The two sizes are 64-bit integers, or the request does not even parse. */
  predicate Acceptable(r: Request) { 0 < r.size && InInt64(r.size) && InInt64(r.chunkSize) && WellFormedName(r.name) }

  function NewSession(r: Request): Session
    requires Acceptable(r)
  {
    var chunkSize := if r.chunkSize <= 0 then DEFAULT_CHUNK_SIZE else r.chunkSize;
    Session(r.space, r.name, r.fingerprint, r.size, chunkSize, ChunkCount(r.size, chunkSize), true, {}, map[])
  }

  /** InitUpload, given a new id and what the search for a session answered. Requests are
      also refused over quota, and when the name is taken and the browser has not decided what to do about it. */
  function Init(s: Server, r: Request, refused: bool, id: Sid, found: Option<Sid>, failing: bool)
    : (Server, Option<Sid>)
  {
    if !Acceptable(r) || refused then (s, None)
    else if found.Some? && Resumable(s, found.value, r) then (s, found)
    else if failing || id in s.sessions then (s, None)
    else (s.With(id, NewSession(r)), Some(id))
  }

  /** UploadChunk up to the end of SaveChunk. `checked` tells that the handler saw the session active earlier. */
  predicate Admits(s: Server, sid: Sid, checked: bool) {
    sid in s.sessions && (s.sessions[sid].active || checked)
  }

  function SaveChunk(s: Server, sid: Sid, i: nat, data: Bytes, w: Write, checked: bool): Server {
    if !Admits(s, sid, checked) || w.NotOpened? then s
    else s.With(sid, s.sessions[sid].(stored := s.sessions[sid].stored[i := Content(data, w)]))
  }

  /** UploadChunk from there on: an error of the database is ignored. */
  function RecordChunk(s: Server, sid: Sid, i: nat, failing: bool): Server {
    if sid !in s.sessions || failing then s
    else s.With(sid, s.sessions[sid].(recorded := s.sessions[sid].recorded + {i}))
  }

  /** The gate compares nothing but numbers. */
  predicate Gate(s: Server, sid: Sid) {
    sid in s.sessions && |s.sessions[sid].recorded| == s.sessions[sid].total
  }

  predicate AllStored(s: Session) { forall i: nat :: i < s.total ==> i in s.stored }

  function Stored(s: Session): nat -> Bytes {
    (i: nat) => if i in s.stored then s.stored[i] else []
  }

  /** AssembleFile fails when the new file cannot be created or a chunk file is missing. */
  function Assemble(s: Server, sid: Sid, fid: Fid, failing: bool): Server {
    if sid !in s.sessions || fid in s.files || failing || !AllStored(s.sessions[sid]) then s
    else Server(s.sessions, s.files[fid := Completed(sid, Glue(Stored(s.sessions[sid]), Chunks(s.sessions[sid])))])
  }

  function Mark(s: Server, sid: Sid, failing: bool): Server {
    if sid !in s.sessions || failing then s else s.With(sid, s.sessions[sid].(active := false))
  }

  /** DeleteTemp may fail half-way. */
  function Clear(s: Server, sid: Sid, gone: set<nat>): Server {
    if sid !in s.sessions then s
    else s.With(sid, s.sessions[sid].(stored := s.sessions[sid].stored - gone))
  }

  /** What resuming means: the session was there, active, and of the request's space, name and fingerprint, and
      nothing is changed. */
  lemma InitResumes(s: Server, r: Request, refused: bool, id: Sid, found: Option<Sid>, failing: bool)
    ensures var (t, sid) := Init(s, r, refused, id, found, failing);
            sid.Some? && sid.value in s.sessions ==>
              var o := s.sessions[sid.value];
              t == s && r.fingerprint != "" && o.active && o.space == r.space && o.name == r.name
              && o.fingerprint == r.fingerprint
  {
  }

  /** What opening means: a session of the request's terms, with no chunk, beside those that were there. */
  lemma InitOpens(s: Server, r: Request, refused: bool, id: Sid, found: Option<Sid>, failing: bool)
    ensures var (t, sid) := Init(s, r, refused, id, found, failing);
            sid.Some? && sid.value !in s.sessions ==>
              sid.value == id && t.files == s.files && t.sessions.Keys == s.sessions.Keys + {id}
              && (forall j :: j in s.sessions ==> t.sessions[j] == s.sessions[j]) &&
              var n := t.sessions[id];
              n.space == r.space && n.name == r.name && n.fingerprint == r.fingerprint && n.size == r.size
              && n.chunkSize == (if r.chunkSize > 0 then r.chunkSize else 524288)
              && n.active && n.recorded == {} && n.stored == map[]
  {
  }

  /** Refused is what is malformed, over quota or in conflict; else only a failing insert stands in the way. */
  lemma InitRefuses(s: Server, r: Request, refused: bool, id: Sid, found: Option<Sid>, failing: bool)
    ensures var (t, sid) := Init(s, r, refused, id, found, failing);
            var sound := 0 < r.size < 0x8000_0000_0000_0000 && WellFormedName(r.name)
                         && -0x8000_0000_0000_0000 <= r.chunkSize < 0x8000_0000_0000_0000;
            (!sound || refused ==> sid.None?)
            && (sid.None? ==> t == s)
            && (sound && !refused && !failing && id !in s.sessions ==> sid.Some?)
            && (found.None? && sid.Some? ==> sid.value !in s.sessions)
    ensures found.Some? && found.value in s.sessions && r.fingerprint != "" && s.sessions[found.value].active
            && s.sessions[found.value].space == r.space && s.sessions[found.value].name == r.name
            && s.sessions[found.value].fingerprint == r.fingerprint && Acceptable(r) && !refused ==>
              Init(s, r, refused, id, found, failing) == (s, found)
  {
    hide WellFormedName;
  }

  /** A chunk goes to its own file of its own session, whole or cut short, and nothing else changes. */
  lemma SaveChunkDoes(s: Server, sid: Sid, i: nat, data: Bytes, w: Write, checked: bool)
    ensures var t := SaveChunk(s, sid, i, data, w, checked);
            if sid in s.sessions && (s.sessions[sid].active || checked) && !w.NotOpened?
            then var piece := if w.Torn? then data[..Min(w.n, |data|)] else data;
                 var o := s.sessions[sid];
                 t == Server(s.sessions[sid := o.(stored := o.stored[i := piece])], s.files)
            else t == s
  {
    assert data[..|data|] == data;
  }

  /** Rows, statuses and chunk files: each handler's step touches one field of one session. */
  lemma RowsDo(s: Server, sid: Sid, i: nat, gone: set<nat>, failing: bool)
    ensures RecordChunk(s, sid, i, failing)
            == if sid in s.sessions && !failing
               then s.With(sid, s.sessions[sid].(recorded := s.sessions[sid].recorded + {i})) else s
    ensures Mark(s, sid, failing)
            == if sid in s.sessions && !failing then s.With(sid, s.sessions[sid].(active := false)) else s
    ensures var t := Clear(s, sid, gone);
            t.files == s.files && t.sessions.Keys == s.sessions.Keys
            && (forall j :: j in s.sessions && j != sid ==> t.sessions[j] == s.sessions[j])
            && (sid in s.sessions ==>
                  t.sessions[sid] == s.sessions[sid].(stored := t.sessions[sid].stored)
                  && forall k: nat :: (k in t.sessions[sid].stored <==> k in s.sessions[sid].stored && k !in gone)
                                      && (k in t.sessions[sid].stored ==>
                                            t.sessions[sid].stored[k] == s.sessions[sid].stored[k]))
    ensures forall t, r :: s.With(t, r) == Server(s.sessions[t := r], s.files)
  {
  }

  /** The gate is a comparison of two numbers; past it, every chunk file is needed, and they follow one another. */
  lemma AssembleDoes(s: Server, sid: Sid, fid: Fid, failing: bool)
    ensures Gate(s, sid) <==> sid in s.sessions && |s.sessions[sid].recorded| == s.sessions[sid].total
    ensures var t := Assemble(s, sid, fid, failing);
            t.sessions == s.sessions
            && if sid in s.sessions && fid !in s.files && !failing
                  && forall i: nat :: i < s.sessions[sid].total ==> i in s.sessions[sid].stored
               then fid in t.files && t.files[fid].sid == sid && t.files == s.files[fid := t.files[fid]]
               else t.files == s.files
  {
    hide Glue;
  }

  /** Chunk i of the assembled content, after the i chunks before it. */
  lemma {:induction false} AssembledAt(s: Session, n: nat, i: nat)
    requires i < n && forall k: nat :: k < n ==> k in s.stored
    ensures var before, all := Glue(Stored(s), i), Glue(Stored(s), n);
            |before| + |s.stored[i]| <= |all| && all[..|before|] == before
            && all[|before|..|before| + |s.stored[i]|] == s.stored[i]
    ensures n == i + 1 ==> Glue(Stored(s), n) == Glue(Stored(s), i) + s.stored[i]
    ensures Glue(Stored(s), 0) == []
    decreases n
  {
    assert Stored(s)(n - 1) == s.stored[n - 1];
    if i < n - 1 { AssembledAt(s, n - 1, i); }
  }

  // Browsers and handlers together.

  /** A browser keeps its own chunk size, whatever the session's is. */
  datatype Client = Client(file: Bytes, chunkSize: nat, sid: Sid)

  /** `whole` holds the chunks that some handler has stored whole and may still record,
      `passed` the sessions for which some handler has passed the gate. */
  datatype World = World(server: Server, clients: map<Cid, Client>, whole: set<(Sid, nat)>, passed: set<Sid>)

  const EMPTY := World(Server(map[], map[]), map[], {}, {})

  datatype Event =
    | Joining(cid: Cid, file: Bytes, chunkSize: nat, space: string, name: string, fingerprint: string,
              refused: bool, id: Sid, found: Option<Sid>, failing: bool)
    | Writing(cid: Cid, i: nat, w: Write, checked: bool)
    | Recording(sid: Sid, i: nat, failing: bool)
    | Passing(sid: Sid)
    | Assembling(sid: Sid, fid: Fid, failing: bool)
    | Marking(sid: Sid, failing: bool)
    | Clearing(sid: Sid, gone: set<nat>)

  function Next(w: World, e: Event): World {
    match e
    case Joining(cid, file, chunkSize, space, name, fingerprint, refused, id, found, failing) =>
      var (s, sid) := Init(w.server, Request(space, name, fingerprint, |file|, chunkSize), refused, id, found, failing);
      if cid in w.clients || sid.None? then w
      else w.(server := s, clients := w.clients[cid := Client(file, chunkSize, sid.value)])
    case Writing(cid, i, how, checked) =>
      if cid !in w.clients || !Admits(w.server, w.clients[cid].sid, checked) then w
      else
        var c := w.clients[cid];
        w.(server := SaveChunk(w.server, c.sid, i, Slice(c.file, c.chunkSize, i), how, checked),
           whole := if how.Written? then w.whole + {(c.sid, i)} else w.whole)
    case Recording(sid, i, failing) =>
      if (sid, i) !in w.whole then w else w.(server := RecordChunk(w.server, sid, i, failing))
    case Passing(sid) =>
      if Gate(w.server, sid) then w.(passed := w.passed + {sid}) else w
    case Assembling(sid, fid, failing) =>
      if sid !in w.passed then w else w.(server := Assemble(w.server, sid, fid, failing))
    case Marking(sid, failing) =>
      if !w.server.Assembled(sid) then w else w.(server := Mark(w.server, sid, failing))
    case Clearing(sid, gone) =>
      if !w.server.Assembled(sid) then w else w.(server := Clear(w.server, sid, gone))
  }

  /** What an event does besides its handler's step on the server. */
  lemma NextDoes(w: World, e: Event)
    ensures var u := Next(w, e);
            (!e.Joining? ==> u.clients == w.clients) && (!e.Passing? ==> u.passed == w.passed)
            && (!e.Writing? ==> u.whole == w.whole) && (e.Passing? ==> u.server == w.server)
    ensures e.Joining? && e.cid !in w.clients ==>
              var (s, sid) := Init(w.server, Request(e.space, e.name, e.fingerprint, |e.file|, e.chunkSize),
                                   e.refused, e.id, e.found, e.failing);
              Next(w, e).server == s
              && Next(w, e).clients == if sid.Some? then w.clients[e.cid := Client(e.file, e.chunkSize, sid.value)]
                                       else w.clients
    ensures e.Joining? && e.cid in w.clients ==> Next(w, e) == w
    ensures e.Writing? ==>
              var can := e.cid in w.clients && Admits(w.server, w.clients[e.cid].sid, e.checked);
              Next(w, e).whole == (if can && e.w.Written? then w.whole + {(w.clients[e.cid].sid, e.i)} else w.whole)
              && Next(w, e).server == if can then
                                        SaveChunk(w.server, w.clients[e.cid].sid, e.i,
                                                  Slice(w.clients[e.cid].file, w.clients[e.cid].chunkSize, e.i),
                                                  e.w, e.checked)
                                      else w.server
  {
    hide SaveChunk, Slice, Assemble, Gate, WellFormedName, ChunkCount;
  }

  function Run(w: World, es: seq<Event>): World {
    if es == [] then w else Next(Run(w, es[..|es| - 1]), es[|es| - 1])
  }

  // What holds in every run.

  ghost predicate Inv(w: World) {
    && (forall sid :: sid in w.server.sessions ==> SessionInv(w, sid))
    && (forall cid :: cid in w.clients ==> w.clients[cid].sid in w.server.sessions)
    && (forall p :: p in w.whole ==> p.0 in w.server.sessions)
    && (forall sid :: sid in w.passed ==> sid in w.server.sessions)
    && (forall fid :: fid in w.server.files ==> w.server.files[fid].sid in w.server.sessions)
  }

  /** Recorded chunks have been stored whole, and their files are there until the session's file is assembled. */
  ghost predicate SessionInv(w: World, sid: Sid)
    requires sid in w.server.sessions
  {
    var s := w.server.sessions[sid];
    0 < s.chunkSize < TWO63 && 0 < s.size < TWO63 && s.total == ChunkCount(s.size, s.chunkSize)
    && (forall i :: i in s.recorded ==> (sid, i) in w.whole)
    && (!w.server.Assembled(sid) ==> forall i: nat :: (sid, i) in w.whole ==> i in s.stored)
  }

  lemma JoinKeepsInv(w: World, e: Event)
    requires Inv(w) && e.Joining?
    ensures Inv(Next(w, e))
  {
    var u := Next(w, e);
    forall sid | sid in u.server.sessions ensures SessionInv(u, sid) {
      assert u.server.Assembled(sid) <==> w.server.Assembled(sid);
      if sid in w.server.sessions {
        assert SessionInv(w, sid);
      }
    }
  }

  lemma WriteKeepsInv(w: World, e: Event)
    requires Inv(w) && e.Writing?
    ensures Inv(Next(w, e))
  {
    hide Slice, Content, ChunkCount;
    var u := Next(w, e);
    forall sid | sid in u.server.sessions ensures SessionInv(u, sid) {
      assert u.server.Assembled(sid) <==> w.server.Assembled(sid);
      assert SessionInv(w, sid);
    }
  }

  lemma ClearKeepsInv(w: World, e: Event)
    requires Inv(w) && e.Clearing?
    ensures Inv(Next(w, e))
  {
    hide ChunkCount;
    var u := Next(w, e);
    forall sid | sid in u.server.sessions ensures SessionInv(u, sid) {
      assert u.server.Assembled(sid) <==> w.server.Assembled(sid);
      assert SessionInv(w, sid);
    }
  }

  lemma RowsKeepSession(w: World, e: Event, sid: Sid)
    requires sid in w.server.sessions && SessionInv(w, sid) && (e.Recording? || e.Marking?)
    ensures sid in Next(w, e).server.sessions && SessionInv(Next(w, e), sid)
  {
    hide ChunkCount;
    assert w.server.Assembled(sid) <==> Next(w, e).server.Assembled(sid);
  }

  lemma RowsKeepInv(w: World, e: Event)
    requires Inv(w) && (e.Recording? || e.Marking?)
    ensures Inv(Next(w, e))
  {
    hide SessionInv;
    var u := Next(w, e);
    assert u.server.sessions.Keys == w.server.sessions.Keys;
    forall sid | sid in u.server.sessions ensures SessionInv(u, sid) {
      RowsKeepSession(w, e, sid);
    }
  }

  lemma PassKeepsInv(w: World, e: Event)
    requires Inv(w) && e.Passing?
    ensures Inv(Next(w, e))
  {
    hide ChunkCount;
    var u := Next(w, e);
    forall sid | sid in u.server.sessions ensures SessionInv(u, sid) {
      assert SessionInv(w, sid);
    }
  }

  lemma AssembledStays(w: World, u: World, sid: Sid)
    requires forall fid :: fid in w.server.files ==> fid in u.server.files && u.server.files[fid] == w.server.files[fid]
    ensures w.server.Assembled(sid) ==> u.server.Assembled(sid)
  {
  }

  lemma AssembleKeepsSession(w: World, e: Event, sid: Sid)
    requires sid in w.server.sessions && SessionInv(w, sid) && e.Assembling?
    ensures var u := Next(w, e);
            u.server.sessions == w.server.sessions && u.clients == w.clients && u.whole == w.whole
            && u.passed == w.passed && SessionInv(u, sid)
  {
    hide ChunkCount, Glue, AllStored;
    AssembledStays(w, Next(w, e), sid);
  }

  lemma AssembleKeepsInv(w: World, e: Event)
    requires Inv(w) && e.Assembling?
    ensures Inv(Next(w, e))
  {
    hide Glue, AllStored, SessionInv;
    forall sid | sid in w.server.sessions ensures SessionInv(Next(w, e), sid) {
      AssembleKeepsSession(w, e, sid);
    }
  }

  lemma {:induction false} RunsKeepInv(es: seq<Event>)
    ensures Inv(Run(EMPTY, es))
  {
    hide Inv, Next;
    if es == [] {
      EmptyInv();
    } else {
      var n := |es| - 1;
      RunsKeepInv(es[..n]);
      var w, e := Run(EMPTY, es[..n]), es[n];
      match e
      case Joining(_, _, _, _, _, _, _, _, _, _) => JoinKeepsInv(w, e);
      case Writing(_, _, _, _) => WriteKeepsInv(w, e);
      case Recording(_, _, _) => RowsKeepInv(w, e);
      case Passing(_) => PassKeepsInv(w, e);
      case Assembling(_, _, _) => AssembleKeepsInv(w, e);
      case Marking(_, _) => RowsKeepInv(w, e);
      case Clearing(_, _) => ClearKeepsInv(w, e);
    }
  }

  lemma EmptyInv()
    ensures Inv(EMPTY)
  {
  }

  // What never changes.

  ghost predicate SameTerms(s: Session, t: Session) {
    t.size == s.size && t.chunkSize == s.chunkSize && t.total == s.total && s.recorded <= t.recorded
  }

  ghost predicate Extends(w: World, u: World) {
    && (forall sid :: sid in w.server.sessions ==>
          sid in u.server.sessions && SameTerms(w.server.sessions[sid], u.server.sessions[sid]))
    && (forall cid :: cid in w.clients ==> cid in u.clients && u.clients[cid] == w.clients[cid])
  }

  lemma StepExtends(w: World, e: Event)
    ensures Extends(w, Next(w, e))
  {
  }

  // One session and the file it was opened for.

  /** All browsers of the session cut it into the same slices, as those do that have the
      same file and the same chunk size. */
  ghost predicate Faithful(w: World, sid: Sid, origin: Bytes) {
    sid in w.server.sessions && w.server.sessions[sid].chunkSize > 0 && w.server.sessions[sid].size == |origin|
    && w.server.sessions[sid].total == ChunkCount(|origin|, w.server.sessions[sid].chunkSize)
    && w.server.sessions[sid].chunkSize < TWO63 && 0 < |origin| < TWO63
    && forall cid :: cid in w.clients && w.clients[cid].sid == sid ==>
         SameSlices(origin, w.server.sessions[sid].chunkSize, w.clients[cid].file, w.clients[cid].chunkSize)
  }

  lemma FaithfulBefore(w: World, e: Event, sid: Sid, origin: Bytes)
    requires Faithful(Next(w, e), sid, origin) && sid in w.server.sessions
    ensures Faithful(w, sid, origin)
  {
    StepExtends(w, e);
    hide Next, SameSlices;
    assert SameTerms(w.server.sessions[sid], Next(w, e).server.sessions[sid]);
  }

  /** Stored chunks are at least cut off right, and no result of the right length is wrong. */
  ghost predicate Good(w: World, sid: Sid, origin: Bytes)
    requires sid in w.server.sessions
  {
    var s := w.server.sessions[sid];
    (forall i: nat :: i < s.total && i in s.stored ==> PrefixOf(s.stored[i], Slice(origin, s.chunkSize, i)))
    && forall fid :: fid in w.server.files && w.server.files[fid].sid == sid ==>
         CutShortOrRight(w.server.files[fid].content, origin)
  }

  ghost predicate CutShortOrRight(content: Bytes, origin: Bytes) {
    |content| <= |origin| && (|content| == |origin| <==> content == origin)
  }

  /** The count of chunks did not wrap. */
  predicate Unwrapped(s: Session) { s.size + s.chunkSize <= TWO63 }

  lemma FaithfulTotal(w: World, sid: Sid, origin: Bytes)
    requires Faithful(w, sid, origin)
    ensures var s := w.server.sessions[sid];
            s.total <= Total(|origin|, s.chunkSize)
            && (Unwrapped(s) <==> s.total == Total(|origin|, s.chunkSize)) && (!Unwrapped(s) ==> s.total <= 0)
  {
    ChunkCountIff(|origin|, w.server.sessions[sid].chunkSize);
  }

  lemma AssembledPrefixes(s: Session, origin: Bytes)
    requires 0 < s.chunkSize < TWO63 && s.size == |origin| && 0 < |origin| < TWO63
    requires s.total == ChunkCount(|origin|, s.chunkSize) && AllStored(s)
    requires forall i: nat :: i < s.total && i in s.stored ==> PrefixOf(s.stored[i], Slice(origin, s.chunkSize, i))
    ensures CutShortOrRight(Glue(Stored(s), Chunks(s)), origin)
    ensures Glue(Stored(s), Chunks(s)) == origin <==>
            Unwrapped(s) && forall i: nat :: i < s.total ==> s.stored[i] == Slice(origin, s.chunkSize, i)
  {
    var p, q := Stored(s), Slicing(origin, s.chunkSize);
    ChunkCountIff(|origin|, s.chunkSize);
    hide Slice, ChunkCount, Total;
    if Unwrapped(s) {
      assert forall i: nat :: i < s.total ==> p(i) == s.stored[i] && q(i) == Slice(origin, s.chunkSize, i);
      SlicesTile(origin, s.chunkSize);
      PrefixesCompleteIff(p, q, s.total);
      GluePrefixes(p, q, s.total);
    }
  }

  lemma StepKeepsGood(w: World, e: Event, sid: Sid, origin: Bytes)
    requires Faithful(w, sid, origin) && Good(w, sid, origin) && sid in Next(w, e).server.sessions
    ensures Good(Next(w, e), sid, origin)
  {
    hide Next, Good;
    if e.Writing? {
      WriteKeepsGood(w, e, sid, origin);
    } else if e.Assembling? {
      AssembleKeepsGood(w, e, sid, origin);
    } else {
      OthersKeepGood(w, e, sid, origin);
    }
  }

  lemma OthersKeepGood(w: World, e: Event, sid: Sid, origin: Bytes)
    requires sid in w.server.sessions && Good(w, sid, origin) && !e.Writing? && !e.Assembling?
    requires sid in Next(w, e).server.sessions
    ensures Good(Next(w, e), sid, origin)
  {
    hide Slice, ChunkCount, CutShortOrRight;
  }

  lemma AssembleKeepsGood(w: World, e: Event, sid: Sid, origin: Bytes)
    requires Faithful(w, sid, origin) && Good(w, sid, origin) && e.Assembling?
    requires sid in Next(w, e).server.sessions
    ensures Good(Next(w, e), sid, origin)
  {
    hide Slice, ChunkCount, Glue, CutShortOrRight;
    var s := w.server.sessions[sid];
    if AllStored(s) { AssembledPrefixes(s, origin); }
  }

  lemma WriteKeepsGood(w: World, e: Event, sid: Sid, origin: Bytes)
    requires Faithful(w, sid, origin) && Good(w, sid, origin) && e.Writing?
    requires sid in Next(w, e).server.sessions
    ensures Good(Next(w, e), sid, origin)
  {
    hide Slice, ChunkCount;
    var s, t := w.server.sessions[sid], Next(w, e).server.sessions[sid];
    FaithfulTotal(w, sid, origin);
    hide Total;
    if e.cid in w.clients && w.clients[e.cid].sid == sid && e.i < s.total {
      var c := w.clients[e.cid];
      assert SameSlices(origin, s.chunkSize, c.file, c.chunkSize);
      assert Slice(origin, s.chunkSize, e.i) == Slice(c.file, c.chunkSize, e.i);
    }
    forall i: nat | i < t.total && i in t.stored ensures PrefixOf(t.stored[i], Slice(origin, t.chunkSize, i)) {
      assert i in s.stored ==> PrefixOf(s.stored[i], Slice(origin, s.chunkSize, i));
    }
  }

  /** In every run: what is assembled from a session is the original file exactly when its length is right. */
  lemma {:induction false} RunsAreGood(es: seq<Event>, sid: Sid, origin: Bytes)
    requires Faithful(Run(EMPTY, es), sid, origin)
    ensures Good(Run(EMPTY, es), sid, origin)
  {
    hide Next, Inv, Good;
    if es != [] {
      var n := |es| - 1;
      var w, e := Run(EMPTY, es[..n]), es[n];
      RunsKeepInv(es[..n]);
      if sid in w.server.sessions {
        FaithfulBefore(w, e, sid, origin);
        RunsAreGood(es[..n], sid, origin);
        StepKeepsGood(w, e, sid, origin);
      } else {
        NewSessionGood(w, e, sid, origin);
      }
    }
  }

  lemma NewSessionGood(w: World, e: Event, sid: Sid, origin: Bytes)
    requires Inv(w) && sid !in w.server.sessions && sid in Next(w, e).server.sessions
    ensures Good(Next(w, e), sid, origin)
    ensures Next(w, e).server.sessions[sid].recorded == {} && Next(w, e).server.sessions[sid].stored == map[]
    ensures sid !in Next(w, e).passed && forall i: nat :: (sid, i) !in Next(w, e).whole
    ensures forall fid :: fid in Next(w, e).server.files ==> Next(w, e).server.files[fid].sid != sid
  {
  }

  // No chunk is torn after it has been stored.

  /** The step overwrites a chunk that some handler has stored whole, and fails half-way. */
  predicate Tears(w: World, e: Event, sid: Sid) {
    e.Writing? && e.w.Torn? && e.cid in w.clients && w.clients[e.cid].sid == sid && (sid, e.i) in w.whole
  }

  predicate Careful(es: seq<Event>, sid: Sid) {
    es == [] || (Careful(es[..|es| - 1], sid) && !Tears(Run(EMPTY, es[..|es| - 1]), es[|es| - 1], sid))
  }

  /** Nobody has uploaded a chunk that the file does not have. */
  ghost predicate InRange(w: World, sid: Sid) {
    sid in w.server.sessions ==> w.server.sessions[sid].recorded <= Indices(Chunks(w.server.sessions[sid]))
  }

  ghost predicate Exact(w: World, sid: Sid, origin: Bytes)
    requires sid in w.server.sessions
  {
    var s := w.server.sessions[sid];
    (forall i: nat :: i < s.total && i in s.stored && (sid, i) in w.whole ==>
       s.stored[i] == Slice(origin, s.chunkSize, i))
    && (sid in w.passed ==> Indices(Chunks(s)) <= s.recorded)
    && forall fid :: fid in w.server.files && w.server.files[fid].sid == sid ==> w.server.files[fid].content == origin
  }

  lemma SubsetOfSize(a: set<nat>, b: set<nat>)
    requires a <= b && |a| == |b|
    ensures a == b
  {
    assert b == a + (b - a);
    assert |b - a| == 0;
  }

  /** The gate never opens for a negative count. Else it is open once every chunk is recorded and none besides, and an
      open gate means just that exactly when no recorded index is out of range. */
  lemma GateMeansAll(w: World, sid: Sid)
    requires sid in w.server.sessions
    ensures var s := w.server.sessions[sid];
            (Gate(w.server, sid) ==> s.total >= 0)
            && (s.total >= 0 && s.recorded == Indices(Chunks(s)) ==> Gate(w.server, sid))
            && (Gate(w.server, sid) ==> (s.recorded == Indices(Chunks(s)) <==> InRange(w, sid)))
  {
    var s := w.server.sessions[sid];
    IndicesCount(Chunks(s));
    if Gate(w.server, sid) && InRange(w, sid) { SubsetOfSize(s.recorded, Indices(Chunks(s))); }
  }

  lemma StepKeepsExact(w: World, e: Event, sid: Sid, origin: Bytes)
    requires Inv(w) && Faithful(w, sid, origin) && Exact(w, sid, origin) && !Tears(w, e, sid)
    requires Unwrapped(w.server.sessions[sid]) && InRange(w, sid) && sid in Next(w, e).server.sessions
    ensures Exact(Next(w, e), sid, origin)
  {
    hide Next, Exact, Inv, Tears, Gate;
    match e
    case Joining(_, _, _, _, _, _, _, _, _, _) => OthersKeepExact(w, e, sid, origin);
    case Writing(_, _, _, _) => WriteKeepsExact(w, e, sid, origin);
    case Recording(_, _, _) => OthersKeepExact(w, e, sid, origin);
    case Passing(_) => PassKeepsExact(w, e, sid, origin);
    case Assembling(_, _, _) => AssembleKeepsExact(w, e, sid, origin);
    case Marking(_, _) => OthersKeepExact(w, e, sid, origin);
    case Clearing(_, _) => OthersKeepExact(w, e, sid, origin);
  }

  lemma OthersKeepExact(w: World, e: Event, sid: Sid, origin: Bytes)
    requires sid in w.server.sessions && Exact(w, sid, origin)
    requires (e.Joining? || e.Recording? || e.Marking? || e.Clearing?) && sid in Next(w, e).server.sessions
    ensures Exact(Next(w, e), sid, origin)
  {
    hide Slice, ChunkCount, Indices;
    StepExtends(w, e);
    assert SameTerms(w.server.sessions[sid], Next(w, e).server.sessions[sid]);
  }

  lemma PassKeepsExact(w: World, e: Event, sid: Sid, origin: Bytes)
    requires sid in w.server.sessions && Exact(w, sid, origin) && InRange(w, sid) && e.Passing?
    requires sid in Next(w, e).server.sessions
    ensures Exact(Next(w, e), sid, origin)
  {
    hide Slice, Indices, InRange;
    GateMeansAll(w, sid);
  }

  lemma WriteKeepsExact(w: World, e: Event, sid: Sid, origin: Bytes)
    requires Faithful(w, sid, origin) && Exact(w, sid, origin) && e.Writing? && !Tears(w, e, sid)
    requires sid in Next(w, e).server.sessions
    ensures Exact(Next(w, e), sid, origin)
  {
    hide Slice, ChunkCount;
    var s := w.server.sessions[sid];
    FaithfulTotal(w, sid, origin);
    hide Total;
    if e.cid in w.clients && w.clients[e.cid].sid == sid && e.i < s.total {
      var c := w.clients[e.cid];
      assert SameSlices(origin, s.chunkSize, c.file, c.chunkSize);
      assert Slice(origin, s.chunkSize, e.i) == Slice(c.file, c.chunkSize, e.i);
    }
  }

  lemma AssembleKeepsExact(w: World, e: Event, sid: Sid, origin: Bytes)
    requires Inv(w) && Faithful(w, sid, origin) && Exact(w, sid, origin) && Unwrapped(w.server.sessions[sid])
    requires e.Assembling? && sid in Next(w, e).server.sessions
    ensures Exact(Next(w, e), sid, origin)
  {
    hide Slice, ChunkCount, Glue;
    var s := w.server.sessions[sid];
    if sid in w.passed && AllStored(s) {
      assert SessionInv(w, sid);
      forall i: nat | i < s.total ensures s.stored[i] == Slice(origin, s.chunkSize, i) {
        assert i in s.recorded && (sid, i) in w.whole;
      }
      AssembledPrefixes(s, origin);
    }
  }

  /** In every run of any number of browsers, with failures and interruptions: whatever is assembled from a
      session is the original file, if all its browsers cut the same slices, the count of chunks did not
      wrap, no index is out of range and no stored chunk is torn by a failing repetition. */
  lemma {:induction false} AssembledIsOriginal(es: seq<Event>, sid: Sid, origin: Bytes)
    requires Faithful(Run(EMPTY, es), sid, origin) && Unwrapped(Run(EMPTY, es).server.sessions[sid])
    requires InRange(Run(EMPTY, es), sid) && Careful(es, sid)
    ensures Exact(Run(EMPTY, es), sid, origin)
  {
    hide Next, Inv, Exact, Tears;
    if es != [] {
      var n := |es| - 1;
      var w, e := Run(EMPTY, es[..n]), es[n];
      RunsKeepInv(es[..n]);
      if sid in w.server.sessions {
        FaithfulBefore(w, e, sid, origin);
        StepExtends(w, e);
        assert SameTerms(w.server.sessions[sid], Next(w, e).server.sessions[sid]);
        AssembledIsOriginal(es[..n], sid, origin);
        StepKeepsExact(w, e, sid, origin);
      } else {
        NewSessionExact(w, e, sid, origin);
      }
    }
  }

  lemma NewSessionExact(w: World, e: Event, sid: Sid, origin: Bytes)
    requires Inv(w) && sid !in w.server.sessions && sid in Next(w, e).server.sessions
    ensures Exact(Next(w, e), sid, origin)
  {
    hide Next, Inv, Slice;
    NewSessionGood(w, e, sid, origin);
  }

  /** A request that has passed the gate succeeds exactly when all chunk files are there; and they are, until the
      session's file is assembled, unless an index out of range was recorded. */
  lemma GateSuffices(es: seq<Event>, sid: Sid, fid: Fid)
    requires var w := Run(EMPTY, es); Gate(w.server, sid) && fid !in w.server.files
    ensures var w := Run(EMPTY, es);
            var u := Next(Next(w, Passing(sid)), Assembling(sid, fid, false));
            (fid in u.server.files && u.server.files[fid].sid == sid <==> AllStored(w.server.sessions[sid]))
            && (InRange(w, sid) && !w.server.Assembled(sid) ==> AllStored(w.server.sessions[sid]))
  {
    hide Glue;
    var w := Run(EMPTY, es);
    RunsKeepInv(es);
    assert SessionInv(w, sid);
    GateMeansAll(w, sid);
  }

  // What can be known before assembling.

  /** Every chunk file has the length of its slice, which follows from the session's row. */
  predicate RightLengths(s: Session) {
    forall i: nat :: i < s.total ==> i in s.stored && |s.stored[i]| == SliceLength(s.size, s.chunkSize, i)
  }

  lemma WholeIffLengths(s: Session, origin: Bytes)
    requires AllStored(s) && s.size == |origin|
    requires forall i: nat :: i < s.total && i in s.stored ==> PrefixOf(s.stored[i], Slice(origin, s.chunkSize, i))
    ensures RightLengths(s) <==> forall i: nat :: i < s.total ==> s.stored[i] == Slice(origin, s.chunkSize, i)
  {
    hide Slice, SliceLength;
    forall i: nat | i < s.total
      ensures |s.stored[i]| == SliceLength(s.size, s.chunkSize, i) <==> s.stored[i] == Slice(origin, s.chunkSize, i)
    {
      SliceHasLength(origin, s.chunkSize, i);
      assert PrefixOf(s.stored[i], Slice(origin, s.chunkSize, i));
    }
  }

  /** In every run whose browsers cut the same slices, whatever was torn and whatever index was used: assembling
      now gives the original file exactly when every chunk file has its slice's length and the count did not wrap. */
  lemma CompleteIff(es: seq<Event>, sid: Sid, fid: Fid, origin: Bytes)
    requires var w := Run(EMPTY, es);
             Faithful(w, sid, origin) && sid in w.passed && fid !in w.server.files
    ensures var w := Run(EMPTY, es);
            var u := Next(w, Assembling(sid, fid, false));
            (fid in u.server.files && u.server.files[fid].content == origin)
            <==> RightLengths(w.server.sessions[sid]) && Unwrapped(w.server.sessions[sid])
  {
    hide Run, Glue, Slice, SliceLength;
    RunsAreGood(es, sid, origin);
    var s := Run(EMPTY, es).server.sessions[sid];
    if AllStored(s) {
      AssembledPrefixes(s, origin);
      WholeIffLengths(s, origin);
    }
  }

  // What resuming with another file or chunk size does.

  lemma {:induction false} RunAppend(w: World, es: seq<Event>, fs: seq<Event>)
    ensures Run(w, es + fs) == Run(Run(w, es), fs)
  {
    hide Next;
    if fs == [] {
      assert es + fs == es;
    } else {
      var n := |fs| - 1;
      assert (es + fs)[..|es + fs| - 1] == es + fs[..n];
      RunAppend(w, es, fs[..n]);
    }
  }

  lemma RunTwo(w: World, e: Event, f: Event)
    ensures Run(w, [e, f]) == Next(Next(w, e), f)
  {
    hide Next;
    assert [e, f][..1] == [e] && [e][..0] == [];
    assert Run(w, [e]) == Next(Run(w, [e][..0]), e);
  }

  /** Two browsers with one fingerprint and file name: the second resumes the first one's session. */
  function Opening(a: Bytes, sizeA: nat, b: Bytes, sizeB: nat): seq<Event> {
    [Joining(0, a, sizeA, "space", "n", "fingerprint", false, 0, None, false),
     Joining(1, b, sizeB, "space", "n", "fingerprint", false, 1, Some(0), false)]
  }

  /** Then the chunks in order, the chosen ones from the second browser. */
  function Uploads(choice: set<nat>, n: nat): seq<Event> {
    if n == 0 then []
    else Uploads(choice, n - 1)
         + [Writing(if n - 1 in choice then 1 else 0, n - 1, Written, false), Recording(0, n - 1, false)]
  }

  function Shared(a: Bytes, sizeA: nat, b: Bytes, sizeB: nat, recorded: set<nat>, stored: map<nat, Bytes>): Server
    requires sizeA > 0
  {
    var total := ChunkCount(|a|, sizeA);
    Server(map[0 := Session("space", "n", "fingerprint", |a|, sizeA, total, true, recorded, stored)], map[])
  }

  lemma ShortName()
    ensures WellFormedName("n")
  {
    var name := "n";
    assert name[1..] == "" && "" + [name[0]] == name;
    assert SplitFrom(name, "") == [name];
  }

  /** What an upload request can say of a file at all. */
  predicate Parses(file: Bytes, chunkSize: nat) { 0 < |file| < TWO63 && chunkSize < TWO63 }

  lemma Opened(a: Bytes, sizeA: nat, b: Bytes, sizeB: nat)
    requires Parses(a, sizeA) && Parses(b, sizeB) && sizeA > 0
    ensures Run(EMPTY, Opening(a, sizeA, b, sizeB))
            == World(Shared(a, sizeA, b, sizeB, {}, map[]),
                     map[0 := Client(a, sizeA, 0), 1 := Client(b, sizeB, 0)], {}, {})
  {
    var e, f := Opening(a, sizeA, b, sizeB)[0], Opening(a, sizeA, b, sizeB)[1];
    ShortName();
    hide WellFormedName;
    RunTwo(EMPTY, e, f);
    hide ChunkCount;
    var w := Next(EMPTY, e);
    assert w == World(Shared(a, sizeA, b, sizeB, {}, map[]), map[0 := Client(a, sizeA, 0)], {}, {});
    assert Resumable(w.server, 0, Request("space", "n", "fingerprint", |b|, sizeB));
  }

  function Pieces(a: Bytes, sizeA: nat, b: Bytes, sizeB: nat, choice: set<nat>): nat -> Bytes {
    Mixed(Slicing(a, sizeA), Slicing(b, sizeB), choice)
  }

  ghost predicate Uploaded(w: World, a: Bytes, sizeA: nat, b: Bytes, sizeB: nat, choice: set<nat>, n: nat)
    requires sizeA > 0
  {
    0 in w.server.sessions && w.server.files == map[] && w.passed == {}
    && w.clients == map[0 := Client(a, sizeA, 0), 1 := Client(b, sizeB, 0)]
    && var s := w.server.sessions[0];
       s.active && s.total == ChunkCount(|a|, sizeA) && s.recorded == Indices(n)
       && forall i: nat :: i < n ==> i in s.stored && s.stored[i] == Pieces(a, sizeA, b, sizeB, choice)(i)
  }

  lemma {:induction false} UploadsRun(a: Bytes, sizeA: nat, b: Bytes, sizeB: nat, choice: set<nat>, n: nat)
    requires Parses(a, sizeA) && Parses(b, sizeB) && sizeA > 0
    ensures Uploaded(Run(EMPTY, Opening(a, sizeA, b, sizeB) + Uploads(choice, n)), a, sizeA, b, sizeB, choice, n)
  {
    var start := Opening(a, sizeA, b, sizeB);
    hide Next, Uploaded, ChunkCount, Slice;
    if n == 0 {
      assert start + Uploads(choice, 0) == start;
      Opened(a, sizeA, b, sizeB);
      NothingUploaded(a, sizeA, b, sizeB, choice);
    } else {
      var es := start + Uploads(choice, n - 1);
      var e, f := Writing(if n - 1 in choice then 1 else 0, n - 1, Written, false), Recording(0, n - 1, false);
      assert start + Uploads(choice, n) == es + [e, f];
      UploadsRun(a, sizeA, b, sizeB, choice, n - 1);
      RunAppend(EMPTY, es, [e, f]);
      RunTwo(Run(EMPTY, es), e, f);
      OneMoreUploaded(Run(EMPTY, es), a, sizeA, b, sizeB, choice, n - 1);
    }
  }

  lemma NothingUploaded(a: Bytes, sizeA: nat, b: Bytes, sizeB: nat, choice: set<nat>)
    requires sizeA > 0
    ensures Uploaded(World(Shared(a, sizeA, b, sizeB, {}, map[]),
                           map[0 := Client(a, sizeA, 0), 1 := Client(b, sizeB, 0)], {}, {}),
                     a, sizeA, b, sizeB, choice, 0)
  {
  }

  lemma OneMoreUploaded(w: World, a: Bytes, sizeA: nat, b: Bytes, sizeB: nat, choice: set<nat>, n: nat)
    requires sizeA > 0 && Uploaded(w, a, sizeA, b, sizeB, choice, n)
    ensures var e, f := Writing(if n in choice then 1 else 0, n, Written, false), Recording(0, n, false);
            Uploaded(Next(Next(w, e), f), a, sizeA, b, sizeB, choice, n + 1)
  {
    hide ChunkCount, Slice;
    var e, f := Writing(if n in choice then 1 else 0, n, Written, false), Recording(0, n, false);
    var s := w.server.sessions[0];
    var c := w.clients[e.cid];
    var data := Slice(c.file, c.chunkSize, n);
    assert data == Pieces(a, sizeA, b, sizeB, choice)(n);
    var u := Next(w, e);
    assert u.server.sessions[0] == s.(stored := s.stored[n := data]) && (0, n) in u.whole;
    var t := Next(u, f).server.sessions[0];
    assert t == s.(stored := s.stored[n := data], recorded := s.recorded + {n});
    assert t.recorded == Indices(n + 1);
  }

  /** The whole run: open, upload everything, complete. */
  function SharedRun(a: Bytes, sizeA: nat, b: Bytes, sizeB: nat, choice: set<nat>): seq<Event>
    requires sizeA > 0
  {
    Opening(a, sizeA, b, sizeB) + Uploads(choice, Total(|a|, sizeA)) + [Passing(0), Assembling(0, 0, false)]
  }

  lemma SharedRunAssembles(a: Bytes, sizeA: nat, b: Bytes, sizeB: nat, choice: set<nat>)
    requires Parses(a, sizeA) && Parses(b, sizeB) && sizeA > 0
    ensures var w := Run(EMPTY, SharedRun(a, sizeA, b, sizeB, choice));
            if |a| + sizeA <= TWO63
            then 0 in w.server.files
                 && w.server.files[0].content == Glue(Pieces(a, sizeA, b, sizeB, choice), Total(|a|, sizeA))
            else w.server.files == map[]
  {
    var n := Total(|a|, sizeA);
    var es := Opening(a, sizeA, b, sizeB) + Uploads(choice, n);
    hide Next, Uploaded, Total, ChunkCount, Glue;
    UploadsRun(a, sizeA, b, sizeB, choice, n);
    var w := Run(EMPTY, es);
    RunAppend(EMPTY, es, [Passing(0), Assembling(0, 0, false)]);
    RunTwo(w, Passing(0), Assembling(0, 0, false));
    CompletesUploaded(w, a, sizeA, b, sizeB, choice);
  }

  lemma CompletesUploaded(w: World, a: Bytes, sizeA: nat, b: Bytes, sizeB: nat, choice: set<nat>)
    requires Parses(a, sizeA) && sizeA > 0 && Uploaded(w, a, sizeA, b, sizeB, choice, Total(|a|, sizeA))
    ensures var u := Next(Next(w, Passing(0)), Assembling(0, 0, false));
            if |a| + sizeA <= TWO63
            then 0 in u.server.files
                 && u.server.files[0].content == Glue(Pieces(a, sizeA, b, sizeB, choice), Total(|a|, sizeA))
            else u.server.files == map[]
  {
    ChunkCountIff(|a|, sizeA);
    TotalIsCeiling(|a|, sizeA);
    hide ChunkCount, Total, Start, Slice, Glue, Next, Pieces;
    var n, s := Total(|a|, sizeA), w.server.sessions[0];
    IndicesCount(n);
    if |a| + sizeA <= TWO63 {
      GatePassed(w, 0, 0);
      GlueSame(Stored(s), Pieces(a, sizeA, b, sizeB, choice), n);
    } else {
      GateShut(w, 0, 0);
    }
  }

  lemma GateShut(w: World, sid: Sid, fid: Fid)
    requires !Gate(w.server, sid) && sid !in w.passed
    ensures Next(Next(w, Passing(sid)), Assembling(sid, fid, false)) == w
  {
  }

  lemma GatePassed(w: World, sid: Sid, fid: Fid)
    requires Gate(w.server, sid) && AllStored(w.server.sessions[sid]) && fid !in w.server.files
    ensures var s := w.server.sessions[sid];
            Next(Next(w, Passing(sid)), Assembling(sid, fid, false)).server
            == Server(w.server.sessions, w.server.files[fid := Completed(sid, Glue(Stored(s), Chunks(s)))])
  {
    hide Glue;
  }

  /** A session may be resumed with another file or chunk size exactly when that cuts the same slices, and the count
      of chunks did not wrap: otherwise some run completes with something else than the file the session was opened
      for, or does not complete. */
  lemma ResumeIff(a: Bytes, sizeA: nat, b: Bytes, sizeB: nat)
    requires Parses(a, sizeA) && Parses(b, sizeB) && sizeA > 0
    ensures (forall choice: set<nat> :: Delivers(a, sizeA, b, sizeB, choice))
            <==> SameSlices(a, sizeA, b, sizeB) && |a| + sizeA <= TWO63
  {
    hide Run, SharedRun;
    MixIff(a, sizeA, b, sizeB);
    forall choice: set<nat>
      ensures Delivers(a, sizeA, b, sizeB, choice) <==>
              |a| + sizeA <= TWO63 && Glue(Pieces(a, sizeA, b, sizeB, choice), Total(|a|, sizeA)) == a
    {
      SharedRunAssembles(a, sizeA, b, sizeB, choice);
    }
    if forall choice: set<nat> :: Delivers(a, sizeA, b, sizeB, choice) {
      assert Delivers(a, sizeA, b, sizeB, {});
      forall choice: set<nat>
        ensures Glue(Mixed(Slicing(a, sizeA), Slicing(b, sizeB), choice), Total(|a|, sizeA)) == a
      {
        assert Delivers(a, sizeA, b, sizeB, choice);
      }
    }
  }

  predicate Delivers(a: Bytes, sizeA: nat, b: Bytes, sizeB: nat, choice: set<nat>)
    requires sizeA > 0
  {
    var w := Run(EMPTY, SharedRun(a, sizeA, b, sizeB, choice));
    0 in w.server.files && w.server.files[0].content == a
  }

  /** The same file, resumed with chunks of another size. */
  lemma ResumeSameFileIff(file: Bytes, sizeA: nat, sizeB: nat)
    requires Parses(file, sizeA) && Parses(file, sizeB) && sizeA > 0
    ensures (forall choice: set<nat> :: Delivers(file, sizeA, file, sizeB, choice))
            <==> Min(sizeA, |file|) == Min(sizeB, |file|) && |file| + sizeA <= TWO63
  {
    ResumeIff(file, sizeA, file, sizeB);
    SameFileIff(file, sizeA, sizeB);
  }

  // A count that wraps.

  const HUGE := TWO63 - 1

  /** A file of four bytes announced with the largest chunk size there is: the count is 0, so the gate is open at
      once, and the upload completes with an empty file. Nothing was torn and no index is out of range. */
  lemma WrappedCount(file: Bytes)
    requires |file| == 4
    ensures var es := [Joining(0, file, HUGE, "space", "n", "fingerprint", false, 0, None, false), Passing(0)];
            var w := Run(EMPTY, es);
            Faithful(w, 0, file) && InRange(w, 0) && Careful(es, 0) && Gate(w.server, 0)
            && Next(w, Assembling(0, 0, false)).server.files == map[0 := Completed(0, [])]
  {
    var e, f := Joining(0, file, HUGE, "space", "n", "fingerprint", false, 0, None, false), Passing(0);
    RunTwo(EMPTY, e, f);
    WrappedSession(file);
    assert [e, f][..1] == [e] && [e][..0] == [];
    hide Next, Run, Faithful, Gate, InRange;
    assert Careful([e], 0) && Careful([e, f], 0);
  }

  lemma WrappedSession(file: Bytes)
    requires |file| == 4
    ensures var e := Joining(0, file, HUGE, "space", "n", "fingerprint", false, 0, None, false);
            var w := Next(Next(EMPTY, e), Passing(0));
            Faithful(w, 0, file) && InRange(w, 0) && Gate(w.server, 0)
            && Next(w, Assembling(0, 0, false)).server.files == map[0 := Completed(0, [])]
  {
    var e := Joining(0, file, HUGE, "space", "n", "fingerprint", false, 0, None, false);
    ShortName();
    assert ChunkCount(4, HUGE) == 0;
    hide WellFormedName, ChunkCount, Slice;
    var w := Next(EMPTY, e);
    assert w.server.sessions == map[0 := Session("space", "n", "fingerprint", 4, HUGE, 0, true, {}, map[])];
    assert w.clients == map[0 := Client(file, HUGE, 0)];
  }

  // Two runs of a session of one chunk, for the file [1, 2].

  function OneChunk(recorded: set<nat>, stored: map<nat, Bytes>, whole: set<(Sid, nat)>): World {
    var a: Bytes := [1, 2];
    World(Server(map[0 := Session("space", "n", "fingerprint", 2, 2, 1, true, recorded, stored)], map[]),
          map[0 := Client(a, 2, 0)], whole, {})
  }

  const OPEN := Joining(0, [1, 2], 2, "space", "n", "fingerprint", false, 0, None, false)

  lemma OneChunkOpened()
    ensures Next(EMPTY, OPEN) == OneChunk({}, map[], {})
  {
    ShortName();
    hide WellFormedName;
  }

  function Piece(i: nat, how: Write): Bytes { Content(Slice([1, 2], 2, i), how) }

  lemma OneChunkWritten(recorded: set<nat>, stored: map<nat, Bytes>, whole: set<(Sid, nat)>, i: nat, how: Write)
    requires !how.NotOpened?
    ensures Next(OneChunk(recorded, stored, whole), Writing(0, i, how, false))
            == OneChunk(recorded, stored[i := Piece(i, how)], if how.Written? then whole + {(0, i)} else whole)
  {
    hide Slice, Content;
  }

  lemma OneChunkRecorded(recorded: set<nat>, stored: map<nat, Bytes>, whole: set<(Sid, nat)>, i: nat)
    requires (0, i) in whole
    ensures Next(OneChunk(recorded, stored, whole), Recording(0, i, false)) == OneChunk(recorded + {i}, stored, whole)
  {
  }

  lemma TornAssembled(recorded: set<nat>, stored: map<nat, Bytes>, whole: set<(Sid, nat)>)
    requires |recorded| == 1 && 0 in stored && stored[0] == [1]
    ensures var w := Next(Next(OneChunk(recorded, stored, whole), Passing(0)), Assembling(0, 0, false));
            Faithful(w, 0, [1, 2]) && 0 in w.server.files && w.server.files[0].content == [1]
            && w.server.sessions[0].recorded == recorded && w.server.sessions[0].total == 1
  {
    var w := OneChunk(recorded, stored, whole);
    var s := w.server.sessions[0];
    assert Gate(w.server, 0) && AllStored(s);
    assert Glue(Stored(s), 1) == Glue(Stored(s), 0) + [1];
    assert ChunkCount(2, 2) == 1;
  }

  function SixSteps(e: Event, f: Event, g: Event): seq<Event> {
    [OPEN, e] + [f, g] + [Passing(0), Assembling(0, 0, false)]
  }

  lemma RunSix(e: Event, f: Event, g: Event)
    ensures Run(EMPTY, SixSteps(e, f, g))
            == Next(Next(Next(Next(Next(Next(EMPTY, OPEN), e), f), g), Passing(0)), Assembling(0, 0, false))
  {
    hide Next;
    RunAppend(EMPTY, [OPEN, e] + [f, g], [Passing(0), Assembling(0, 0, false)]);
    RunAppend(EMPTY, [OPEN, e], [f, g]);
    RunTwo(EMPTY, OPEN, e);
    RunTwo(Next(Next(EMPTY, OPEN), e), f, g);
    RunTwo(Next(Next(Next(Next(EMPTY, OPEN), e), f), g), Passing(0), Assembling(0, 0, false));
  }

  lemma PiecesOfOne()
    ensures Piece(0, Written) == [1, 2] && Piece(0, Torn(1)) == [1] && Piece(5, Written) == []
  {
    var a: Bytes := [1, 2];
    assert Slice(a, 2, 0) == a && Slice(a, 2, 5) == [];
  }

  /** A chunk that is sent again after it was recorded, and whose file cannot be written to the end (a full disk, say;
      a request that breaks off never gets that far), cuts the completed file short. */
  lemma TornRepeat()
    ensures var es := SixSteps(Writing(0, 0, Written, false), Recording(0, 0, false), Writing(0, 0, Torn(1), false));
            var w := Run(EMPTY, es);
            Faithful(w, 0, [1, 2]) && InRange(w, 0) && 0 in w.server.files && w.server.files[0].content == [1]
  {
    hide Next, Piece;
    RunSix(Writing(0, 0, Written, false), Recording(0, 0, false), Writing(0, 0, Torn(1), false));
    PiecesOfOne();
    OneChunkOpened();
    OneChunkWritten({}, map[], {}, 0, Written);
    OneChunkRecorded({}, map[0 := [1, 2]], {(0, 0)}, 0);
    OneChunkWritten({0}, map[0 := [1, 2]], {(0, 0)}, 0, Torn(1));
    assert {} + {(0, 0)} == {(0, 0)} && {} + {0} == {0};
    assert map[][0 := [1, 2]] == map[0 := [1, 2]] && map[0 := [1, 2]][0 := [1]] == map[0 := [1]];
    TornAssembled({0}, map[0 := [1]], {(0, 0)});
    assert Indices(1) == {0};
  }

  /** A chunk index that the file does not have is accepted and counted: the gate opens though the only chunk
      could not be written to the end, and the completed file is cut short. */
  lemma OutOfRangeIndex()
    ensures var es := SixSteps(Writing(0, 0, Torn(1), false), Writing(0, 5, Written, false), Recording(0, 5, false));
            var w := Run(EMPTY, es);
            Faithful(w, 0, [1, 2]) && !InRange(w, 0) && 0 in w.server.files && w.server.files[0].content == [1]
  {
    hide Next, Piece;
    RunSix(Writing(0, 0, Torn(1), false), Writing(0, 5, Written, false), Recording(0, 5, false));
    PiecesOfOne();
    OneChunkOpened();
    OneChunkWritten({}, map[], {}, 0, Torn(1));
    OneChunkWritten({}, map[0 := [1]], {}, 5, Written);
    OneChunkRecorded({}, map[0 := [1], 5 := []], {(0, 5)}, 5);
    assert {} + {(0, 5)} == {(0, 5)} && {} + {5} == {5};
    assert map[][0 := [1]] == map[0 := [1]] && map[0 := [1]][5 := []] == map[0 := [1], 5 := []];
    TornAssembled({5}, map[0 := [1], 5 := []], {(0, 5)});
    assert 5 !in Indices(1);
  }
}
