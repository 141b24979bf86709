/** One browser's upload on top of the protocol: what the return of uploadAll means for the server. */
module ResumedUpload {
  import opened Basics
  import opened Slices
  import opened UploadProtocol
  import UploadPool

  lemma {:induction false} RunExtends(w: World, es: seq<Event>)
    ensures Extends(w, Run(w, es))
  {
    hide Next, SameTerms;
    if es == [] {
      SameTermsReflexive(w);
    } else {
      var n := |es| - 1;
      RunExtends(w, es[..n]);
      StepExtends(Run(w, es[..n]), es[n]);
      ExtendsTransitive(w, Run(w, es[..n]), Run(w, es));
    }
  }

  lemma SameTermsReflexive(w: World)
    ensures Extends(w, w)
  {
  }

  lemma ExtendsTransitive(u: World, v: World, w: World)
    requires Extends(u, v) && Extends(v, w)
    ensures Extends(u, w)
  {
    forall sid | sid in u.server.sessions
      ensures sid in w.server.sessions && SameTerms(u.server.sessions[sid], w.server.sessions[sid])
    {
      assert SameTerms(u.server.sessions[sid], v.server.sessions[sid]);
      assert SameTerms(v.server.sessions[sid], w.server.sessions[sid]);
    }
  }

  /** Some handler of the run stored the chunk whole and then recorded it. (It answers "received" as well when
      recording fails.) */
  ghost predicate Inserted(es: seq<Event>, sid: Sid, i: nat) {
    exists k :: 0 <= k < |es| && InsertedAt(es, sid, i, k)
  }

  ghost predicate InsertedAt(es: seq<Event>, sid: Sid, i: nat, k: nat)
    requires k < |es|
  {
    es[k] == Recording(sid, i, false) && (sid, i) in Run(EMPTY, es[..k]).whole
  }

  lemma InsertedSnoc(es: seq<Event>, e: Event, sid: Sid, i: nat)
    ensures Inserted(es + [e], sid, i) <==>
            Inserted(es, sid, i) || (e == Recording(sid, i, false) && (sid, i) in Run(EMPTY, es).whole)
  {
    hide Run;
    var fs := es + [e];
    assert fs[..|es|] == es;
    if Inserted(es, sid, i) {
      var k :| 0 <= k < |es| && InsertedAt(es, sid, i, k);
      assert fs[..k] == es[..k];
      assert InsertedAt(fs, sid, i, k);
    }
    if Inserted(fs, sid, i) {
      var k :| 0 <= k < |fs| && InsertedAt(fs, sid, i, k);
      if k < |es| {
        assert fs[..k] == es[..k];
        assert InsertedAt(es, sid, i, k);
      }
    }
    if e == Recording(sid, i, false) && (sid, i) in Run(EMPTY, es).whole {
      assert InsertedAt(fs, sid, i, |es|);
    }
  }

  ghost predicate IsRecorded(w: World, sid: Sid, i: nat) {
    sid in w.server.sessions && i in w.server.sessions[sid].recorded
  }

  lemma RecordingRecords(w: World, e: Event, sid: Sid, i: nat)
    requires Inv(w)
    ensures IsRecorded(Next(w, e), sid, i) <==>
            IsRecorded(w, sid, i) || (e == Recording(sid, i, false) && (sid, i) in w.whole)
  {
    hide ChunkCount, Slice, SessionInv;
    if (sid, i) in w.whole { assert (sid, i).0 in w.server.sessions; }
  }

  /** In every run a chunk is recorded exactly when some insert for it has succeeded. */
  lemma {:induction false} RecordedIff(es: seq<Event>, sid: Sid, i: nat)
    ensures IsRecorded(Run(EMPTY, es), sid, i) <==> Inserted(es, sid, i)
  {
    hide Next, Inv, Inserted, IsRecorded;
    if es == [] {
      NothingRecorded(sid, i);
    } else {
      var n := |es| - 1;
      assert es == es[..n] + [es[n]];
      RecordedIff(es[..n], sid, i);
      RunsKeepInv(es[..n]);
      InsertedSnoc(es[..n], es[n], sid, i);
      RecordingRecords(Run(EMPTY, es[..n]), es[n], sid, i);
    }
  }

  lemma NothingRecorded(sid: Sid, i: nat)
    ensures !IsRecorded(EMPTY, sid, i) && !Inserted([], sid, i)
  {
  }

  lemma RecordedStays(es: seq<Event>, at: nat, sid: Sid)
    requires at <= |es| && sid in Run(EMPTY, es[..at]).server.sessions
    ensures var v, w := Run(EMPTY, es[..at]), Run(EMPTY, es);
            sid in w.server.sessions && SameTerms(v.server.sessions[sid], w.server.sessions[sid])
  {
    assert es == es[..at] + es[at..];
    RunAppend(EMPTY, es[..at], es[at..]);
    RunExtends(Run(EMPTY, es[..at]), es[at..]);
  }

  /** The browser's part: it asked for the status after the first `at` events, and its pool ran on what was
      missing then. */
  ghost predicate Browser(es: seq<Event>, at: nat, sid: Sid, concurrency: nat, steps: seq<UploadPool.Step>) {
    at <= |es| && sid in Run(EMPTY, es[..at]).server.sessions && concurrency > 0
    && UploadPool.Possible(Begin(Asked(es, at, sid), concurrency), steps)
    && UploadPool.Joined(UploadPool.After(Begin(Asked(es, at, sid), concurrency), steps))
  }

  /** The session as the status query saw it. */
  function Asked(es: seq<Event>, at: nat, sid: Sid): Session
    requires at <= |es| && sid in Run(EMPTY, es[..at]).server.sessions
  {
    Run(EMPTY, es[..at]).server.sessions[sid]
  }

  function Begin(s: Session, concurrency: nat): UploadPool.Pool {
    UploadPool.Start(UploadPool.MissingOf(Chunks(s), s.recorded), concurrency, s.recorded)
  }

  ghost function Ending(es: seq<Event>, at: nat, sid: Sid, concurrency: nat, steps: seq<UploadPool.Step>,
                        ok: (nat, nat) -> bool): (UploadPool.Outcome, UploadPool.Progressing)
    requires Browser(es, at, sid, concurrency, steps)
  {
    UploadPool.Finish(UploadPool.After(Begin(Asked(es, at, sid), concurrency), steps), ok)
  }

  /** Of what the browser counts as received since, every row insert succeeded. */
  ghost predicate NoRowLost(es: seq<Event>, at: nat, sid: Sid, received: set<nat>)
    requires at <= |es| && sid in Run(EMPTY, es[..at]).server.sessions
  {
    forall i :: i in received - Asked(es, at, sid).recorded && i < Chunks(Asked(es, at, sid)) ==> Inserted(es, sid, i)
  }

  /** When uploadAll returns normally, every chunk is recorded exactly when no row insert was lost, whatever else
      happened meanwhile. */
  lemma ReturnMeansRecorded(es: seq<Event>, at: nat, sid: Sid, concurrency: nat, steps: seq<UploadPool.Step>,
                            ok: (nat, nat) -> bool)
    requires Browser(es, at, sid, concurrency, steps) && Ending(es, at, sid, concurrency, steps, ok).0.Returned?
    ensures var w := Run(EMPTY, es);
            sid in w.server.sessions
            && (Indices(Chunks(w.server.sessions[sid])) <= w.server.sessions[sid].recorded <==>
                NoRowLost(es, at, sid, Ending(es, at, sid, concurrency, steps, ok).1.received))
  {
    hide Run, UploadPool.Finish, UploadPool.After, UploadPool.Possible, UploadPool.Joined, Inserted;
    var s := Asked(es, at, sid);
    var received := Ending(es, at, sid, concurrency, steps, ok).1.received;
    UploadPool.EveryChunkReceived(Chunks(s), concurrency, s.recorded, steps, ok);
    RecordedStays(es, at, sid);
    forall i: nat ensures IsRecorded(Run(EMPTY, es), sid, i) <==> Inserted(es, sid, i) { RecordedIff(es, sid, i); }
    AllRecordedIff(Indices(Chunks(s)), received, s.recorded, Run(EMPTY, es).server.sessions[sid].recorded);
  }

  lemma AllRecordedIff(all: set<nat>, received: set<nat>, before: set<nat>, recorded: set<nat>)
    requires all <= received && before <= recorded
    ensures all <= recorded <==> forall i :: i in received - before && i in all ==> i in recorded
  {
  }

  /** Then the gate is open and completing succeeds, provided that the count of chunks is not negative, no index was
      out of range and nobody has completed before; and it completes with the original file if the session's browsers
      cut the same slices, the count did not wrap and no stored chunk was torn. */
  lemma ReturnCompletes(es: seq<Event>, at: nat, sid: Sid, concurrency: nat, steps: seq<UploadPool.Step>,
                        ok: (nat, nat) -> bool, fid: Fid, origin: Bytes)
    requires Browser(es, at, sid, concurrency, steps) && Ending(es, at, sid, concurrency, steps, ok).0.Returned?
    requires NoRowLost(es, at, sid, Ending(es, at, sid, concurrency, steps, ok).1.received)
    requires var w := Run(EMPTY, es);
             InRange(w, sid) && !w.server.Assembled(sid) && fid !in w.server.files
    ensures var w := Run(EMPTY, es);
            var u := Next(Next(w, Passing(sid)), Assembling(sid, fid, false));
            sid in w.server.sessions && (Gate(w.server, sid) <==> w.server.sessions[sid].total >= 0)
            && (Gate(w.server, sid) ==> fid in u.server.files && u.server.files[fid].sid == sid)
            && (Faithful(w, sid, origin) && Unwrapped(w.server.sessions[sid]) && Careful(es, sid) ==>
                  fid in u.server.files && u.server.files[fid].content == origin)
  {
    hide Run, Browser, Ending, NoRowLost;
    ReturnMeansRecorded(es, at, sid, concurrency, steps, ok);
    var w := Run(EMPTY, es);
    GateMeansAll(w, sid);
    if Gate(w.server, sid) { GateSuffices(es, sid, fid); }
    if Faithful(w, sid, origin) && Unwrapped(w.server.sessions[sid]) && Careful(es, sid) {
      FaithfulTotal(w, sid, origin);
      AssembledIsOriginal(es, sid, origin);
      RunsKeepInv(es);
      CompletesWithOriginal(w, sid, fid, origin);
    }
  }

  lemma CompletesWithOriginal(w: World, sid: Sid, fid: Fid, origin: Bytes)
    requires Inv(w) && Faithful(w, sid, origin) && Exact(w, sid, origin) && InRange(w, sid)
    requires Gate(w.server, sid) && AllStored(w.server.sessions[sid]) && fid !in w.server.files
    requires Unwrapped(w.server.sessions[sid])
    ensures Next(Next(w, Passing(sid)), Assembling(sid, fid, false)).server.files[fid].content == origin
  {
    hide Next, Slice, ChunkCount, Total, Glue, Inv, Exact;
    var u := Next(w, Passing(sid));
    GatePassed(w, sid, fid);
    PassChangesLittle(w, sid);
    PassKeepsExact(w, Passing(sid), sid, origin);
    PassKeepsInv(w, Passing(sid));
    AssembleKeepsExact(u, Assembling(sid, fid, false), sid, origin);
    ExactFile(Next(u, Assembling(sid, fid, false)), sid, fid, origin);
  }

  lemma ExactFile(w: World, sid: Sid, fid: Fid, origin: Bytes)
    requires sid in w.server.sessions && Exact(w, sid, origin)
    ensures fid in w.server.files && w.server.files[fid].sid == sid ==> w.server.files[fid].content == origin
  {
  }

  lemma PassChangesLittle(w: World, sid: Sid)
    ensures var u := Next(w, Passing(sid)); u.server == w.server && u.clients == w.clients
  {
  }

  // A lost row.

  const TAKEN: seq<UploadPool.Step> := [UploadPool.Take(0), UploadPool.Succeed(0)] + [UploadPool.Stop(0)]

  /** A pool of one worker whose one chunk is answered for at once. */
  lemma OneSent()
    ensures var start := UploadPool.Start([0], 1, {});
            UploadPool.Possible(start, TAKEN) && UploadPool.Joined(UploadPool.After(start, TAKEN))
            && UploadPool.After(start, TAKEN).received == {0} && UploadPool.After(start, TAKEN).failed == []
  {
    var start := UploadPool.Start([0], 1, {});
    var one, two := [UploadPool.Take(0)], [UploadPool.Take(0), UploadPool.Succeed(0)];
    assert TAKEN[..2] == two && two[..1] == one && one[..0] == [];
    assert UploadPool.Possible(start, one);
    assert UploadPool.After(start, one) == UploadPool.Pool([0], 1, [], [UploadPool.Flying(0)], {}, [0]);
    assert UploadPool.Possible(start, two);
    assert UploadPool.After(start, two) == UploadPool.Pool([0], 1, [], [UploadPool.Ready], {0}, [0]);
    assert UploadPool.Possible(start, TAKEN);
    assert UploadPool.After(start, TAKEN) == UploadPool.Pool([0], 1, [], [UploadPool.Stopped], {0}, [0]);
  }

  /** The chunk is stored and answered for, but its row is lost: uploadAll returns normally, and the gate stays shut. */
  lemma LostRow(ok: (nat, nat) -> bool)
    ensures var es := [OPEN, Writing(0, 0, Written, false)] + [Recording(0, 0, true)];
            Browser(es, 1, 0, 1, TAKEN) && Ending(es, 1, 0, 1, TAKEN, ok).0.Returned?
            && !Gate(Run(EMPTY, es).server, 0)
  {
    var two := [OPEN, Writing(0, 0, Written, false)];
    var es := two + [Recording(0, 0, true)];
    assert es[..1] == [OPEN] && es[..2] == two && two[..1] == [OPEN] && [OPEN][..0] == [];
    OneSent();
    OneChunkOpened();
    OneChunkWritten({}, map[], {}, 0, Written);
    hide UploadPool.Possible, UploadPool.After, Piece;
    RunOne(EMPTY, OPEN);
    RunTwo(EMPTY, OPEN, Writing(0, 0, Written, false));
    RunAppend(EMPTY, two, [Recording(0, 0, true)]);
    RunOne(Run(EMPTY, two), Recording(0, 0, true));
    var s := Asked(es, 1, 0);
    assert UploadPool.MissingOf(1, {}) == UploadPool.MissingOf(0, {}) + [0];
    assert Begin(s, 1) == UploadPool.Start([0], 1, {});
    assert Run(EMPTY, es).server.sessions[0].recorded == {};
  }

  lemma RunOne(w: World, e: Event)
    ensures Run(w, [e]) == Next(w, e)
  {
    hide Next;
    assert Run(w, [e]) == Next(Run(w, [e][..0]), e);
  }
}
