/** The browser's upload pool: workers that share a cursor, then up to two rounds of retries. */
module UploadPool {
  import opened Basics

  // Between two awaits a worker runs alone, so each such stretch is one step.

  datatype Worker = Ready | Flying(idx: nat) | Stopped

  /** `sent` lists the indices whose upload was started, in order. */
  datatype Pool = Pool(
    missing: seq<nat>, cursor: nat, failed: seq<nat>, workers: seq<Worker>, received: set<nat>, sent: seq<nat>)

  datatype Step = Take(w: nat) | Succeed(w: nat) | Fail(w: nat) | Stop(w: nat)

  predicate Enabled(s: Pool, step: Step) {
    step.w < |s.workers| && s.cursor <= |s.missing| &&
    match step
    case Take(w) => s.workers[w].Ready? && s.cursor < |s.missing|
    case Succeed(w) => s.workers[w].Flying?
    case Fail(w) => s.workers[w].Flying?
    case Stop(w) => s.workers[w].Ready? && s.cursor >= |s.missing|
  }

  function Next(s: Pool, step: Step): Pool
    requires Enabled(s, step)
  {
    var w := step.w;
    match step
    case Take(_) =>
      var idx := s.missing[s.cursor];
      s.(cursor := s.cursor + 1, workers := s.workers[w := Flying(idx)], sent := s.sent + [idx])
    case Succeed(_) =>
      s.(received := s.received + {s.workers[w].idx}, workers := s.workers[w := Ready])
    case Fail(_) =>
      s.(failed := s.failed + [s.workers[w].idx], workers := s.workers[w := Ready])
    case Stop(_) =>
      s.(workers := s.workers[w := Stopped])
  }

  function Start(missing: seq<nat>, concurrency: nat, received: set<nat>): Pool {
    Pool(missing, 0, [], seq(concurrency, _ => Ready), received, [])
  }

  predicate Possible(s: Pool, steps: seq<Step>)
    decreases |steps|, 0
  {
    steps == [] || (Possible(s, steps[..|steps| - 1]) && Enabled(After(s, steps[..|steps| - 1]), steps[|steps| - 1]))
  }

  function After(s: Pool, steps: seq<Step>): Pool
    requires Possible(s, steps)
    decreases |steps|, 1
  {
    if steps == [] then s else Next(After(s, steps[..|steps| - 1]), steps[|steps| - 1])
  }

  /** All workers have returned, which is what uploadAll waits for. */
  predicate Joined(s: Pool) { forall w :: 0 <= w < |s.workers| ==> s.workers[w].Stopped? }

  // What every step keeps.

  function Set(s: seq<nat>): set<nat> { set i | i in s }

  function Carries(w: Worker, k: nat): nat { if w == Flying(k) then 1 else 0 }

  /** How many workers are uploading index k. */
  function Flights(ws: seq<Worker>, k: nat): nat {
    if ws == [] then 0 else Flights(ws[..|ws| - 1], k) + Carries(ws[|ws| - 1], k)
  }

  lemma {:induction false} FlightsUpdate(ws: seq<Worker>, w: nat, x: Worker, k: nat)
    requires w < |ws|
    ensures Flights(ws[w := x], k) + Carries(ws[w], k) == Flights(ws, k) + Carries(x, k)
  {
    var n, us := |ws| - 1, ws[w := x];
    if w == n {
      assert us[..n] == ws[..n];
    } else {
      assert us[..n] == ws[..n][w := x];
      FlightsUpdate(ws[..n], w, x, k);
    }
  }

  lemma {:induction false} NothingInFlight(ws: seq<Worker>, k: nat)
    requires forall w :: 0 <= w < |ws| ==> !ws[w].Flying?
    ensures Flights(ws, k) == 0
  {
    if ws != [] { NothingInFlight(ws[..|ws| - 1], k); }
  }

  lemma {:induction false} FlightsOf(ws: seq<Worker>, w: nat)
    requires w < |ws| && ws[w].Flying?
    ensures Flights(ws, ws[w].idx) >= 1
  {
    if w < |ws| - 1 {
      assert ws[..|ws| - 1][w] == ws[w];
      FlightsOf(ws[..|ws| - 1], w);
    }
  }

  /** What was taken is the disjoint union of what has been received since, what is in flight and what failed,
      and every taken index was started once, in order. */
  ghost predicate Inv(s: Pool, before: set<nat>) {
    s.cursor <= |s.missing| && s.sent == s.missing[..s.cursor]
    && before <= s.received
    && (forall k: nat :: Balanced(s, before, k))
    && forall w :: 0 <= w < |s.workers| && s.workers[w].Stopped? ==> s.cursor == |s.missing|
  }

  lemma {:induction false} DistinctCount(s: seq<nat>, k: nat)
    requires Distinct(s)
    ensures multiset(s)[k] == if k in s then 1 else 0
  {
    if s != [] {
      var n := |s| - 1;
      DistinctCount(s[..n], k);
      assert s == s[..n] + [s[n]];
    }
  }

  /** Index k was taken as often as it has been received since, is in flight or failed. */
  ghost predicate Balanced(s: Pool, before: set<nat>, k: nat)
    requires s.cursor <= |s.missing|
  {
    multiset(s.missing[..s.cursor])[k]
    == (if k in s.received - before then 1 else 0) + Flights(s.workers, k) + multiset(s.failed)[k]
  }

  lemma StepKeepsInv(s: Pool, step: Step, before: set<nat>)
    requires Inv(s, before) && Enabled(s, step) && Distinct(s.missing) && Set(s.missing) !! before
    ensures Inv(Next(s, step), before)
  {
    var t := Next(s, step);
    forall k: nat ensures Balanced(t, before, k) { StepKeepsBalance(s, step, before, k); }
    hide Balanced, Distinct, Set;
    if step.Take? {
      assert s.missing[..t.cursor] == s.missing[..s.cursor] + [s.missing[s.cursor]];
    }
    assert forall w :: 0 <= w < |s.workers| && t.workers[w].Stopped? ==> w == step.w || s.workers[w].Stopped?;
  }

  lemma StepKeepsBalance(s: Pool, step: Step, before: set<nat>, k: nat)
    requires Inv(s, before) && Enabled(s, step) && Distinct(s.missing) && Set(s.missing) !! before
    ensures Balanced(Next(s, step), before, k)
  {
    var t := Next(s, step);
    assert Balanced(s, before, k);
    FlightsUpdate(s.workers, step.w, t.workers[step.w], k);
    if step.Succeed? { TakenIsNew(s, step.w, before); }
    hide Inv, Flights, Distinct, Set;
    if step.Take? {
      assert s.missing[..t.cursor] == s.missing[..s.cursor] + [s.missing[s.cursor]];
      CountSnoc(s.missing[..s.cursor], s.missing[s.cursor], k);
    } else if step.Fail? {
      CountSnoc(s.failed, s.workers[step.w].idx, k);
    }
  }

  lemma CountSnoc(s: seq<nat>, x: nat, k: nat)
    ensures multiset(s + [x])[k] == multiset(s)[k] + if x == k then 1 else 0
  {
  }

  lemma TakenIsNew(s: Pool, w: nat, before: set<nat>)
    requires Inv(s, before) && Distinct(s.missing) && Set(s.missing) !! before
    requires w < |s.workers| && s.workers[w].Flying?
    ensures s.workers[w].idx !in s.received
  {
    var idx, taken := s.workers[w].idx, s.missing[..s.cursor];
    DistinctCount(taken, idx);
    FlightsOf(s.workers, w);
    assert Balanced(s, before, idx);
    assert idx in taken && idx in Set(s.missing);
  }

  /** In every interleaving. */
  lemma {:induction false} RunsKeepInv(missing: seq<nat>, concurrency: nat, received: set<nat>, steps: seq<Step>)
    requires Distinct(missing) && Set(missing) !! received
    requires Possible(Start(missing, concurrency, received), steps)
    ensures var s := After(Start(missing, concurrency, received), steps);
            Inv(s, received) && s.missing == missing && |s.workers| == concurrency
  {
    var start := Start(missing, concurrency, received);
    if steps == [] {
      forall k: nat ensures Balanced(start, received, k) { NothingInFlight(start.workers, k); }
    } else {
      var n := |steps| - 1;
      RunsKeepInv(missing, concurrency, received, steps[..n]);
      StepKeepsInv(After(start, steps[..n]), steps[n], received);
    }
  }

  // The pool ends.

  function WorkersLeft(ws: seq<Worker>): nat {
    if ws == [] then 0
    else WorkersLeft(ws[..|ws| - 1])
         + match ws[|ws| - 1] { case Flying(_) => 2 case Ready => 1 case Stopped => 0 }
  }

  function StepsLeft(s: Pool): int { 3 * (|s.missing| - s.cursor) + WorkersLeft(s.workers) }

  lemma {:induction false} WorkersLeftUpdate(ws: seq<Worker>, w: nat, x: Worker)
    requires w < |ws|
    ensures WorkersLeft(ws[w := x]) == WorkersLeft(ws) + WorkersLeft([x]) - WorkersLeft([ws[w]])
  {
    var n := |ws| - 1;
    assert [x][..0] == [] && [ws[w]][..0] == [];
    if w == n {
      assert ws[w := x][..n] == ws[..n];
    } else {
      assert ws[w := x][..n] == ws[..n][w := x];
      WorkersLeftUpdate(ws[..n], w, x);
    }
  }

  /** Every step brings the end nearer, and until all workers have returned there is one to take. */
  lemma StepsDecrease(s: Pool, step: Step)
    requires Enabled(s, step)
    ensures 0 <= StepsLeft(Next(s, step)) < StepsLeft(s)
  {
    var t := Next(s, step);
    WorkersLeftUpdate(s.workers, step.w, t.workers[step.w]);
    assert [s.workers[step.w]][..0] == [] && [t.workers[step.w]][..0] == [];
  }

  lemma Progress(s: Pool)
    requires s.cursor <= |s.missing|
    ensures Joined(s) <==> forall step :: !Enabled(s, step)
  {
    if !Joined(s) {
      var w :| 0 <= w < |s.workers| && !s.workers[w].Stopped?;
      assert Enabled(s, Take(w)) || Enabled(s, Succeed(w)) || Enabled(s, Stop(w));
    }
  }

  lemma {:induction false} AllReady(n: nat)
    ensures WorkersLeft(seq(n, _ => Ready)) == n
  {
    if n > 0 {
      AllReady(n - 1);
      var ws: seq<Worker> := seq(n, _ => Ready);
      assert ws[..n - 1] == seq(n - 1, _ => Ready);
    }
  }

  /** No interleaving takes more than three steps an index and one a worker. */
  lemma {:induction false} RunsEnd(missing: seq<nat>, concurrency: nat, received: set<nat>, steps: seq<Step>)
    requires Possible(Start(missing, concurrency, received), steps)
    ensures var left := StepsLeft(After(Start(missing, concurrency, received), steps));
            0 <= left && |steps| + left <= 3 * |missing| + concurrency
  {
    hide Next, Enabled;
    if steps == [] {
      AllReady(concurrency);
    } else {
      var n := |steps| - 1;
      RunsEnd(missing, concurrency, received, steps[..n]);
      StepsDecrease(After(Start(missing, concurrency, received), steps[..n]), steps[n]);
    }
  }

  // Retries, one index after another.

  /** The message of the exception carries the number of failed chunks and the first five. */
  datatype Outcome = Returned | Threw(count: nat, shown: seq<nat>)

  const SHOWN := 5

  function Report(failed: seq<nat>): Outcome {
    if failed == [] then Returned else Threw(|failed|, failed[..Min(SHOWN, |failed|)])
  }

  datatype Progressing = Progressing(received: set<nat>, failed: seq<nat>, sent: seq<nat>)

  /** One round; `ok` tells how the server answers. */
  function Round(received: set<nat>, failed: seq<nat>, ok: nat -> bool): Progressing {
    if failed == [] then Progressing(received, [], [])
    else Tried(Round(received, failed[..|failed| - 1], ok), failed[|failed| - 1], ok)
  }

  /** A round on top of what was tried before. */
  function Sofar(received: set<nat>, sent: seq<nat>, failed: seq<nat>, round: nat, ok: (nat, nat) -> bool)
    : Progressing
  {
    var r := Round(received, failed, (k: nat) => ok(round, k));
    Progressing(r.received, r.failed, sent + r.sent)
  }

  const ROUNDS := 2

  function Retries(p: Progressing, round: nat, ok: (nat, nat) -> bool): Progressing
    decreases ROUNDS - round
  {
    if round < ROUNDS && |p.failed| > 0 then
      Retries(Sofar(p.received, p.sent, p.failed, round, ok), round + 1, ok)
    else p
  }

  /** uploadAll after its workers have returned: how it ends, and what it leaves. */
  function Finish(s: Pool, ok: (nat, nat) -> bool): (Outcome, Progressing) {
    var q := Retries(Progressing(s.received, s.failed, s.sent), 0, ok);
    (Report(q.failed), q)
  }

  function Chosen(failed: seq<nat>, ok: nat -> bool, answer: bool): set<nat> {
    set i: nat | i in failed && ok(i) == answer
  }

  lemma ChosenSnoc(failed: seq<nat>, idx: nat, ok: nat -> bool, answer: bool)
    ensures Chosen(failed + [idx], ok, answer) == Chosen(failed, ok, answer) + if ok(idx) == answer then {idx} else {}
  {
  }

  function Tried(r: Progressing, idx: nat, ok: nat -> bool): Progressing {
    if idx in r.received then r
    else if ok(idx) then Progressing(r.received + {idx}, r.failed, r.sent + [idx])
    else Progressing(r.received, r.failed + [idx], r.sent + [idx])
  }

  /** Each failed index was tried once; what succeeded is received, the rest stays. */
  ghost predicate RoundDone(received: set<nat>, failed: seq<nat>, ok: nat -> bool, r: Progressing) {
    r.sent == failed && Distinct(r.failed)
    && r.received == received + Chosen(failed, ok, true) && Set(r.failed) == Chosen(failed, ok, false)
  }

  lemma TriedOneMore(received: set<nat>, front: seq<nat>, idx: nat, ok: nat -> bool, r: Progressing)
    requires RoundDone(received, front, ok, r) && idx !in front && idx !in received
    ensures RoundDone(received, front + [idx], ok, Tried(r, idx, ok))
  {
    ChosenSnoc(front, idx, ok, true);
    ChosenSnoc(front, idx, ok, false);
    assert idx !in r.received && idx !in Set(r.failed);
    hide Chosen;
    assert Set(r.failed + [idx]) == Set(r.failed) + {idx};
  }

  lemma {:induction false} RoundSplits(received: set<nat>, failed: seq<nat>, ok: nat -> bool)
    requires Distinct(failed) && Set(failed) !! received
    ensures RoundDone(received, failed, ok, Round(received, failed, ok))
  {
    if failed == [] {
      assert Chosen(failed, ok, true) == {} == Chosen(failed, ok, false);
    } else {
      var n := |failed| - 1;
      var idx := failed[n];
      assert failed == failed[..n] + [idx];
      assert idx in Set(failed) && idx !in failed[..n];
      RoundSplits(received, failed[..n], ok);
      TriedOneMore(received, failed[..n], idx, ok, Round(received, failed[..n], ok));
      hide RoundDone, Tried;
    }
  }

  ghost predicate Split(p: Progressing, left: nat, q: Progressing) {
    p.received <= q.received <= p.received + Set(p.failed)
    && Distinct(q.failed) && Set(q.failed) == Set(p.failed) - q.received
    && (forall k: nat :: TriedAgain(p, left, q, k))
  }

  /** How often an index has been tried after so many more rounds. */
  predicate TriedAgain(p: Progressing, left: nat, q: Progressing, k: nat) {
    var had, has := multiset(p.sent)[k], multiset(q.sent)[k];
    had <= has <= had + (if k in p.failed then left else 0)
    && (k in q.failed ==> has == had + left)
  }

  lemma RoundThenSplit(p: Progressing, left: nat, r: Progressing, q: Progressing)
    requires Distinct(p.failed) && r.sent == p.failed && Set(p.failed) !! p.received
    requires p.received <= r.received <= p.received + Set(p.failed) && Set(r.failed) == Set(p.failed) - r.received
    requires left > 0 && Split(Progressing(r.received, r.failed, p.sent + r.sent), left - 1, q)
    ensures Split(p, left, q)
  {
    var next := Progressing(r.received, r.failed, p.sent + r.sent);
    assert multiset(next.sent) == multiset(p.sent) + multiset(p.failed);
    forall k: nat ensures TriedAgain(p, left, q, k) {
      DistinctCount(p.failed, k);
      assert TriedAgain(next, left - 1, q, k);
      assert k in r.failed <==> k in Set(r.failed);
      assert k in q.failed <==> k in Set(q.failed);
    }
  }

  /** A retried index is tried once more a round until it succeeds; what is left is what was not received. */
  lemma {:induction false} RetriesSplit(p: Progressing, round: nat, ok: (nat, nat) -> bool)
    requires Distinct(p.failed) && Set(p.failed) !! p.received && round <= ROUNDS
    ensures Split(p, ROUNDS - round, Retries(p, round, ok))
    decreases ROUNDS - round
  {
    if round < ROUNDS && |p.failed| > 0 {
      var answer := (k: nat) => ok(round, k);
      RoundSplits(p.received, p.failed, answer);
      var r := Round(p.received, p.failed, answer);
      var next := Progressing(r.received, r.failed, p.sent + r.sent);
      RetriesSplit(next, round + 1, ok);
      RoundThenSplit(p, ROUNDS - round, r, Retries(next, round + 1, ok));
    }
  }

  // What uploadAll promises.

  lemma {:induction false} DistinctSize(s: seq<nat>)
    requires Distinct(s)
    ensures |Set(s)| == |s|
  {
    if s != [] {
      var n := |s| - 1;
      DistinctSize(s[..n]);
      assert s == s[..n] + [s[n]];
      assert Set(s) == Set(s[..n]) + {s[n]} && s[n] !in Set(s[..n]);
    }
  }

  /** What the outcome tells about the indices that were not received. */
  ghost predicate Tells(o: Outcome, left: set<nat>) {
    match o
    case Returned => left == {}
    case Threw(count, shown) =>
      count == |left| > 0 && Distinct(shown) && Set(shown) <= left && |shown| == Min(SHOWN, count)
      && (Set(shown) == left <==> count <= SHOWN)
  }

  lemma OnlyReturnTellsNothing(o: Outcome, left: set<nat>)
    requires Tells(o, left)
    ensures o.Returned? <==> left == {}
  {
  }

  lemma ReportTells(failed: seq<nat>)
    requires Distinct(failed)
    ensures Tells(Report(failed), Set(failed))
    ensures failed != [] ==>
              Report(failed) == Threw(|failed|, if |failed| <= 5 then failed else failed[..5])
  {
    var shown := failed[..Min(SHOWN, |failed|)];
    DistinctSize(failed);
    DistinctSize(shown);
    if failed != [] {
      assert failed[0] in Set(failed);
      if |failed| <= SHOWN {
        assert shown == failed;
      }
    }
  }

  /** However its workers interleave and whatever the server answers, with at least one worker: a normal
      return means that everything missing is received; an exception gives the number of chunks that are not,
      and the first five of them. Each missing index is tried once to three times, one that is still missing
      three times, any other never. */
  lemma UploadAllOutcome(missing: seq<nat>, concurrency: nat, received: set<nat>, steps: seq<Step>,
                         ok: (nat, nat) -> bool)
    requires Distinct(missing) && Set(missing) !! received && concurrency > 0
    requires Possible(Start(missing, concurrency, received), steps)
    requires Joined(After(Start(missing, concurrency, received), steps))
    ensures var (o, q) := Finish(After(Start(missing, concurrency, received), steps), ok);
            received <= q.received <= received + Set(missing)
            && Tells(o, Set(missing) - q.received)
            && (forall k: nat :: if k in missing then 1 <= multiset(q.sent)[k] <= 3 else multiset(q.sent)[k] == 0)
            && (forall k: nat :: k in Set(missing) - q.received ==> multiset(q.sent)[k] == 3)
  {
    hide Inv, Retries, After, Possible, Distinct, Tells, Report;
    RunsKeepInv(missing, concurrency, received, steps);
    var s := After(Start(missing, concurrency, received), steps);
    JoinedSplits(s, received);
    var p := Progressing(s.received, s.failed, s.sent);
    RetriesSplit(p, 0, ok);
    var (o, q) := Finish(s, ok);
    SetsOfOutcome(Set(missing), received, s.received, Set(s.failed), q.received);
    ReportTells(q.failed);
    forall k: nat
      ensures (if k in missing then 1 <= multiset(q.sent)[k] <= 3 else multiset(q.sent)[k] == 0)
              && (k in Set(missing) - q.received ==> multiset(q.sent)[k] == 3)
    {
      DistinctCount(missing, k);
      assert TriedAgain(p, ROUNDS, q, k);
      assert k in s.failed <==> k in Set(s.failed);
      assert k in missing <==> k in Set(missing);
      assert k in q.failed <==> k in Set(q.failed);
    }
  }

  lemma SetsOfOutcome(missing: set<nat>, before: set<nat>, joined: set<nat>, failed: set<nat>, end: set<nat>)
    requires before <= joined && joined - before == missing - failed && failed <= missing && missing !! before
    requires joined <= end <= joined + failed
    ensures before <= end <= before + missing
    ensures failed <= end <==> missing <= end
    ensures failed - end == missing - end
  {
    assert joined == before + (missing - failed);
  }

  lemma JoinedSplits(s: Pool, before: set<nat>)
    requires Inv(s, before) && Joined(s) && |s.workers| > 0 && Distinct(s.missing) && Set(s.missing) !! before
    ensures s.sent == s.missing && before <= s.received && Distinct(s.failed)
    ensures s.received - before == Set(s.missing) - Set(s.failed) && Set(s.failed) <= Set(s.missing)
    ensures Set(s.failed) !! s.received
  {
    assert s.workers[0].Stopped?;
    assert s.missing[..s.cursor] == s.missing;
    var f := multiset(s.failed);
    forall k: nat
      ensures (k in s.missing <==> k in s.received - before || k in s.failed)
              && !(k in s.received - before && k in s.failed) && f[k] <= 1
    {
      DistinctCount(s.missing, k);
      NothingInFlight(s.workers, k);
      assert Balanced(s, before, k);
      assert k in s.failed <==> f[k] > 0;
    }
    assert forall k: nat :: k in Set(s.missing) <==> k in s.missing;
    assert forall k: nat :: k in Set(s.failed) <==> k in s.failed;
    OnceMeansDistinct(s.failed);
  }

  lemma OnceMeansDistinct(s: seq<nat>)
    requires forall k: nat :: multiset(s)[k] <= 1
    ensures Distinct(s)
  {
    forall i, j | 0 <= i < j < |s| ensures s[i] != s[j] {
      var head, tail := s[..j], s[j..];
      assert s == head + tail;
      assert s[i] == head[i] && s[j] == tail[0];
      assert multiset(head)[s[i]] >= 1 && multiset(tail)[s[j]] >= 1;
      assert multiset(s)[s[i]] == multiset(head)[s[i]] + multiset(tail)[s[i]];
    }
  }

  /** Without a worker the pool returns at once, normally, with nothing new received. */
  lemma NoWorkers(missing: seq<nat>, received: set<nat>, ok: (nat, nat) -> bool)
    requires Set(missing) !! received
    ensures Joined(Start(missing, 0, received))
    ensures var (o, q) := Finish(Start(missing, 0, received), ok);
            o.Returned? && q.received == received && (Set(missing) <= q.received <==> missing == [])
  {
    if missing != [] { assert missing[0] in Set(missing); }
  }

  // Progress shown.

  function Uploaded(received: set<nat>, chunkSize: nat, fileSize: nat): int {
    Min(|received| * chunkSize, fileSize)
  }

  /** More received never shows less uploaded. */
  lemma UploadedGrows(r: set<nat>, t: set<nat>, chunkSize: nat, fileSize: nat)
    requires r <= t
    ensures Uploaded(r, chunkSize, fileSize) <= Uploaded(t, chunkSize, fileSize) <= fileSize
  {
    assert t == r + (t - r);
    assert |r| * chunkSize <= (|r| + |t - r|) * chunkSize;
  }

  lemma {:induction false} RunsOnlyReceive(s: Pool, steps: seq<Step>, k: nat)
    requires k <= |steps| && Possible(s, steps)
    ensures Possible(s, steps[..k]) && After(s, steps[..k]).received <= After(s, steps).received
    decreases |steps|
  {
    if k < |steps| {
      var n := |steps| - 1;
      assert steps[..n][..k] == steps[..k];
      RunsOnlyReceive(s, steps[..n], k);
    } else {
      assert steps[..k] == steps;
    }
  }

  lemma {:induction false} RoundReceives(received: set<nat>, failed: seq<nat>, ok: nat -> bool)
    ensures received <= Round(received, failed, ok).received
  {
    if failed != [] { RoundReceives(received, failed[..|failed| - 1], ok); }
  }

  lemma {:induction false} RetriesReceive(p: Progressing, round: nat, ok: (nat, nat) -> bool)
    ensures p.received <= Retries(p, round, ok).received
    decreases ROUNDS - round
  {
    if round < ROUNDS && |p.failed| > 0 {
      RoundReceives(p.received, p.failed, (k: nat) => ok(round, k));
      RetriesReceive(Sofar(p.received, p.sent, p.failed, round, ok), round + 1, ok);
    }
  }

  /** From any moment of the workers' phase to its end, and on to the end of the retries, the number of
      bytes shown as uploaded never decreases. */
  lemma UploadedNeverDecreases(s: Pool, steps: seq<Step>, k: nat, ok: (nat, nat) -> bool, chunkSize: nat, fileSize: nat)
    requires k <= |steps| && Possible(s, steps)
    ensures Possible(s, steps[..k])
    ensures Uploaded(After(s, steps[..k]).received, chunkSize, fileSize)
            <= Uploaded(After(s, steps).received, chunkSize, fileSize)
            <= Uploaded(Finish(After(s, steps), ok).1.received, chunkSize, fileSize) <= fileSize
  {
    hide After, Possible, Retries, Uploaded;
    RunsOnlyReceive(s, steps, k);
    var t := After(s, steps);
    RetriesReceive(Progressing(t.received, t.failed, t.sent), 0, ok);
    UploadedGrows(After(s, steps[..k]).received, t.received, chunkSize, fileSize);
    UploadedGrows(t.received, Finish(t, ok).1.received, chunkSize, fileSize);
  }

  // The task object.

  function MissingOf(total: nat, received: set<nat>): seq<nat> {
    if total == 0 then []
    else MissingOf(total - 1, received) + if total - 1 in received then [] else [total - 1]
  }

  lemma {:induction false} MissingIs(total: nat, received: set<nat>)
    ensures var m := MissingOf(total, received);
            Distinct(m) && Set(m) == Indices(total) - received
  {
    if total > 0 {
      MissingIs(total - 1, received);
      var m := MissingOf(total - 1, received);
      assert forall k :: k in m <==> k in Set(m);
      assert total - 1 !in Indices(total - 1) && total - 1 !in m;
    }
  }

  lemma NothingMissing(total: nat, received: set<nat>)
    ensures MissingOf(total, received) == [] <==> Indices(total) <= received
  {
    MissingIs(total, received);
    var m := MissingOf(total, received);
    if m != [] { assert m[0] in Set(m); }
    assert m == [] ==> Set(m) == {};
  }

  /** From what the server said to the end: a normal return means that every chunk of the file is received. */
  lemma EveryChunkReceived(total: nat, concurrency: nat, received: set<nat>, steps: seq<Step>, ok: (nat, nat) -> bool)
    requires concurrency > 0
    requires Possible(Start(MissingOf(total, received), concurrency, received), steps)
    requires Joined(After(Start(MissingOf(total, received), concurrency, received), steps))
    ensures var (o, q) := Finish(After(Start(MissingOf(total, received), concurrency, received), steps), ok);
            (o.Returned? <==> Indices(total) <= q.received)
            && Tells(o, Indices(total) - q.received)
  {
    hide Finish, After, Tells;
    MissingIs(total, received);
    var missing := MissingOf(total, received);
    UploadAllOutcome(missing, concurrency, received, steps, ok);
    var (o, q) := Finish(After(Start(missing, concurrency, received), steps), ok);
    assert Set(missing) - q.received == Indices(total) - q.received;
    OnlyReturnTellsNothing(o, Indices(total) - q.received);
  }

  class UploadTask {
    const chunkSize: nat
    const fileSize: nat
    const concurrency: nat
    var totalChunks: int
    var received: set<nat>
    var uploaded: int
    var missing: seq<nat>
    var cursor: nat
    var failed: seq<nat>
    var workers: seq<Worker>
    ghost var sent: seq<nat>

    ghost function View(): Pool reads this { Pool(missing, cursor, failed, workers, received, sent) }

    predicate Shown() reads this { uploaded == Uploaded(received, chunkSize, fileSize) }

    constructor (chunkSize: nat, fileSize: nat, concurrency: nat)
      ensures this.chunkSize == chunkSize && this.fileSize == fileSize && this.concurrency == concurrency
      ensures received == {} && Shown()
    {
      this.chunkSize, this.fileSize, this.concurrency := chunkSize, fileSize, concurrency;
      totalChunks, received, uploaded, missing, cursor, failed, workers, sent := 0, {}, 0, [], 0, [], [], [];
    }

    /** checkResumable: what the server has, if it answers. */
    method CheckResumable(answered: bool, chunks: seq<nat>)
      requires Shown()
      modifies this`received, this`uploaded
      ensures Shown() && received == if answered then Set(chunks) else old(received)
    {
      if !answered { return; }
      received := set i | i in chunks;
      uploaded := |received| * chunkSize;
      if uploaded > fileSize { uploaded := fileSize; }
    }

    /** The head of uploadAll: what is missing, and workers that have not started. */
    method Prepare()
      modifies this
      ensures View() == Start(MissingOf(Max(totalChunks, 0), received), concurrency, received)
      ensures totalChunks == old(totalChunks) && received == old(received) && uploaded == old(uploaded)
    {
      missing := [];
      var i := 0;
      while i < totalChunks
        invariant 0 <= i <= Max(totalChunks, 0) && missing == MissingOf(i, received)
        invariant totalChunks == old(totalChunks) && received == old(received) && uploaded == old(uploaded)
      {
        if i !in received { missing := missing + [i]; }
        i := i + 1;
      }
      cursor, failed, sent := 0, [], [];
      workers := seq(concurrency, _ => Ready);
    }

    /** The tail of uploadChunk. */
    method ChunkStored(idx: nat)
      requires Shown()
      modifies this`received, this`uploaded
      ensures received == old(received) + {idx}
      ensures Shown() && old(uploaded) <= uploaded
    {
      received := received + {idx};
      uploaded := Min(|received| * chunkSize, fileSize);
      UploadedGrows(old(received), received, chunkSize, fileSize);
    }

    /** One stretch of one worker. */
    method WorkerStep(step: Step)
      requires Shown() && Enabled(View(), step)
      modifies this
      ensures View() == Next(old(View()), step)
      ensures Shown() && old(uploaded) <= uploaded && totalChunks == old(totalChunks)
    {
      match step {
        case Take(w) =>
          var idx := missing[cursor];
          cursor, workers, sent := cursor + 1, workers[w := Flying(idx)], sent + [idx];
        case Succeed(w) =>
          ChunkStored(workers[w].idx);
          workers := workers[w := Ready];
        case Fail(w) =>
          failed := failed + [workers[w].idx];
          workers := workers[w := Ready];
        case Stop(w) =>
          workers := workers[w := Stopped];
      }
    }

    /** One round of retries. */
    method RetryRound(round: nat, ok: (nat, nat) -> bool)
      requires Shown()
      modifies this`received, this`uploaded, this`failed, this`sent
      ensures Progressing(received, failed, sent) == Sofar(old(received), old(sent), old(failed), round, ok)
      ensures Shown() && old(uploaded) <= uploaded
    {
      var stillFailed: seq<nat> := [];
      var n := 0;
      while n < |failed|
        invariant n <= |failed| && failed == old(failed)
        invariant Progressing(received, stillFailed, sent) == Sofar(old(received), old(sent), failed[..n], round, ok)
        invariant Shown() && old(uploaded) <= uploaded
      {
        assert failed[..n + 1][..n] == failed[..n];
        var idx := failed[n];
        n := n + 1;
        if idx in received { continue; }
        sent := sent + [idx];
        if ok(round, idx) {
          ChunkStored(idx);
        } else {
          stillFailed := stillFailed + [idx];
        }
      }
      assert failed[..|failed|] == failed;
      failed := stillFailed;
    }

    /** The rest of uploadAll. */
    method FinishUpload(ok: (nat, nat) -> bool) returns (o: Outcome)
      requires Shown()
      modifies this`received, this`uploaded, this`failed, this`sent
      ensures (o, Progressing(received, failed, sent)) == Finish(old(View()), ok)
      ensures Shown() && old(uploaded) <= uploaded
    {
      ghost var end := Finish(View(), ok).1;
      var retry := 0;
      while retry < 2 && |failed| > 0
        invariant retry <= 2 && Shown() && old(uploaded) <= uploaded
        invariant end == Retries(Progressing(received, failed, sent), retry, ok)
        decreases 2 - retry
      {
        RetryRound(retry, ok);
        retry := retry + 1;
      }
      if |failed| > 0 {
        return Threw(|failed|, failed[..Min(5, |failed|)]);
      }
      return Returned;
    }
  }
}
