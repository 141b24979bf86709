/** Refresh tokens: issued at login, rotated on every refresh, revoked singly or per user. */
module TokenRotation {
  import opened Basics

  /** Token ids; only their equality matters. */
  type Jti = nat

  /** A row of refresh_sessions. */
  datatype Session = Session(user: string, scope: string, revoked: bool, expires: int)

  /** The claims of a refresh token whose signature verifies. At the instant of expiry it no longer parses. */
  datatype Claims = Claims(jti: Jti, user: string, expires: int)

  datatype Grant = Grant(user: string, scope: string)

  /** Both stores are optional in the configuration of the manager. */
  datatype Config = Config(sessions: bool, blacklist: bool, refreshTtl: int)

  /** Which statements of one call fail. */
  datatype Faults = Faults(blacklistRead: bool, blacklistWrite: bool, read: bool, lookup: bool, sign: bool, write: bool)

  datatype Outcome =
    | Rotated(jti: Jti, user: string, scope: string)
    | InvalidToken
    | Blacklisted
    | NotFound
    | Revoked
    | UserMismatch
    | LookupFailed
    | SignFailed
    | StoreFailed

  /** The two stores, and the history that the theorems speak about: the login that started the
      lineage of every token, what each login granted, and the tokens rotated so far, in order. */
  datatype State = State(
    rows: map<Jti, Session>,
    blacklist: map<Jti, int>,
    lineage: map<Jti, Jti>,
    grants: map<Jti, Grant>,
    rotated: seq<Jti>)
  {
    /** GetSessionByJTI counts an expired session as revoked. */
    predicate Accepts(jti: Jti, now: int) {
      jti in rows && !rows[jti].revoked && now <= rows[jti].expires
    }

    predicate Live(jti: Jti) {
      jti in rows && !rows[jti].revoked
    }

    predicate IsBlacklisted(jti: Jti, now: int) {
      jti in blacklist && now <= blacklist[jti]
    }

    function RevokeWhere(which: set<Jti>): State {
      this.(rows := map j | j in rows :: if j in which then rows[j].(revoked := true) else rows[j])
    }

    function Of(user: string): set<Jti> {
      set j | j in rows && rows[j].user == user
    }
  }

  const EMPTY := State(map[], map[], map[], map[], [])

  // Each operation on the stores as a function of the state before.

  function Issue(s: State, c: Config, jti: Jti, user: string, scope: string, now: int, f: Faults): State {
    if f.sign || (c.sessions && f.write) then s
    else
      var t := s.(lineage := s.lineage[jti := jti], grants := s.grants[jti := Grant(user, scope)]);
      if c.sessions then t.(rows := s.rows[jti := Session(user, scope, false, now + c.refreshTtl)]) else t
  }

  /** RotateSession: in one transaction the old row is revoked and a row with its user and scope added. */
  function Commit(s: State, prior: Jti, next: Jti, expires: int): State
    requires prior in s.rows
  {
    var r := s.rows[prior];
    s.(rows := s.rows[prior := r.(revoked := true)][next := Session(r.user, r.scope, false, expires)],
       lineage := s.lineage[next := if prior in s.lineage then s.lineage[prior] else next],
       rotated := s.rotated + [prior])
  }

  function AddToBlacklist(s: State, c: Config, k: Claims, now: int, failed: bool): State {
    var until := if k.expires > now then k.expires else now + 3600;
    if c.blacklist && !failed then s.(blacklist := s.blacklist[k.jti := until]) else s
  }

  /** Looking up an expired entry of the blacklist deletes it. */
  function AfterLookup(s: State, c: Config, jti: Jti, now: int, failed: bool): State {
    if c.blacklist && !failed && jti in s.blacklist && !s.IsBlacklisted(jti, now) then
      s.(blacklist := s.blacklist - {jti})
    else s
  }

  function Rotate(s0: State, c: Config, token: Option<Claims>, next: Jti, now: int, f: Faults): (State, Outcome) {
    if token.None? || now >= token.value.expires then (s0, InvalidToken)
    else
      var k := token.value;
      var s := AfterLookup(s0, c, k.jti, now, f.blacklistRead);
      if c.blacklist && !f.blacklistRead && s.IsBlacklisted(k.jti, now) then (s, Blacklisted)
      else if c.sessions && (f.read || k.jti !in s.rows) then (s, NotFound)
      else if c.sessions && !s.Accepts(k.jti, now) then (s, Revoked)
      else if c.sessions && s.rows[k.jti].user != k.user then (s, UserMismatch)
      else if f.lookup then (s, LookupFailed)
      else if f.sign then (s, SignFailed)
      else if c.sessions && f.write then (s, StoreFailed)
      else
        var scope := if c.sessions then s.rows[k.jti].scope else "";
        var t := if c.sessions then Commit(s, k.jti, next, now + c.refreshTtl)
                 else s.(rotated := s.rotated + [k.jti]);
        (AddToBlacklist(t, c, k, now, f.blacklistWrite), Rotated(next, k.user, scope))
  }

  function Revoke(s: State, c: Config, token: Option<Claims>, now: int, f: Faults): State {
    if token.None? || now >= token.value.expires then s
    else
      var k := token.value;
      var t := if c.sessions && !f.write then s.RevokeWhere({k.jti}) else s;
      if k.expires > now then AddToBlacklist(t, c, k, now, f.blacklistWrite) else t
  }

  function RevokeAll(s: State, c: Config, user: string, f: Faults): State {
    if c.sessions && !f.write then s.RevokeWhere(s.Of(user)) else s
  }

  /** Deleting a user deletes the sessions of that user. */
  function DeleteUser(s: State, user: string): State {
    s.(rows := s.rows - s.Of(user))
  }

  // The manager.

  class RefreshTokenManager {
    const config: Config
    var rows: map<Jti, Session>
    var blacklist: map<Jti, int>
    ghost var lineage: map<Jti, Jti>
    ghost var grants: map<Jti, Grant>
    ghost var rotated: seq<Jti>

    ghost function View(): State
      reads this
    {
      State(rows, blacklist, lineage, grants, rotated)
    }

    constructor (config: Config)
      ensures this.config == config && View() == EMPTY
    {
      this.config := config;
      rows, blacklist := map[], map[];
      lineage, grants, rotated := map[], map[], [];
    }

    method IssueTokenPair(jti: Jti, user: string, scope: string, now: int, f: Faults) returns (ok: bool)
      modifies this
      ensures View() == Issue(old(View()), config, jti, user, scope, now, f)
      ensures ok == !(f.sign || (config.sessions && f.write))
    {
      if f.sign {
        return false;
      }
      if config.sessions {
        if f.write {
          return false;
        }
        rows := rows[jti := Session(user, scope, false, now + config.refreshTtl)];
      }
      lineage, grants := lineage[jti := jti], grants[jti := Grant(user, scope)];
      ok := true;
    }

    method RotateTokens(token: Option<Claims>, next: Jti, now: int, f: Faults) returns (r: Outcome)
      modifies this
      ensures (View(), r) == Rotate(old(View()), config, token, next, now, f)
    {
      if token.None? || now >= token.value.expires {
        return InvalidToken;
      }
      var k := token.value;
      if config.blacklist && !f.blacklistRead {
        if k.jti in blacklist {
          if now > blacklist[k.jti] {
            blacklist := blacklist - {k.jti};
          } else {
            return Blacklisted;
          }
        }
      }
      var scope := "";
      if config.sessions {
        if f.read || k.jti !in rows {
          return NotFound;
        }
        var row := rows[k.jti];
        if row.revoked || now > row.expires {
          return Revoked;
        }
        if row.user != k.user {
          return UserMismatch;
        }
        scope := row.scope;
      }
      if f.lookup {
        return LookupFailed;
      }
      if f.sign {
        return SignFailed;
      }
      if config.sessions {
        if f.write {
          return StoreFailed;
        }
        var row := rows[k.jti];
        rows := rows[k.jti := row.(revoked := true)];
        rows := rows[next := Session(row.user, row.scope, false, now + config.refreshTtl)];
        lineage := lineage[next := if k.jti in lineage then lineage[k.jti] else next];
      }
      rotated := rotated + [k.jti];
      if config.blacklist && !f.blacklistWrite {
        var until := if k.expires > now then k.expires else now + 3600;
        blacklist := blacklist[k.jti := until];
      }
      r := Rotated(next, k.user, scope);
    }

    method RevokeRefreshToken(token: Option<Claims>, now: int, f: Faults)
      modifies this
      ensures View() == Revoke(old(View()), config, token, now, f)
    {
      if token.None? || now >= token.value.expires {
        return;
      }
      var k := token.value;
      if config.sessions && !f.write {
        rows := map j | j in rows :: if j == k.jti then rows[j].(revoked := true) else rows[j];
      }
      if config.blacklist && k.expires > now && !f.blacklistWrite {
        blacklist := blacklist[k.jti := k.expires];
      }
    }

    method RevokeAllUserTokens(user: string, f: Faults) returns (ok: bool)
      modifies this
      ensures View() == RevokeAll(old(View()), config, user, f)
      ensures ok == (config.sessions && !f.write)
    {
      if !config.sessions || f.write {
        return false;
      }
      rows := map j | j in rows :: if rows[j].user == user then rows[j].(revoked := true) else rows[j];
      ok := true;
    }
  }

  // Runs of calls, each treated as one step.

  datatype Call =
    | DoIssue(jti: Jti, user: string, scope: string)
    | DoRotate(token: Option<Claims>, next: Jti)
    | DoRevoke(token: Option<Claims>)
    | DoRevokeAll(user: string)
    | DoDeleteUser(user: string)

  datatype Event = Event(call: Call, now: int, faults: Faults)

  function Apply(s: State, c: Config, e: Event): State {
    match e.call
    case DoIssue(jti, user, scope) => Issue(s, c, jti, user, scope, e.now, e.faults)
    case DoRotate(token, next) => Rotate(s, c, token, next, e.now, e.faults).0
    case DoRevoke(token) => Revoke(s, c, token, e.now, e.faults)
    case DoRevokeAll(user) => RevokeAll(s, c, user, e.faults)
    case DoDeleteUser(user) => DeleteUser(s, user)
  }

  /** The random ids a call draws have never been drawn before. */
  predicate DrawsFresh(s: State, e: Event) {
    match e.call
    case DoIssue(jti, _, _) => jti !in s.lineage && jti !in s.grants
    case DoRotate(_, next) => next !in s.lineage
    case _ => true
  }

  function RunFrom(s: State, c: Config, events: seq<Event>): State
    decreases |events|
  {
    if events == [] then s else RunFrom(Apply(s, c, events[0]), c, events[1..])
  }

  predicate AllFresh(s: State, c: Config, events: seq<Event>)
    decreases |events|
  {
    events == [] || (DrawsFresh(s, events[0]) && AllFresh(Apply(s, c, events[0]), c, events[1..]))
  }

  /** At most one token of each lineage is live. */
  ghost predicate OneLive(s: State) {
    forall i, j :: s.Live(i) && s.Live(j) && i in s.lineage && j in s.lineage && s.lineage[i] == s.lineage[j] ==> i == j
  }

  /** The user and the scope of every row are those the login of its lineage granted. */
  ghost predicate GrantKept(s: State) {
    forall j :: j in s.rows ==>
      j in s.lineage && s.lineage[j] in s.grants && s.grants[s.lineage[j]] == Grant(s.rows[j].user, s.rows[j].scope)
  }

  ghost predicate Inv(s: State) {
    && Distinct(s.rotated) && OneLive(s) && GrantKept(s)
    && forall i :: 0 <= i < |s.rotated| ==> s.rotated[i] in s.lineage && !s.Live(s.rotated[i])
  }

  /** t keeps the history of s and only loses live rows; nothing is said of the blacklist. */
  ghost predicate Weaker(s: State, t: State) {
    && t.rotated == s.rotated && t.lineage == s.lineage && t.grants == s.grants
    && forall j :: j in t.rows ==>
         j in s.rows && t.rows[j].user == s.rows[j].user && t.rows[j].scope == s.rows[j].scope
         && (s.rows[j].revoked ==> t.rows[j].revoked)
  }

  lemma WeakerKeepsInv(s: State, t: State)
    requires Inv(s) && Weaker(s, t)
    ensures Inv(t)
  {
    hide Distinct;
    assert forall j :: t.Live(j) ==> s.Live(j);
  }

  lemma DistinctSnoc(s: seq<Jti>, x: Jti)
    requires Distinct(s)
    ensures Distinct(s + [x]) <==> x !in s
  {
    if x in s {
      var i :| 0 <= i < |s| && s[i] == x;
      assert (s + [x])[i] == (s + [x])[|s|];
    }
  }

  /** A rotation of a live session keeps the invariant. */
  lemma CommitKeepsInv(s: State, prior: Jti, next: Jti, expires: int)
    requires Inv(s) && s.Live(prior) && next !in s.lineage
    ensures Inv(Commit(s, prior, next, expires))
  {
    var t := Commit(s, prior, next, expires);
    hide Distinct;
    DistinctSnoc(s.rotated, prior);
    CommitLive(s, prior, next, expires);
    assert OneLive(t) by {
      assert forall j :: s.Live(j) && s.lineage[j] == s.lineage[prior] ==> j == prior;
    }
    assert GrantKept(t);
    forall i | 0 <= i < |t.rotated| ensures t.rotated[i] in t.lineage && !t.Live(t.rotated[i]) {
      assert i < |s.rotated| ==> !s.Live(s.rotated[i]);
    }
  }

  lemma CommitLive(s: State, prior: Jti, next: Jti, expires: int)
    requires prior in s.rows && next !in s.rows
    ensures forall j :: Commit(s, prior, next, expires).Live(j) <==> j == next || (s.Live(j) && j != prior)
  {
  }

  lemma IssueKeepsInv(s: State, c: Config, jti: Jti, user: string, scope: string, now: int, f: Faults)
    requires c.sessions && Inv(s) && jti !in s.lineage && jti !in s.grants
    ensures Inv(Issue(s, c, jti, user, scope, now, f))
  {
    hide Distinct;
    var t := Issue(s, c, jti, user, scope, now, f);
    assert forall j :: t.Live(j) ==> s.Live(j) || j == jti;
  }

  lemma BlacklistOnly(s: State, c: Config, k: Claims, now: int, failed: bool)
    ensures Weaker(s, AddToBlacklist(s, c, k, now, failed)) && Weaker(s, AfterLookup(s, c, k.jti, now, failed))
  {
  }

  /** A rotation is a look at the blacklist, and then, if it succeeds, a commit and a blacklist entry. */
  lemma RotateIs(s: State, c: Config, token: Option<Claims>, next: Jti, now: int, f: Faults)
    requires c.sessions
    ensures var (t, r) := Rotate(s, c, token, next, now, f);
            t == s || (token.Some? &&
                       var k := token.value;
                       var u := AfterLookup(s, c, k.jti, now, f.blacklistRead);
                       if r.Rotated? then u.Accepts(k.jti, now)
                         && t == AddToBlacklist(Commit(u, k.jti, next, now + c.refreshTtl), c, k, now, f.blacklistWrite)
                       else t == u)
  {
    hide Commit, AddToBlacklist, AfterLookup;
  }

  lemma RotateKeepsInv(s: State, c: Config, token: Option<Claims>, next: Jti, now: int, f: Faults)
    requires c.sessions && Inv(s) && next !in s.lineage
    ensures Inv(Rotate(s, c, token, next, now, f).0)
  {
    hide Inv, Rotate, Commit, AddToBlacklist, AfterLookup;
    RotateIs(s, c, token, next, now, f);
    var (t, r) := Rotate(s, c, token, next, now, f);
    if t != s {
      var k := token.value;
      var u := AfterLookup(s, c, k.jti, now, f.blacklistRead);
      BlacklistOnly(s, c, k, now, f.blacklistRead);
      WeakerKeepsInv(s, u);
      if r.Rotated? {
        var v := Commit(u, k.jti, next, now + c.refreshTtl);
        AcceptedIsLive(u, k.jti, now);
        CommitKeepsInv(u, k.jti, next, now + c.refreshTtl);
        BlacklistOnly(v, c, k, now, f.blacklistWrite);
        WeakerKeepsInv(v, t);
      }
    }
  }

  lemma AcceptedIsLive(s: State, jti: Jti, now: int)
    requires s.Accepts(jti, now)
    ensures s.Live(jti)
  {
  }

  lemma StepKeepsInv(s: State, c: Config, e: Event)
    requires c.sessions && Inv(s) && DrawsFresh(s, e)
    ensures Inv(Apply(s, c, e))
  {
    hide Inv, Rotate, Issue;
    match e.call
    case DoIssue(jti, user, scope) => IssueKeepsInv(s, c, jti, user, scope, e.now, e.faults);
    case DoRotate(token, next) => RotateKeepsInv(s, c, token, next, e.now, e.faults);
    case _ => WeakerKeepsInv(s, Apply(s, c, e));
  }

  /** Over every run with a session store, whatever the blacklist does: no token is rotated twice,
      each login lineage has at most one live token, and keeps its user and scope. */
  lemma {:induction false} RunsKeepInv(s: State, c: Config, events: seq<Event>)
    requires c.sessions && Inv(s) && AllFresh(s, c, events)
    ensures Inv(RunFrom(s, c, events))
    decreases |events|
  {
    hide Inv, Apply;
    if events != [] {
      StepKeepsInv(s, c, events[0]);
      RunsKeepInv(Apply(s, c, events[0]), c, events[1..]);
    }
  }

  lemma EmptyInv()
    ensures Inv(EMPTY)
  {
  }

  /** So it holds in every reachable state. */
  lemma ReachableInv(c: Config, events: seq<Event>)
    requires c.sessions && AllFresh(EMPTY, c, events)
    ensures Inv(RunFrom(EMPTY, c, events))
  {
    EmptyInv();
    RunsKeepInv(EMPTY, c, events);
  }

  /** A good token is accepted: the answer and the new row carry the user and the scope of its login. */
  lemma GoodTokenRotates(s: State, c: Config, k: Claims, next: Jti, now: int, f: Faults)
    requires c.sessions && Inv(s) && next !in s.lineage && f == Faults(false, false, false, false, false, false)
    requires k.jti in s.rows && !s.rows[k.jti].revoked && s.rows[k.jti].user == k.user
    requires now < k.expires <= s.rows[k.jti].expires && !(k.jti in s.blacklist && now <= s.blacklist[k.jti])
    ensures k.jti in s.lineage && s.lineage[k.jti] in s.grants
    ensures var g := s.grants[s.lineage[k.jti]];
            var (t, r) := Rotate(s, c, Some(k), next, now, f);
            r == Rotated(next, g.user, g.scope) && next in t.rows
            && t.rows[next] == Session(g.user, g.scope, false, now + c.refreshTtl)
            && t.rows[k.jti].revoked && t.lineage[next] == s.lineage[k.jti] && t.rotated == s.rotated + [k.jti]
            && forall j :: j in s.rows && j != k.jti ==> j in t.rows && t.rows[j] == s.rows[j]
  {
  }

  predicate Blocked(s: State, jti: Jti, now: int) { jti in s.blacklist && now <= s.blacklist[jti] }

  /** And exactly such a token: signed, not expired, not blacklisted as far as that can be read, its row live,
      unexpired and of the user it names, and nothing needed for the answer failing. */
  lemma RotatesIff(s: State, c: Config, token: Option<Claims>, next: Jti, now: int, f: Faults)
    ensures Rotate(s, c, token, next, now, f).1.Rotated? <==>
            token.Some? &&
            var k := token.value;
            now < k.expires && !(c.blacklist && !f.blacklistRead && Blocked(s, k.jti, now))
            && (c.sessions ==> !f.read && !f.write && k.jti in s.rows && !s.rows[k.jti].revoked
                               && now <= s.rows[k.jti].expires && s.rows[k.jti].user == k.user)
            && !f.lookup && !f.sign
  {
  }

  /** A refusal names its reason, and leaves everything but an expired blacklist entry as it was. */
  lemma RefusalsHaveReasons(s: State, c: Config, token: Option<Claims>, next: Jti, now: int, f: Faults)
    ensures var (t, r) := Rotate(s, c, token, next, now, f);
            !r.Rotated? ==>
              t.rows == s.rows && t.rotated == s.rotated && t.lineage == s.lineage && t.grants == s.grants
              && (r.InvalidToken? <==> token.None? || token.value.expires <= now)
              && (r.Blacklisted? ==> c.blacklist && Blocked(s, token.value.jti, now))
              && (r.NotFound? ==> c.sessions && (f.read || token.value.jti !in s.rows))
              && (r.Revoked? ==> c.sessions && token.value.jti in s.rows
                                 && (s.rows[token.value.jti].revoked || s.rows[token.value.jti].expires < now))
              && (r.UserMismatch? ==> c.sessions && token.value.jti in s.rows
                                      && s.rows[token.value.jti].user != token.value.user)
              && (r.LookupFailed? ==> f.lookup) && (r.SignFailed? ==> f.sign)
              && (r.StoreFailed? ==> c.sessions && f.write)
  {
  }

  /** What a call does to the blacklist: at most the entry of its own token, which expires with the token. */
  lemma BlacklistAfterRotate(s: State, c: Config, k: Claims, next: Jti, now: int, f: Faults)
    ensures var (t, r) := Rotate(s, c, Some(k), next, now, f);
            (forall j :: j != k.jti ==> (j in t.blacklist <==> j in s.blacklist)
                                        && (j in s.blacklist ==> t.blacklist[j] == s.blacklist[j]))
            && (r.Rotated? && c.blacklist && !f.blacklistWrite ==>
                  k.jti in t.blacklist && t.blacklist[k.jti] == k.expires)
            && (!c.blacklist ==> t.blacklist == s.blacklist)
            && (Blocked(s, k.jti, now) ==> Blocked(t, k.jti, now))
            && ((c.blacklist && !f.blacklistRead && k.jti in s.blacklist && s.blacklist[k.jti] < now < k.expires
                 && !r.Rotated?) ==> k.jti !in t.blacklist)
            && ((!c.blacklist || f.blacklistRead) && (!r.Rotated? || f.blacklistWrite) ==> t.blacklist == s.blacklist)
  {
  }

  /** Without a session store nothing is kept but the blacklist, and no scope is granted. */
  lemma RotateWithoutStore(s: State, c: Config, k: Claims, next: Jti, now: int, f: Faults)
    requires !c.sessions
    ensures var (t, r) := Rotate(s, c, Some(k), next, now, f);
            t.rows == s.rows && t.lineage == s.lineage
            && (r.Rotated? ==> r == Rotated(next, k.user, "") && t.rotated == s.rotated + [k.jti])
  {
  }

  /** A login is live at once, with the user and scope it was granted, unless signing or storing failed. */
  lemma IssueIsLive(s: State, c: Config, jti: Jti, user: string, scope: string, now: int, f: Faults)
    ensures var t := Issue(s, c, jti, user, scope, now, f);
            if f.sign || (f.write && c.sessions) then t == s
            else t.rows == (if c.sessions then s.rows[jti := Session(user, scope, false, now + c.refreshTtl)]
                            else s.rows)
                 && t.lineage == s.lineage[jti := jti] && t.grants == s.grants[jti := Grant(user, scope)]
                 && t.blacklist == s.blacklist && t.rotated == s.rotated
  {
  }

  /** A revocation touches one row and one blacklist entry, each where the store and its fault allow. */
  lemma RevokeDoes(s: State, c: Config, k: Claims, now: int, f: Faults, j: Jti)
    ensures var t := Revoke(s, c, Some(k), now, f);
            (j in t.rows <==> j in s.rows)
            && (j in s.rows ==> t.rows[j] == if j == k.jti && now < k.expires && c.sessions && !f.write
                                             then s.rows[j].(revoked := true) else s.rows[j])
            && (if j == k.jti && now < k.expires && c.blacklist && !f.blacklistWrite
                then j in t.blacklist && t.blacklist[j] == k.expires
                else (j in t.blacklist <==> j in s.blacklist)
                     && (j in s.blacklist ==> t.blacklist[j] == s.blacklist[j]))
            && t.rotated == s.rotated && t.lineage == s.lineage && t.grants == s.grants
    ensures Revoke(s, c, None, now, f) == s
  {
  }

  /** Revoking or deleting a user touches the rows of that user only. */
  lemma UserCallsDo(s: State, c: Config, user: string, f: Faults, j: Jti)
    ensures var t := RevokeAll(s, c, user, f);
            (j in t.rows <==> j in s.rows) && t.blacklist == s.blacklist
            && (j in s.rows ==> t.rows[j] == if c.sessions && !f.write && s.rows[j].user == user
                                             then s.rows[j].(revoked := true) else s.rows[j])
    ensures var t := DeleteUser(s, user);
            (j in t.rows <==> j in s.rows && s.rows[j].user != user) && t.blacklist == s.blacklist
            && (j in t.rows ==> t.rows[j] == s.rows[j])
  {
  }

  /** A run: a login, a refresh, a second refresh with the first token, which is refused. */
  lemma LoginAndRefresh(c: Config, f: Faults)
    requires c == Config(true, true, 100) && f == Faults(false, false, false, false, false, false)
    ensures var login := Event(DoIssue(1, "u", "read"), 0, f);
            var refresh := Event(DoRotate(Some(Claims(1, "u", 100)), 2), 1, f);
            var s := RunFrom(EMPTY, c, [login, refresh]);
            AllFresh(EMPTY, c, [login, refresh]) && s.Live(2) && !s.Live(1) && 2 in s.lineage && s.lineage[2] == 1
            && Rotate(s, c, Some(Claims(2, "u", 101)), 3, 2, f).1 == Rotated(3, "u", "read")
            && Rotate(s, c, Some(Claims(1, "u", 100)), 3, 2, f).1 == Blacklisted
  {
    var login := Event(DoIssue(1, "u", "read"), 0, f);
    var refresh := Event(DoRotate(Some(Claims(1, "u", 100)), 2), 1, f);
    assert [login, refresh][1..] == [refresh] && [refresh][1..] == [];
    var t := Apply(EMPTY, c, login);
    assert t.rows == map[1 := Session("u", "read", false, 100)] && t.lineage == map[1 := 1] && t.blacklist == map[];
    assert AllFresh(t, c, [refresh]);
    var s := Apply(t, c, refresh);
    assert RunFrom(t, c, [refresh]) == s;
  }

  /** No call brings a dead token back to life. */
  lemma DeadStaysDead(s: State, c: Config, e: Event, jti: Jti)
    requires DrawsFresh(s, e) && jti in s.lineage && !s.Live(jti)
    ensures jti in Apply(s, c, e).lineage && !Apply(s, c, e).Live(jti)
  {
    hide Rotate;
    match e.call
    case DoRotate(token, next) => RotateKeepsDead(s, c, token, next, e.now, e.faults, jti);
    case _ =>
  }

  lemma RotateKeepsDead(s: State, c: Config, token: Option<Claims>, next: Jti, now: int, f: Faults, jti: Jti)
    requires next !in s.lineage && jti in s.lineage && !s.Live(jti)
    ensures var t := Rotate(s, c, token, next, now, f).0; jti in t.lineage && !t.Live(jti)
  {
  }

  /** A token that was revoked, or rotated away, is refused after any further calls. */
  lemma {:induction false} NeverAcceptedAgain(s: State, c: Config, events: seq<Event>, k: Claims, next: Jti,
                                              now: int, f: Faults)
    requires c.sessions && k.jti in s.lineage && !s.Live(k.jti) && AllFresh(s, c, events)
    ensures !Rotate(RunFrom(s, c, events), c, Some(k), next, now, f).1.Rotated?
    decreases |events|
  {
    if events != [] {
      DeadStaysDead(s, c, events[0], k.jti);
      NeverAcceptedAgain(Apply(s, c, events[0]), c, events[1..], k, next, now, f);
    }
  }

  /** The row is revoked exactly when the token parses and the store accepts the write. */
  lemma RevocationEndsSession(s: State, c: Config, k: Claims, now: int, f: Faults)
    requires s.Live(k.jti)
    ensures !Revoke(s, c, Some(k), now, f).Live(k.jti) <==> c.sessions && !f.write && now < k.expires
  {
  }

  /** A revocation takes effect, on a rotation that would have succeeded, exactly when the session store
      accepted it, or the blacklist did and can be read. */
  lemma RevocationTakesEffect(s: State, c: Config, k: Claims, next: Jti, now: int, f: Faults, later: int, g: Faults)
    requires now <= later && Rotate(s, c, Some(k), next, later, g).1.Rotated?
    ensures !Rotate(Revoke(s, c, Some(k), now, f), c, Some(k), next, later, g).1.Rotated?
            <==> (c.sessions && !f.write) || (c.blacklist && !f.blacklistWrite && !g.blacklistRead)
  {
  }

  /** Revoking a user ends every session of that user and no other. */
  lemma RevokeAllTakesEffect(s: State, c: Config, user: string, f: Faults, jti: Jti)
    requires c.sessions && !f.write && jti in s.rows
    ensures RevokeAll(s, c, user, f).Live(jti) <==> s.Live(jti) && s.rows[jti].user != user
  {
  }

  /** Without a session store a token that was rotated can be rotated again later, unless the blacklist stops it. */
  lemma ReplayWithoutStore(s: State, c: Config, k: Claims, n1: Jti, n2: Jti, now: int, f: Faults, later: int, g: Faults)
    requires !c.sessions && !f.lookup && !f.sign && !s.IsBlacklisted(k.jti, now)
    requires now <= later < k.expires && !g.lookup && !g.sign
    ensures var (t, r) := Rotate(s, c, Some(k), n1, now, f);
            r.Rotated? &&
            (Rotate(t, c, Some(k), n2, later, g).1.Rotated? <==> !c.blacklist || f.blacklistWrite || g.blacklistRead)
  {
  }

  // The end of a login.

  /** No token of the lineage is live. */
  ghost predicate Ended(s: State, login: Jti) {
    forall j :: j in s.lineage && s.lineage[j] == login ==> !s.Live(j)
  }

  lemma StepKeepsEnded(s: State, c: Config, e: Event, login: Jti)
    requires c.sessions && Inv(s) && DrawsFresh(s, e) && login in s.grants && Ended(s, login)
    ensures login in Apply(s, c, e).grants && Ended(Apply(s, c, e), login)
  {
    hide Inv;
    match e.call
    case DoIssue(jti, user, scope) =>
    case DoRotate(token, next) =>
      if token.Some? && token.value.jti in s.rows { RowsHaveLineage(s, token.value.jti); }
      RotateKeepsEnded(s, c, token, next, e.now, e.faults, login);
    case _ =>
  }

  lemma RowsHaveLineage(s: State, jti: Jti)
    requires Inv(s) && jti in s.rows
    ensures jti in s.lineage
  {
  }

  lemma RotateKeepsEnded(s: State, c: Config, token: Option<Claims>, next: Jti, now: int, f: Faults, login: Jti)
    requires c.sessions && Ended(s, login) && next !in s.lineage
    requires token.Some? && token.value.jti in s.rows ==> token.value.jti in s.lineage
    ensures var t := Rotate(s, c, token, next, now, f).0; t.grants == s.grants && Ended(t, login)
  {
  }

  /** A lineage without a live token never gets one again. */
  lemma {:induction false} EndedForever(s: State, c: Config, events: seq<Event>, login: Jti)
    requires c.sessions && Inv(s) && AllFresh(s, c, events) && login in s.grants && Ended(s, login)
    ensures Ended(RunFrom(s, c, events), login)
    decreases |events|
  {
    hide Inv, Apply, Ended;
    if events != [] {
      StepKeepsInv(s, c, events[0]);
      StepKeepsEnded(s, c, events[0], login);
      EndedForever(Apply(s, c, events[0]), c, events[1..], login);
    }
  }

  /** So none of its tokens is ever rotated again. */
  lemma EndedIsRefused(s: State, c: Config, k: Claims, next: Jti, now: int, f: Faults, login: Jti)
    requires c.sessions && Ended(s, login) && k.jti in s.lineage && s.lineage[k.jti] == login
    ensures !Rotate(s, c, Some(k), next, now, f).1.Rotated?
  {
  }

  /** Revoking the live token of a login ends the whole login, in every further run. */
  lemma RevocationEndsLogin(s: State, c: Config, k: Claims, now: int, f: Faults, events: seq<Event>)
    requires c.sessions && Inv(s) && s.Live(k.jti) && !f.write && now < k.expires
    requires AllFresh(Revoke(s, c, Some(k), now, f), c, events)
    ensures k.jti in s.lineage && Ended(RunFrom(Revoke(s, c, Some(k), now, f), c, events), s.lineage[k.jti])
  {
    var e := Event(DoRevoke(Some(k)), now, f);
    StepKeepsInv(s, c, e);
    hide RunFrom;
    RevokeEnds(s, c, k, now, f);
    EndedForever(Revoke(s, c, Some(k), now, f), c, events, s.lineage[k.jti]);
  }

  lemma RevokeEnds(s: State, c: Config, k: Claims, now: int, f: Faults)
    requires c.sessions && Inv(s) && s.Live(k.jti) && !f.write && now < k.expires
    ensures k.jti in s.lineage && s.lineage[k.jti] in s.grants
    ensures Ended(Revoke(s, c, Some(k), now, f), s.lineage[k.jti])
    ensures Revoke(s, c, Some(k), now, f).grants == s.grants
  {
  }

  /** Revoking a user ends every login of that user, in every further run. */
  lemma RevokeAllEndsLogins(s: State, c: Config, user: string, f: Faults, events: seq<Event>, login: Jti)
    requires c.sessions && Inv(s) && !f.write && login in s.grants && s.grants[login].user == user
    requires AllFresh(RevokeAll(s, c, user, f), c, events)
    ensures Ended(RunFrom(RevokeAll(s, c, user, f), c, events), login)
  {
    StepKeepsInv(s, c, Event(DoRevokeAll(user), 0, f));
    hide RunFrom;
    EndedForever(RevokeAll(s, c, user, f), c, events, login);
  }

  // Two overlapping rotations: the check and the commit of one call as separate steps.

  /** The transaction does not check again, so it keeps "rotated once" and "one live token"
      exactly when the token was not rotated meanwhile and nothing else of its lineage is live. */
  lemma CommitAfterCheck(s: State, prior: Jti, next: Jti, expires: int)
    requires Inv(s) && prior in s.rows && next !in s.lineage
    ensures var t := Commit(s, prior, next, expires);
            Distinct(t.rotated) && OneLive(t) <==>
            prior !in s.rotated &&
            forall j :: s.Live(j) && j in s.lineage && s.lineage[j] == s.lineage[prior] ==> j == prior
  {
    hide Distinct;
    var t := Commit(s, prior, next, expires);
    DistinctSnoc(s.rotated, prior);
    CommitLive(s, prior, next, expires);
    forall j | s.Live(j) && s.lineage[j] == s.lineage[prior] && j != prior
      ensures !OneLive(t)
    {
      assert t.Live(j) && t.Live(next) && t.lineage[j] == t.lineage[next];
    }
  }

  /** Both calls pass the check before either commits: the lineage ends with two live tokens. */
  lemma OverlappingRotationsSplitLineage(c: Config, user: string, scope: string, f: Faults)
    requires c == Config(true, false, 100) && f == Faults(false, false, false, false, false, false)
    ensures var s := Issue(EMPTY, c, 1, user, scope, 0, f);
            s.Accepts(1, 1) &&
            var t := Commit(Commit(s, 1, 2, 101), 1, 3, 101);
            t.Live(2) && t.Live(3) && t.lineage[2] == t.lineage[3] && !OneLive(t) && !Distinct(t.rotated)
  {
    var s := Issue(EMPTY, c, 1, user, scope, 0, f);
    var t := Commit(Commit(s, 1, 2, 101), 1, 3, 101);
    assert t.Live(2) && t.Live(3) && t.lineage[2] == t.lineage[3];
    assert t.rotated[0] == t.rotated[1];
  }
}
