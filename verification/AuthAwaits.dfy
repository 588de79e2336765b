/**
 The session protocol with every call split at its database awaits: each query or update of the session
 table is one step, and any number of calls interleave. Token signing is synchronous and happens in the
 step that precedes it. The Redis flags do not influence the session table and are left to AuthSessions.
 */
module AuthAwaits {
  import opened Prelude
  import opened AuthSessions

  datatype Pc =
    | Expiring(sid: SessionId)                                  // refresh, validate: set isValid false
    | FindingActive(u: UserId)                                  // invalidateAllUserSessions: findMany
    | InvalidatingUser(u: UserId, login: bool)                  // updateMany; a dev login then opens a session
    | InvalidatingOne(sid: SessionId)                           // invalidateSingleSession
    | FindingExisting(u: UserId)                                // Google login: findMany
    | InvalidatingIds(sids: set<SessionId>, u: UserId)          // Google login: updateMany by id
    | Creating(u: UserId)                                       // Google login: create with the placeholder
    | Storing(sid: SessionId, token: Token)                     // write the new refresh token's hash
    | CreatingWithToken(u: UserId, sid: SessionId, token: Token) // dev login and signup: create with the hash

  /** `maxDevices` is the configured limit; 0 means none. */
  datatype Actors = Actors(
    maxDevices: int, now: nat, sessions: Sessions, calls: map<nat, Pc>,
    issued: set<Token>,     // every token ever signed
    retired: set<Token>)    // every refresh token whose stored hash was overwritten

  datatype Action =
    | Wait(seconds: nat)
    | StartRefresh(call: nat, token: Token, tokenId: nat)
    | StartGoogleLogin(call: nat, u: UserId)
    | StartDevLogin(call: nat, u: UserId)
    | StartDevSignup(call: nat, u: UserId, sid: SessionId, tokenId: nat)
    | StartValidate(call: nat, u: UserId, sid: SessionId)
    | StartLogout(call: nat, u: UserId, sid: SessionId, allDevices: bool)
    | Step(call: nat, sid: SessionId, tokenId: nat)   // the next database step of a call, with fresh ids if it needs them

  predicate Verifies(s: Actors, t: Token) {
    t in s.issued && s.now < t.expiresAt
  }

  /** The refresh call finds a valid, unexpired session that stores exactly this token. */
  predicate Redeems(s: Actors, t: Token) {
    && Verifies(s, t) && t.sessionId in s.sessions
    && var session := s.sessions[t.sessionId];
       session.isValid && session.deletedAt.None? && s.now <= session.expiresAt && session.refresh == Some(t)
  }

  predicate FreshToken(s: Actors, tokenId: nat) {
    forall t :: t in s.issued && t.RefreshToken? ==> t.tokenId != tokenId
  }

  /** A generated UUID differs from every stored id and from every id generated but not yet stored. */
  predicate FreshSession(s: Actors, sid: SessionId) {
    sid !in s.sessions && forall c :: c in s.calls && s.calls[c].CreatingWithToken? ==> s.calls[c].sid != sid
  }

  function Sign(s: Actors, u: UserId, sid: SessionId, tokenId: nat): set<Token> {
    s.issued + {NewAccess(u, sid, s.now), NewRefresh(u, sid, tokenId, s.now)}
  }

  function Finish(s: Actors, call: nat): Actors {
    s.(calls := s.calls - {call})
  }

  function Goto(s: Actors, call: nat, pc: Pc): Actors {
    s.(calls := s.calls[call := pc])
  }

  /** refreshTokens up to its second await: verify, find the session, decide, sign if accepted. */
  function BeginRefresh(s: Actors, call: nat, t: Token, tokenId: nat): Actors {
    if !Verifies(s, t) || t.sessionId !in s.sessions then s
    else
      var session := s.sessions[t.sessionId];
      if !session.isValid || session.deletedAt.Some? then s
      else if s.now > session.expiresAt then Goto(s, call, Expiring(t.sessionId))
      else if session.refresh != Some(t) then Goto(s, call, FindingActive(t.userId))
      else
        Goto(s.(issued := Sign(s, t.userId, t.sessionId, tokenId)), call,
             Storing(t.sessionId, NewRefresh(t.userId, t.sessionId, tokenId, s.now)))
  }

  /** The refresh token column of one row is overwritten, whatever the row's validity is by now. */
  function Overwrite(s: Actors, sid: SessionId, token: Token): Actors
    requires sid in s.sessions
  {
    var was := s.sessions[sid].refresh;
    s.(sessions := s.sessions[sid := s.sessions[sid].(refresh := Some(token))],
       retired := s.retired + (if was.Some? then {was.value} else {}))
  }

  function Proceed(s: Actors, call: nat, sid: SessionId, tokenId: nat): Actors
    requires call in s.calls
  {
    match s.calls[call]
    case Expiring(x) => Finish(s.(sessions := Invalidated(s.sessions, {x})), call)
    case InvalidatingOne(x) => Finish(s.(sessions := Invalidated(s.sessions, {x})), call)
    case FindingActive(u) =>
      if ActiveSessions(s.sessions, u) == {} then Finish(s, call) else Goto(s, call, InvalidatingUser(u, false))
    case InvalidatingUser(u, login) =>
      var s1 := s.(sessions := Invalidated(s.sessions, ActiveSessions(s.sessions, u)));
      if !login then Finish(s1, call)
      else if FreshSession(s, sid) && FreshToken(s, tokenId) then
        Goto(s1.(issued := Sign(s, u, sid, tokenId)), call, CreatingWithToken(u, sid, NewRefresh(u, sid, tokenId, s.now)))
      else s
    case FindingExisting(u) =>
      var active := ActiveSessions(s.sessions, u);
      Goto(s, call, if s.maxDevices > 0 && |active| >= s.maxDevices then InvalidatingIds(active, u) else Creating(u))
    case InvalidatingIds(sids, u) => Goto(s.(sessions := Invalidated(s.sessions, sids)), call, Creating(u))
    case Creating(u) =>
      if FreshSession(s, sid) && FreshToken(s, tokenId) then
        Goto(s.(sessions := s.sessions[sid := Session(u, None, true, s.now + REFRESH_SECONDS, None)],
                issued := Sign(s, u, sid, tokenId)),
             call, Storing(sid, NewRefresh(u, sid, tokenId, s.now)))
      else s
    case Storing(x, token) => if x in s.sessions then Finish(Overwrite(s, x, token), call) else s
    case CreatingWithToken(u, x, token) =>
      Finish(s.(sessions := s.sessions[x := Session(u, Some(token), true, s.now + REFRESH_SECONDS, None)]), call)
  }

  /** One step; an action that is not enabled leaves the state alone. */
  function Apply(s: Actors, a: Action): Actors {
    match a
    case Wait(d) => s.(now := s.now + d)
    case Step(c, sid, tokenId) => if c in s.calls then Proceed(s, c, sid, tokenId) else s
    case StartRefresh(c, t, tokenId) => if c !in s.calls && FreshToken(s, tokenId) then BeginRefresh(s, c, t, tokenId) else s
    case StartGoogleLogin(c, u) => if c !in s.calls then Goto(s, c, FindingExisting(u)) else s
    case StartDevLogin(c, u) => if c !in s.calls then Goto(s, c, InvalidatingUser(u, true)) else s
    case StartDevSignup(c, u, sid, tokenId) =>
      if c !in s.calls && FreshSession(s, sid) && FreshToken(s, tokenId) then
        Goto(s.(issued := Sign(s, u, sid, tokenId)), c, CreatingWithToken(u, sid, NewRefresh(u, sid, tokenId, s.now)))
      else s
    case StartValidate(c, u, sid) =>
      if c !in s.calls && Active(s.sessions, u, sid) && s.now > s.sessions[sid].expiresAt then Goto(s, c, Expiring(sid)) else s
    case StartLogout(c, u, sid, all) =>
      if c in s.calls then s
      else if all then Goto(s, c, FindingActive(u))
      else if sid in s.sessions then Goto(s, c, InvalidatingOne(sid)) else s
  }

  function Execute(s: Actors, actions: seq<Action>): Actors
    decreases |actions|
  {
    if actions == [] then s else Apply(Execute(s, actions[..|actions| - 1]), actions[|actions| - 1])
  }

  function Initial(limit: int, now: nat): Actors {
    Actors(limit, now, map[], map[], {}, {})
  }

  // ---------------------------------------------------------------- validity only ever goes away

  predicate Ended(s: Actors, sid: SessionId) {
    sid in s.sessions && !s.sessions[sid].isValid
  }

  /** Ids generated for a new row are never those of a stored row. */
  ghost predicate PendingRowsNew(s: Actors) {
    && (forall c :: c in s.calls && s.calls[c].CreatingWithToken? ==> s.calls[c].sid !in s.sessions)
    && (forall c, d :: c in s.calls && d in s.calls && c != d && s.calls[c].CreatingWithToken? && s.calls[d].CreatingWithToken? ==>
          s.calls[c].sid != s.calls[d].sid)
  }

  ghost predicate OthersUnchanged(calls: map<nat, Pc>, calls': map<nat, Pc>, call: nat) {
    forall c :: c != call ==> (c in calls' <==> c in calls) && (c in calls ==> calls'[c] == calls[c])
  }

  /** A step that inserts no row. */
  lemma SameKeysRowsNew(s: Actors, s': Actors, call: nat)
    requires PendingRowsNew(s) && s'.sessions.Keys == s.sessions.Keys && OthersUnchanged(s.calls, s'.calls, call)
    requires call in s'.calls && s'.calls[call].CreatingWithToken? ==> FreshSession(s, s'.calls[call].sid)
    ensures PendingRowsNew(s')
  {
  }

  /** A step that inserts the row it generated an id for. */
  lemma InsertedRowsNew(s: Actors, s': Actors, call: nat, x: SessionId)
    requires PendingRowsNew(s) && s'.sessions.Keys == s.sessions.Keys + {x} && OthersUnchanged(s.calls, s'.calls, call)
    requires call in s'.calls ==> !s'.calls[call].CreatingWithToken?
    requires FreshSession(s, x) || (call in s.calls && s.calls[call].CreatingWithToken? && s.calls[call].sid == x)
    ensures PendingRowsNew(s')
  {
  }

  lemma ProceedKeepsRowsNew(s: Actors, call: nat, sid: SessionId, tokenId: nat)
    requires PendingRowsNew(s) && call in s.calls
    ensures PendingRowsNew(Proceed(s, call, sid, tokenId))
    ensures s.sessions.Keys <= Proceed(s, call, sid, tokenId).sessions.Keys
  {
    hide PendingRowsNew, Invalidated, ActiveSessions, Sign, FreshToken, FreshSession, NewAccess, NewRefresh;
    var s' := Proceed(s, call, sid, tokenId);
    if s.calls[call].Creating? && FreshSession(s, sid) && FreshToken(s, tokenId) {
      InsertedRowsNew(s, s', call, sid);
    } else if s.calls[call].CreatingWithToken? {
      InsertedRowsNew(s, s', call, s.calls[call].sid);
    } else if s' != s {
      assert s'.sessions.Keys == s.sessions.Keys;
      SameKeysRowsNew(s, s', call);
    }
  }

  lemma BeginKeepsRowsNew(s: Actors, a: Action)
    requires PendingRowsNew(s) && !a.Step?
    ensures PendingRowsNew(Apply(s, a)) && Apply(s, a).sessions == s.sessions
  {
    hide Invalidated, ActiveSessions, Sign, Verifies, FreshToken, NewAccess, NewRefresh;
  }

  lemma PendingRowsStayNew(s: Actors, a: Action)
    requires PendingRowsNew(s)
    ensures PendingRowsNew(Apply(s, a))
    ensures s.sessions.Keys <= Apply(s, a).sessions.Keys
  {
    hide PendingRowsNew, Proceed;
    if a.Step? {
      if a.call in s.calls { ProceedKeepsRowsNew(s, a.call, a.sid, a.tokenId); }
    } else {
      BeginKeepsRowsNew(s, a);
    }
  }

  lemma EndedStaysEnded(s: Actors, a: Action, sid: SessionId)
    requires PendingRowsNew(s) && Ended(s, sid)
    ensures Ended(Apply(s, a), sid)
  {
  }

  lemma {:induction false} EndedForever(s: Actors, actions: seq<Action>, sid: SessionId)
    requires PendingRowsNew(s) && Ended(s, sid)
    ensures PendingRowsNew(Execute(s, actions)) && Ended(Execute(s, actions), sid)
    decreases |actions|
  {
    if actions != [] {
      var before := Execute(s, actions[..|actions| - 1]);
      EndedForever(s, actions[..|actions| - 1], sid);
      PendingRowsStayNew(before, actions[|actions| - 1]);
      EndedStaysEnded(before, actions[|actions| - 1], sid);
    }
  }

  // ---------------------------------------------------------------- tokens

  /** The refresh token a call has signed but not yet stored. */
  function PendingToken(pc: Pc): Option<Token> {
    match pc case Storing(_, t) => Some(t) case CreatingWithToken(_, _, t) => Some(t) case _ => None
  }

  function TokenSession(pc: Pc): Option<SessionId> {
    match pc case Storing(x, _) => Some(x) case CreatingWithToken(_, x, _) => Some(x) case _ => None
  }

  predicate Stored(ss: Sessions, t: Token) {
    t.sessionId in ss && ss[t.sessionId].refresh == Some(t)
  }

  predicate PendingIn(calls: map<nat, Pc>, c: nat, t: Token) {
    c in calls && PendingToken(calls[c]) == Some(t)
  }

  /** Call `c` is about to insert the row `sid` for user `u`. */
  predicate Inserting(calls: map<nat, Pc>, c: nat, sid: SessionId, u: UserId) {
    c in calls && calls[c].CreatingWithToken? && calls[c].sid == sid && calls[c].u == u
  }

  ghost predicate Owned(s: Actors, t: Token) {
    || (t.sessionId in s.sessions && s.sessions[t.sessionId].userId == t.userId)
    || (exists c :: Inserting(s.calls, c, t.sessionId, t.userId))
  }

  /** A signed token belongs to a row of its user, or to a row that its signer is about to insert. */
  ghost predicate OwnersSigned(s: Actors) {
    forall t :: t in s.issued ==> Owned(s, t)
  }

  ghost predicate TokensPlaced(s: Actors) {
    && (forall sid :: sid in s.sessions && s.sessions[sid].refresh.Some? ==>
          s.sessions[sid].refresh.value in s.issued && s.sessions[sid].refresh.value.sessionId == sid)
    && (forall c, t :: PendingIn(s.calls, c, t) ==> t in s.issued && !Stored(s.sessions, t) && TokenSession(s.calls[c]) == Some(t.sessionId))
    && (forall c, d, t :: PendingIn(s.calls, c, t) && PendingIn(s.calls, d, t) ==> c == d)
  }

  ghost predicate RetiredAreGone(s: Actors) {
    forall t :: t in s.retired ==> t in s.issued && !Stored(s.sessions, t) && forall c :: !PendingIn(s.calls, c, t)
  }

  ghost predicate Inv(s: Actors) {
    PendingRowsNew(s) && OwnersSigned(s) && TokensPlaced(s) && RetiredAreGone(s)
  }

  // The four ways a step can touch tokens: not at all, sign, overwrite a stored hash, insert a row with one.

  predicate SameRows(ss: Sessions, ss': Sessions) {
    ss'.Keys == ss.Keys && forall sid :: sid in ss ==> ss'[sid].userId == ss[sid].userId && ss'[sid].refresh == ss[sid].refresh
  }

  predicate HoldsNoToken(calls: map<nat, Pc>, call: nat) {
    call in calls ==> PendingToken(calls[call]).None?
  }

  ghost predicate TokensOk(s: Actors) {
    OwnersSigned(s) && TokensPlaced(s) && RetiredAreGone(s)
  }

  lemma TokenFreeStep(s: Actors, s': Actors, call: nat)
    requires Inv(s) && s'.issued == s.issued && s'.retired == s.retired && SameRows(s.sessions, s'.sessions)
    requires OthersUnchanged(s.calls, s'.calls, call) && HoldsNoToken(s.calls, call) && HoldsNoToken(s'.calls, call)
    ensures TokensOk(s')
  {
    assert forall c, t :: PendingIn(s'.calls, c, t) <==> PendingIn(s.calls, c, t);
    assert forall t :: Stored(s'.sessions, t) <==> Stored(s.sessions, t);
    forall t | t in s'.issued && !(t.sessionId in s'.sessions && s'.sessions[t.sessionId].userId == t.userId)
      ensures Owned(s', t)
    {
      var c :| Inserting(s.calls, c, t.sessionId, t.userId);
      assert Inserting(s'.calls, c, t.sessionId, t.userId);
    }
  }

  /** The call signs for a row that exists, that is inserted in this step, or that it will insert. */
  ghost predicate Signs(s: Actors, s': Actors, call: nat, u: UserId, sid: SessionId, tokenId: nat) {
    && s'.issued == Sign(s, u, sid, tokenId) && s'.retired == s.retired
    && (SameRows(s.sessions, s'.sessions) ||
        (sid !in s.sessions && s'.sessions.Keys == s.sessions.Keys + {sid} && s'.sessions[sid].refresh.None? && SameRows(s.sessions, s'.sessions - {sid})))
    && OthersUnchanged(s.calls, s'.calls, call) && HoldsNoToken(s.calls, call) && call in s'.calls
    && PendingToken(s'.calls[call]) == Some(NewRefresh(u, sid, tokenId, s.now)) && TokenSession(s'.calls[call]) == Some(sid)
    && ((sid in s'.sessions && s'.sessions[sid].userId == u) || (s'.calls[call].CreatingWithToken? && s'.calls[call].u == u))
  }

  lemma SigningKeepsRows(s: Actors, s': Actors, call: nat, u: UserId, sid: SessionId, tokenId: nat)
    requires Signs(s, s', call, u, sid, tokenId)
    ensures forall x :: x in s.sessions ==> x in s'.sessions && s'.sessions[x].refresh == s.sessions[x].refresh && s'.sessions[x].userId == s.sessions[x].userId
    ensures forall x :: x in s'.sessions && s'.sessions[x].refresh.Some? ==> x in s.sessions
    ensures forall t :: Stored(s'.sessions, t) <==> Stored(s.sessions, t)
    ensures forall c, t :: PendingIn(s'.calls, c, t) <==> PendingIn(s.calls, c, t) || (c == call && t == NewRefresh(u, sid, tokenId, s.now))
  {
  }

  lemma SigningKeepsOwners(s: Actors, s': Actors, call: nat, u: UserId, sid: SessionId, tokenId: nat)
    requires OwnersSigned(s) && Signs(s, s', call, u, sid, tokenId)
    ensures OwnersSigned(s')
  {
    SigningKeepsRows(s, s', call, u, sid, tokenId);
    hide SameRows, Stored;
    forall t | t in s'.issued && !(t.sessionId in s'.sessions && s'.sessions[t.sessionId].userId == t.userId)
      ensures Owned(s', t)
    {
      if t in s.issued {
        var c :| Inserting(s.calls, c, t.sessionId, t.userId);
        assert Inserting(s'.calls, c, t.sessionId, t.userId);
      } else {
        assert Inserting(s'.calls, call, t.sessionId, t.userId);
      }
    }
  }

  lemma SigningStep(s: Actors, s': Actors, call: nat, u: UserId, sid: SessionId, tokenId: nat)
    requires Inv(s) && FreshToken(s, tokenId) && Signs(s, s', call, u, sid, tokenId)
    ensures TokensOk(s')
  {
    var signed := NewRefresh(u, sid, tokenId, s.now);
    assert signed !in s.issued;
    SigningKeepsRows(s, s', call, u, sid, tokenId);
    SigningKeepsOwners(s, s', call, u, sid, tokenId);
    assert s.issued <= s'.issued && signed in s'.issued && TokenSession(s'.calls[call]) == Some(signed.sessionId);
    assert forall c :: c != call && c in s'.calls ==> c in s.calls && s'.calls[c] == s.calls[c];
    assert s'.retired == s.retired;
    hide Signs, OwnersSigned, Stored, PendingIn, PendingRowsNew, FreshToken;
  }

  /** Once a call that held a token is finished, the others hold what they held, and not that token. */
  lemma OtherPending(s: Actors, call: nat, token: Token)
    requires TokensPlaced(s) && PendingIn(s.calls, call, token)
    ensures forall c, t :: PendingIn(s.calls - {call}, c, t) ==> PendingIn(s.calls, c, t) && c != call && t != token
  {
    forall c, t | PendingIn(s.calls - {call}, c, t) ensures PendingIn(s.calls, c, t) && c != call && t != token {
      assert PendingIn(s.calls, c, t);
    }
  }

  lemma OverwriteStep(s: Actors, call: nat)
    requires Inv(s) && call in s.calls && s.calls[call].Storing? && s.calls[call].sid in s.sessions
    ensures TokensOk(Finish(Overwrite(s, s.calls[call].sid, s.calls[call].token), call))
  {
    var sid, token := s.calls[call].sid, s.calls[call].token;
    var s' := Finish(Overwrite(s, sid, token), call);
    assert PendingIn(s.calls, call, token);
    OtherPending(s, call, token);
    assert forall t :: Stored(s'.sessions, t) <==> t == token || (t.sessionId != sid && Stored(s.sessions, t));
    forall t | t in s'.issued && !(t.sessionId in s'.sessions && s'.sessions[t.sessionId].userId == t.userId)
      ensures Owned(s', t)
    {
      var c :| Inserting(s.calls, c, t.sessionId, t.userId);
      assert Inserting(s'.calls, c, t.sessionId, t.userId);
    }
    assert TokensPlaced(s');
    forall t | t in s'.retired ensures t in s'.issued && !Stored(s'.sessions, t) && forall c :: !PendingIn(s'.calls, c, t) {
      if t !in s.retired {
        assert s.sessions[sid].refresh == Some(t) && Stored(s.sessions, t);
      } else {
        assert !PendingIn(s.calls, call, t);
      }
    }
  }

  lemma InsertStep(s: Actors, call: nat)
    requires Inv(s) && call in s.calls && s.calls[call].CreatingWithToken?
    ensures TokensOk(Proceed(s, call, 0, 0))
  {
    var u, sid, token := s.calls[call].u, s.calls[call].sid, s.calls[call].token;
    var s' := Proceed(s, call, 0, 0);
    assert PendingIn(s.calls, call, token);
    OtherPending(s, call, token);
    assert forall t :: Stored(s'.sessions, t) <==> t == token || Stored(s.sessions, t);
    forall t | t in s'.issued && !(t.sessionId in s'.sessions && s'.sessions[t.sessionId].userId == t.userId)
      ensures Owned(s', t)
    {
      var c :| Inserting(s.calls, c, t.sessionId, t.userId);
      assert Inserting(s'.calls, c, t.sessionId, t.userId);
    }
    assert TokensPlaced(s');
  }

  lemma ProceedPreserves(s: Actors, call: nat, sid: SessionId, tokenId: nat)
    requires Inv(s) && call in s.calls
    ensures TokensOk(Proceed(s, call, sid, tokenId))
  {
    hide OwnersSigned, TokensPlaced, RetiredAreGone, ActiveSessions, Invalidated;
    var s' := Proceed(s, call, sid, tokenId);
    match s.calls[call] {
      case Storing(x, _) => if x in s.sessions { OverwriteStep(s, call); }
      case CreatingWithToken(_, _, _) => InsertStep(s, call);
      case InvalidatingUser(u, login) =>
        InvalidatedRows(s.sessions, ActiveSessions(s.sessions, u));
        if login && FreshSession(s, sid) && FreshToken(s, tokenId) {
          SigningStep(s, s', call, u, sid, tokenId);
        } else if !login {
          TokenFreeStep(s, s', call);
        }
      case Creating(u) =>
        if FreshSession(s, sid) && FreshToken(s, tokenId) {
          assert s'.sessions - {sid} == s.sessions;
          SigningStep(s, s', call, u, sid, tokenId);
        }
      case Expiring(x) => InvalidatedRows(s.sessions, {x}); TokenFreeStep(s, s', call);
      case InvalidatingOne(x) => InvalidatedRows(s.sessions, {x}); TokenFreeStep(s, s', call);
      case InvalidatingIds(sids, _) => InvalidatedRows(s.sessions, sids); TokenFreeStep(s, s', call);
      case FindingActive(_) => TokenFreeStep(s, s', call);
      case FindingExisting(_) => TokenFreeStep(s, s', call);
    }
  }

  lemma InvalidatedRows(ss: Sessions, sids: set<SessionId>)
    ensures SameRows(ss, Invalidated(ss, sids))
  {
  }

  /** A token that verifies and whose row exists was signed for the row's owner. */
  lemma VerifiedOwner(s: Actors, t: Token)
    requires PendingRowsNew(s) && OwnersSigned(s) && t in s.issued && t.sessionId in s.sessions
    ensures s.sessions[t.sessionId].userId == t.userId
  {
  }

  lemma WaitKeepsTokens(s: Actors, s': Actors)
    requires TokensOk(s) && s' == s.(now := s'.now)
    ensures TokensOk(s')
  {
  }

  lemma BeginRefreshPreserves(s: Actors, call: nat, t: Token, tokenId: nat)
    requires Inv(s) && call !in s.calls && FreshToken(s, tokenId)
    ensures TokensOk(BeginRefresh(s, call, t, tokenId))
  {
    hide OwnersSigned, TokensPlaced, RetiredAreGone, PendingRowsNew, FreshToken;
    var s' := BeginRefresh(s, call, t, tokenId);
    if call in s'.calls && s'.calls[call].Storing? {
      VerifiedOwner(s, t);
      SigningStep(s, s', call, t.userId, t.sessionId, tokenId);
    } else {
      TokenFreeStep(s, s', call);
    }
  }

  lemma BeginPreserves(s: Actors, a: Action)
    requires Inv(s) && !a.Step?
    ensures TokensOk(Apply(s, a))
  {
    hide OwnersSigned, TokensPlaced, RetiredAreGone, PendingRowsNew, BeginRefresh, FreshToken, FreshSession;
    var s' := Apply(s, a);
    match a {
      case Wait(_) => WaitKeepsTokens(s, s');
      case StartRefresh(c, t, tokenId) => if c !in s.calls && FreshToken(s, tokenId) { BeginRefreshPreserves(s, c, t, tokenId); }
      case StartDevSignup(c, u, sid, tokenId) =>
        if c !in s.calls && FreshSession(s, sid) && FreshToken(s, tokenId) { SigningStep(s, s', c, u, sid, tokenId); }
      case StartGoogleLogin(c, _) => if c !in s.calls { TokenFreeStep(s, s', c); }
      case StartDevLogin(c, _) => if c !in s.calls { TokenFreeStep(s, s', c); }
      case StartValidate(c, _, _) => if c !in s.calls { TokenFreeStep(s, s', c); }
      case StartLogout(c, _, _, _) => if c !in s.calls { TokenFreeStep(s, s', c); }
    }
  }

  lemma {:induction false} RunKeepsInvariant(limit: int, start: nat, actions: seq<Action>)
    ensures Inv(Execute(Initial(limit, start), actions))
    decreases |actions|
  {
    if actions != [] {
      var s, a := Execute(Initial(limit, start), actions[..|actions| - 1]), actions[|actions| - 1];
      RunKeepsInvariant(limit, start, actions[..|actions| - 1]);
      PendingRowsStayNew(s, a);
      if a.Step? {
        if a.call in s.calls { ProceedPreserves(s, a.call, a.sid, a.tokenId); }
      } else {
        BeginPreserves(s, a);
      }
    }
  }

  // ---------------------------------------------------------------- the theorems

  /** Under every interleaving, a session that became invalid never becomes valid again. */
  lemma InvalidSessionStaysInvalid(limit: int, start: nat, before: seq<Action>, later: seq<Action>, sid: SessionId)
    requires Ended(Execute(Initial(limit, start), before), sid)
    ensures Ended(Execute(Initial(limit, start), before + later), sid)
  {
    RunKeepsInvariant(limit, start, before);
    ExecuteConcat(Initial(limit, start), before, later);
    EndedForever(Execute(Initial(limit, start), before), later, sid);
  }

  /**
   A refresh that overlapped the end of its session (logout, reuse detection, expiry or displacement by
   another call) still stores and returns its new token, but no continuation ever redeems that token.
   */
  lemma OverlappedRefreshIsWorthless(limit: int, start: nat, before: seq<Action>, call: nat, later: seq<Action>)
    requires var s := Execute(Initial(limit, start), before);
             call in s.calls && s.calls[call].Storing? && Ended(s, s.calls[call].sid)
    ensures !Redeems(Execute(Initial(limit, start), before + later), Execute(Initial(limit, start), before).calls[call].token)
  {
    RunKeepsInvariant(limit, start, before);
    var pc := Execute(Initial(limit, start), before).calls[call];
    assert PendingIn(Execute(Initial(limit, start), before).calls, call, pc.token);
    InvalidSessionStaysInvalid(limit, start, before, later, pc.sid);
  }

  /** After the update of a full logout or of reuse detection, the user has no valid session. */
  lemma InvalidationEndsEverySession(s: Actors, call: nat, sid: SessionId, tokenId: nat)
    requires call in s.calls && s.calls[call].InvalidatingUser? && !s.calls[call].login
    ensures forall x :: x in s.sessions && s.sessions[x].userId == s.calls[call].u && s.sessions[x].deletedAt.None? ==> Ended(Proceed(s, call, sid, tokenId), x)
  {
  }

  lemma RetiredStaysRetired(s: Actors, a: Action)
    ensures s.retired <= Apply(s, a).retired
  {
  }

  lemma {:induction false} RetiredForever(s: Actors, actions: seq<Action>)
    ensures s.retired <= Execute(s, actions).retired
    decreases |actions|
  {
    if actions != [] {
      RetiredForever(s, actions[..|actions| - 1]);
      RetiredStaysRetired(Execute(s, actions[..|actions| - 1]), actions[|actions| - 1]);
    }
  }

  /** Under every interleaving, a refresh token whose stored hash was once overwritten is never redeemed again. */
  lemma SupersededTokenNeverRedeemed(limit: int, start: nat, before: seq<Action>, t: Token, later: seq<Action>)
    requires t in Execute(Initial(limit, start), before).retired
    ensures !Redeems(Execute(Initial(limit, start), before + later), t)
  {
    ExecuteConcat(Initial(limit, start), before, later);
    RetiredForever(Execute(Initial(limit, start), before), later);
    RunKeepsInvariant(limit, start, before + later);
  }

  lemma {:induction false} ExecuteConcat(s: Actors, a: seq<Action>, b: seq<Action>)
    ensures Execute(s, a + b) == Execute(Execute(s, a), b)
    decreases |b|
  {
    if b == [] {
      assert a + b == a;
    } else {
      var ab := a + b;
      assert ab[..|ab| - 1] == a + b[..|b| - 1] && ab[|ab| - 1] == b[|b| - 1];
      ExecuteConcat(s, a, b[..|b| - 1]);
    }
  }

  /** A refresh signs new tokens exactly when it is handed the stored token of a valid session; refused, it has changed nothing yet. */
  lemma RefreshSignsIff(s: Actors, call: nat, t: Token, tokenId: nat)
    requires call !in s.calls && FreshToken(s, tokenId)
    ensures var s' := Apply(s, StartRefresh(call, t, tokenId));
            && (call in s'.calls && s'.calls[call].Storing? <==> Redeems(s, t))
            && (!Redeems(s, t) ==> s'.issued == s.issued)
            && s'.sessions == s.sessions
  {
  }

  function TwoSteps(s: Actors, call: nat): Actors {
    Apply(Apply(s, Step(call, 0, 0)), Step(call, 0, 0))
  }

  /** The two steps of a refresh that stores its token, or that expires its session. */
  lemma TwoStepsOfRefresh(s: Actors, call: nat)
    requires call in s.calls && (s.calls[call].Storing? ==> s.calls[call].sid in s.sessions)
    ensures s.calls[call].Storing? ==> TwoSteps(s, call) == Finish(Overwrite(s, s.calls[call].sid, s.calls[call].token), call)
    ensures s.calls[call].Expiring? ==>
              TwoSteps(s, call) == Finish(s.(sessions := Invalidated(s.sessions, {s.calls[call].sid})), call)
    ensures s.calls[call].FindingActive? ==>
              TwoSteps(s, call) == Finish(s.(sessions := Invalidated(s.sessions, ActiveSessions(s.sessions, s.calls[call].u))), call)
  {
    hide Invalidated, ActiveSessions;
    NothingInvalidated(s.sessions);
    if s.calls[call].FindingActive? {
      assert s.calls[call := InvalidatingUser(s.calls[call].u, false)] - {call} == s.calls - {call};
    }
  }

  /** A refresh that nothing interrupts is the atomic one. */
  lemma UninterruptedRefreshIsAtomic(c: Config, s: Actors, st: State, call: nat, t: Token, tokenId: nat)
    requires st.now == s.now && st.sessions == s.sessions && st.issued == s.issued
    requires call !in s.calls && FreshToken(s, tokenId)
    ensures var s' := TwoSteps(Apply(s, StartRefresh(call, t, tokenId)), call);
            var st' := Refresh(c, st, t, tokenId).0;
            s'.sessions == st'.sessions && s'.issued == st'.issued && s'.calls == s.calls
  {
    hide ActiveSessions, FreshToken, Invalidated, TwoSteps, NewAccess, NewRefresh;
    var s1 := Apply(s, StartRefresh(call, t, tokenId));
    if call in s1.calls {
      TwoStepsOfRefresh(s1, call);
      OneInvalidated(s.sessions, t.sessionId);
      assert s1.calls - {call} == s.calls;
    } else {
      NoSteps(s1, call);
    }
  }

  lemma NoSteps(s: Actors, call: nat)
    requires call !in s.calls
    ensures TwoSteps(s, call) == s
  {
  }

  lemma NothingInvalidated(ss: Sessions)
    ensures Invalidated(ss, {}) == ss
  {
  }

  lemma OneInvalidated(ss: Sessions, sid: SessionId)
    ensures sid in ss ==> Invalidated(ss, {sid}) == ss[sid := ss[sid].(isValid := false)]
  {
  }

  /**
   What the interleaving does lose: two refreshes of one token that overlap are both accepted, each
   signing a token of its own, so single use holds for completed calls only (module AuthSessions).
   */
  lemma OverlappingRefreshesBothAccepted(s: Actors, t: Token, c: nat, d: nat, first: nat, second: nat)
    requires Redeems(s, t) && c !in s.calls && d !in s.calls && c != d
    requires FreshToken(s, first) && FreshToken(s, second) && first != second
    ensures var s1 := Apply(s, StartRefresh(c, t, first));
            var s2 := Apply(s1, StartRefresh(d, t, second));
            && Redeems(s1, t)
            && s2.calls[c] == Storing(t.sessionId, NewRefresh(t.userId, t.sessionId, first, s.now))
            && s2.calls[d] == Storing(t.sessionId, NewRefresh(t.userId, t.sessionId, second, s.now))
  {
    var s1 := Apply(s, StartRefresh(c, t, first));
    assert FreshToken(s1, second);
  }
}
