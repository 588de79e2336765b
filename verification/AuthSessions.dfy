/**
 The session and refresh-token protocol of AuthService, one completed call at a time, as functions on
 the session table, the Redis flags and the history of signed tokens. SHA-256 is taken as injective, so
 a session stores the token whose hash it holds; a JWT verifies when it was signed here and has not
 expired. Fresh ids and random token ids are inputs.
 */
module AuthSessions {
  import opened Prelude
  import opened Redis

  const ACCESS_SECONDS: nat := 3600
  const REFRESH_SECONDS: nat := 2592000
  const USER_INFO_TTL: nat := 3600

  type UserId = nat
  type SessionId = nat

  /** Both kinds are signed with one secret; `refreshTokens` and the bearer check accept either kind. */
  datatype Token =
    | AccessToken(userId: UserId, sessionId: SessionId, expiresAt: nat)
    | RefreshToken(userId: UserId, sessionId: SessionId, tokenId: nat, expiresAt: nat)

  /** `refresh` is None while the column still holds the empty placeholder. */
  datatype Session = Session(
    userId: UserId, refresh: Option<Token>, isValid: bool, expiresAt: nat, deletedAt: Option<nat>)

  datatype UserInfo = UserInfo(id: UserId, email: string, name: string, picture: Option<string>, sessionId: SessionId)

  type Sessions = map<SessionId, Session>
  type Flags = Store<SessionId, bool>
  type Infos = Store<UserId, UserInfo>

  /** maxDevices 0 means no limit; without a cache service every cache operation is skipped. */
  datatype Config = Config(maxDevices: int, cacheAttached: bool)

  datatype State = State(
    now: nat, sessions: Sessions, flags: Flags, infos: Infos,
    issued: set<Token>,      // every token ever signed
    redeemed: set<Token>)    // every refresh token ever exchanged for a new pair

  // ---------------------------------------------------------------- queries and row updates

  predicate Active(ss: Sessions, u: UserId, sid: SessionId) {
    sid in ss && ss[sid].userId == u && ss[sid].isValid && ss[sid].deletedAt.None?
  }

  function ActiveSessions(ss: Sessions, u: UserId): (active: set<SessionId>)
    ensures active <= ss.Keys
  {
    set sid | sid in ss && Active(ss, u, sid)
  }

  /** updateMany ... data: { isValid: false } */
  function Invalidated(ss: Sessions, sids: set<SessionId>): (r: Sessions)
    ensures r.Keys == ss.Keys
    ensures forall sid :: sid in ss ==> r[sid].userId == ss[sid].userId
  {
    map sid | sid in ss :: if sid in sids then ss[sid].(isValid := false) else ss[sid]
  }

  /** markSessionInvalidInCache for each of the sessions. */
  function Flagged(c: Config, flags: Flags, sids: set<SessionId>, now: nat): Flags {
    if c.cacheAttached then flags + map sid | sid in sids :: Entry(true, Some(now + REFRESH_SECONDS)) else flags
  }

  function CachedInfo(c: Config, infos: Infos, u: UserId, info: UserInfo, now: nat): Infos {
    if c.cacheAttached then SetEx(infos, u, info, now, USER_INFO_TTL) else infos
  }

  function ClearedInfo(c: Config, infos: Infos, u: UserId): Infos {
    if c.cacheAttached then infos - {u} else infos
  }

  predicate Verifies(s: State, t: Token) {
    t in s.issued && s.now < t.expiresAt
  }

  function NewAccess(u: UserId, sid: SessionId, now: nat): Token {
    AccessToken(u, sid, now + ACCESS_SECONDS)
  }

  function NewRefresh(u: UserId, sid: SessionId, tokenId: nat, now: nat): Token {
    RefreshToken(u, sid, tokenId, now + REFRESH_SECONDS)
  }

  predicate FreshTokenId(s: State, tokenId: nat) {
    forall t :: t in s.issued && t.RefreshToken? ==> t.tokenId != tokenId
  }

  // ---------------------------------------------------------------- the calls

  function InvalidateAndFlag(c: Config, s: State, sids: set<SessionId>): State {
    s.(sessions := Invalidated(s.sessions, sids), flags := Flagged(c, s.flags, sids, s.now))
  }

  /** invalidateExistingSessions: at the device limit every active session goes, not just the oldest. */
  function Displace(c: Config, s: State, u: UserId): State {
    var active := ActiveSessions(s.sessions, u);
    if c.maxDevices > 0 && |active| >= c.maxDevices then InvalidateAndFlag(c, s, active) else s
  }

  function OpenSession(c: Config, s: State, info: UserInfo, sid: SessionId, tokenId: nat): State {
    var u := info.id;
    var refresh := NewRefresh(u, sid, tokenId, s.now);
    s.(sessions := s.sessions[sid := Session(u, Some(refresh), true, s.now + REFRESH_SECONDS, None)],
       issued := s.issued + {NewAccess(u, sid, s.now), refresh},
       infos := CachedInfo(c, s.infos, u, info.(sessionId := sid), s.now))
  }

  function GoogleLogin(c: Config, s: State, info: UserInfo, sid: SessionId, tokenId: nat): State {
    OpenSession(c, Displace(c, s, info.id), info, sid, tokenId)
  }

  /** Unlike the Google login it always invalidates, and it sets no flag. */
  function DevLogin(c: Config, s: State, info: UserInfo, sid: SessionId, tokenId: nat): State {
    var s1 := s.(sessions := Invalidated(s.sessions, ActiveSessions(s.sessions, info.id)));
    OpenSession(c, s1, info, sid, tokenId)
  }

  datatype RefreshOutcome =
    | Rotated(access: Token, refresh: Token)
    | InvalidToken
    | SessionNotValid
    | SessionExpired
    | ReuseDetected

  function Refresh(c: Config, s: State, t: Token, tokenId: nat): (State, RefreshOutcome) {
    if !Verifies(s, t) then (s, InvalidToken)
    else
      var sid := t.sessionId;
      if sid !in s.sessions || !s.sessions[sid].isValid || s.sessions[sid].deletedAt.Some? then (s, SessionNotValid)
      else
        var session := s.sessions[sid];
        if s.now > session.expiresAt then
          (s.(sessions := s.sessions[sid := session.(isValid := false)]), SessionExpired)
        else if session.refresh != Some(t) then
          (InvalidateAndFlag(c, s, ActiveSessions(s.sessions, t.userId)), ReuseDetected)
        else
          var access, refresh := NewAccess(t.userId, sid, s.now), NewRefresh(t.userId, sid, tokenId, s.now);
          (s.(sessions := s.sessions[sid := session.(refresh := Some(refresh))],
              issued := s.issued + {access, refresh},
              redeemed := s.redeemed + {t}),
           Rotated(access, refresh))
  }

  datatype LogoutOutcome = LoggedOut(sessionsInvalidated: nat) | NoSuchSession

  function Logout(c: Config, s: State, u: UserId, sid: SessionId, allDevices: bool): (State, LogoutOutcome) {
    if allDevices then
      var active := ActiveSessions(s.sessions, u);
      var s1 := InvalidateAndFlag(c, s, active);
      (s1.(infos := ClearedInfo(c, s1.infos, u)), LoggedOut(|active|))
    else if sid !in s.sessions then (s, NoSuchSession)
    else
      var s1 := InvalidateAndFlag(c, s, {sid});
      (s1.(infos := ClearedInfo(c, s1.infos, u)), LoggedOut(1))
  }

  datatype Principal = Principal(userId: UserId, sessionId: SessionId, email: string, name: string, picture: Option<string>)

  function PrincipalOf(info: UserInfo, sid: SessionId): Principal {
    Principal(info.id, sid, info.email, info.name, info.picture)
  }

  /** validateSession; `row` is the user row that the database path joins in. */
  function Validate(c: Config, s: State, u: UserId, sid: SessionId, row: UserInfo): (State, Option<Principal>) {
    if c.cacheAttached && Live(s.flags, sid, s.now) then (s, None)
    else if c.cacheAttached && Live(s.infos, u, s.now) then (s, Some(PrincipalOf(s.infos[u].value, sid)))
    else if !Active(s.sessions, u, sid) then (s, None)
    else if s.now > s.sessions[sid].expiresAt then
      (s.(sessions := s.sessions[sid := s.sessions[sid].(isValid := false)]), None)
    else
      (s.(infos := CachedInfo(c, s.infos, u, row.(sessionId := sid), s.now)), Some(PrincipalOf(row, sid)))
  }

  /** A bearer token opens a request when it verifies and its session validates. */
  predicate Accepts(c: Config, s: State, t: Token) {
    Verifies(s, t) && Validate(c, s, t.userId, t.sessionId, UserInfo(t.userId, "", "", None, t.sessionId)).1.Some?
  }

  // ---------------------------------------------------------------- runs

  datatype Action =
    | Wait(seconds: nat)
    | DoGoogleLogin(info: UserInfo, sid: SessionId, tokenId: nat)
    | DoDevSignup(info: UserInfo, sid: SessionId, tokenId: nat)
    | DoDevLogin(info: UserInfo, sid: SessionId, tokenId: nat)
    | DoRefresh(token: Token, tokenId: nat)
    | DoValidate(userId: UserId, sid: SessionId, row: UserInfo)
    | DoLogout(userId: UserId, sid: SessionId, allDevices: bool)

  /** Generated ids are new, a signup is for a user that has no session yet, and the joined row is the user's. */
  predicate Enabled(s: State, a: Action) {
    match a
    case DoGoogleLogin(_, sid, tokenId) => sid !in s.sessions && FreshTokenId(s, tokenId)
    case DoDevSignup(info, sid, tokenId) =>
      sid !in s.sessions && FreshTokenId(s, tokenId) && forall x :: x in s.sessions ==> s.sessions[x].userId != info.id
    case DoDevLogin(_, sid, tokenId) => sid !in s.sessions && FreshTokenId(s, tokenId)
    case DoRefresh(_, tokenId) => FreshTokenId(s, tokenId)
    case DoValidate(u, _, row) => row.id == u
    case _ => true
  }

  function Apply(c: Config, s: State, a: Action): State {
    if !Enabled(s, a) then s else
      match a
      case Wait(d) => s.(now := s.now + d)
      case DoGoogleLogin(info, sid, tokenId) => GoogleLogin(c, s, info, sid, tokenId)
      case DoDevSignup(info, sid, tokenId) => OpenSession(c, s, info, sid, tokenId)
      case DoDevLogin(info, sid, tokenId) => DevLogin(c, s, info, sid, tokenId)
      case DoRefresh(t, tokenId) => Refresh(c, s, t, tokenId).0
      case DoValidate(u, sid, row) => Validate(c, s, u, sid, row).0
      case DoLogout(u, sid, all) => Logout(c, s, u, sid, all).0
  }

  function Execute(c: Config, s: State, actions: seq<Action>): State
    decreases |actions|
  {
    if actions == [] then s
    else Apply(c, Execute(c, s, actions[..|actions| - 1]), actions[|actions| - 1])
  }

  function Initial(now: nat): State {
    State(now, map[], map[], map[], {}, {})
  }

  ghost predicate Reachable(c: Config, s: State) {
    exists start, actions :: s == Execute(c, Initial(start), actions)
  }

  // ---------------------------------------------------------------- the invariant

  /** A signed token's user owns its session, and no token outlives 30 days. */
  ghost predicate OwnersSigned(s: State) {
    forall t :: t in s.issued ==>
      t.sessionId in s.sessions && s.sessions[t.sessionId].userId == t.userId && t.expiresAt <= s.now + REFRESH_SECONDS
  }

  ghost predicate StoredTokensIssued(s: State) {
    forall sid :: sid in s.sessions && s.sessions[sid].refresh.Some? ==>
      s.sessions[sid].refresh.value in s.issued && s.sessions[sid].refresh.value.RefreshToken?
      && s.sessions[sid].refresh.value.sessionId == sid
  }

  ghost predicate RedeemedAreSuperseded(s: State) {
    forall t :: t in s.redeemed ==>
      t.RefreshToken? && t.sessionId in s.sessions && s.sessions[t.sessionId].refresh != Some(t)
  }

  /** A flagged session is invalid, and its flag lives at least as long as any of its tokens. */
  ghost predicate FlagsOutliveTokens(s: State) {
    && (forall sid :: sid in s.flags ==> sid in s.sessions && !s.sessions[sid].isValid && s.flags[sid].expiresAt.Some?)
    && (forall t :: t in s.issued && t.sessionId in s.flags ==> t.expiresAt <= s.flags[t.sessionId].expiresAt.value)
  }

  ghost predicate WithinDeviceLimit(c: Config, s: State) {
    c.maxDevices > 0 ==> forall u :: |ActiveSessions(s.sessions, u)| <= c.maxDevices
  }

  /** The profile cached under a user's key is that user's. */
  ghost predicate ProfilesOwned(s: State) {
    forall u :: u in s.infos ==> s.infos[u].value.id == u
  }

  ghost predicate Inv(c: Config, s: State) {
    && ProfilesOwned(s)
    && OwnersSigned(s) && StoredTokensIssued(s)
    && s.redeemed <= s.issued && RedeemedAreSuperseded(s)
    && FlagsOutliveTokens(s) && WithinDeviceLimit(c, s)
  }

  lemma InvalidatedOwners(ss: Sessions, sids: set<SessionId>)
    ensures Invalidated(ss, sids).Keys == ss.Keys
    ensures forall sid :: sid in ss ==>
              && Invalidated(ss, sids)[sid].userId == ss[sid].userId
              && Invalidated(ss, sids)[sid].refresh == ss[sid].refresh
              && (Invalidated(ss, sids)[sid].isValid <==> ss[sid].isValid && sid !in sids)
    ensures forall u :: ActiveSessions(Invalidated(ss, sids), u) == ActiveSessions(ss, u) - sids
  {
  }

  lemma FewerSessions(a: set<SessionId>, b: set<SessionId>)
    requires a <= b
    ensures |a| <= |b|
  {
    if a != {} {
      var x :| x in a;
      FewerSessions(a - {x}, b - {x});
    }
  }

  lemma FewerActive(c: Config, s: State, s': State)
    requires WithinDeviceLimit(c, s) && forall u :: ActiveSessions(s'.sessions, u) <= ActiveSessions(s.sessions, u)
    ensures WithinDeviceLimit(c, s')
  {
    hide ActiveSessions;
    forall u ensures |ActiveSessions(s'.sessions, u)| <= |ActiveSessions(s.sessions, u)| {
      FewerSessions(ActiveSessions(s'.sessions, u), ActiveSessions(s.sessions, u));
    }
  }

  /** A flag set now outlives every token signed so far. */
  lemma FlaggedOutlive(c: Config, s: State, sids: set<SessionId>, flag: set<SessionId>)
    requires OwnersSigned(s) && FlagsOutliveTokens(s) && flag <= sids && flag <= s.sessions.Keys
    ensures FlagsOutliveTokens(s.(sessions := Invalidated(s.sessions, sids), flags := Flagged(c, s.flags, flag, s.now)))
  {
    InvalidatedOwners(s.sessions, sids);
    hide Invalidated, ActiveSessions;
  }

  /** Dropping validity of any sessions, flagged or not, keeps the invariant. */
  lemma InvalidatePreserves(c: Config, s: State, sids: set<SessionId>, flag: set<SessionId>)
    requires Inv(c, s) && flag <= sids && flag <= s.sessions.Keys
    ensures Inv(c, s.(sessions := Invalidated(s.sessions, sids), flags := Flagged(c, s.flags, flag, s.now)))
  {
    var s' := s.(sessions := Invalidated(s.sessions, sids), flags := Flagged(c, s.flags, flag, s.now));
    InvalidatedOwners(s.sessions, sids);
    FewerActive(c, s, s');
    FlaggedOutlive(c, s, sids, flag);
    hide Invalidated, ActiveSessions, Flagged, FlagsOutliveTokens, WithinDeviceLimit;
  }

  lemma OpenedActive(ss: Sessions, sid: SessionId, session: Session)
    requires sid !in ss && session.isValid && session.deletedAt.None?
    ensures forall u :: ActiveSessions(ss[sid := session], u) == ActiveSessions(ss, u) + (if u == session.userId then {sid} else {})
  {
  }

  lemma OpenPreserves(c: Config, s: State, info: UserInfo, sid: SessionId, tokenId: nat)
    requires Inv(c, s) && sid !in s.sessions && FreshTokenId(s, tokenId)
    requires c.maxDevices > 0 ==> |ActiveSessions(s.sessions, info.id)| < c.maxDevices
    ensures Inv(c, OpenSession(c, s, info, sid, tokenId))
  {
    hide ActiveSessions;
    var s' := OpenSession(c, s, info, sid, tokenId);
    OpenedActive(s.sessions, sid, s'.sessions[sid]);
    assert sid !in s.flags;
    assert RedeemedAreSuperseded(s');
    forall u ensures c.maxDevices > 0 ==> |ActiveSessions(s'.sessions, u)| <= c.maxDevices {
      if u != info.id {
        assert ActiveSessions(s'.sessions, u) == ActiveSessions(s.sessions, u);
      }
    }
  }

  /** Marking one session invalid, as the expiry paths do. */
  lemma ExpirePreserves(c: Config, s: State, sid: SessionId)
    requires Inv(c, s) && sid in s.sessions
    ensures Inv(c, s.(sessions := s.sessions[sid := s.sessions[sid].(isValid := false)]))
  {
    InvalidatePreserves(c, s, {sid}, {});
    assert Invalidated(s.sessions, {sid}) == s.sessions[sid := s.sessions[sid].(isValid := false)];
    assert Flagged(c, s.flags, {}, s.now) == s.flags;
  }

  lemma RotatedActive(ss: Sessions, ss': Sessions, sid: SessionId, u: UserId)
    requires sid in ss && sid in ss' && ss' == ss[sid := ss[sid].(refresh := ss'[sid].refresh)]
    ensures ActiveSessions(ss', u) == ActiveSessions(ss, u)
  {
  }

  lemma RefreshPreserves(c: Config, s: State, t: Token, tokenId: nat)
    requires Inv(c, s) && FreshTokenId(s, tokenId)
    ensures Inv(c, Refresh(c, s, t, tokenId).0)
  {
    hide ActiveSessions;
    var (s', outcome) := Refresh(c, s, t, tokenId);
    match outcome {
      case InvalidToken =>
      case SessionNotValid =>
      case SessionExpired => ExpirePreserves(c, s, t.sessionId);
      case ReuseDetected =>
        InvalidatePreserves(c, s, ActiveSessions(s.sessions, t.userId), ActiveSessions(s.sessions, t.userId));
      case Rotated(_, refresh) =>
        assert refresh !in s.issued;
        forall u ensures ActiveSessions(s'.sessions, u) == ActiveSessions(s.sessions, u) {
          RotatedActive(s.sessions, s'.sessions, t.sessionId, u);
        }
        assert StoredTokensIssued(s') && FlagsOutliveTokens(s');
    }
  }

  lemma ValidatePreserves(c: Config, s: State, u: UserId, sid: SessionId, row: UserInfo)
    requires Inv(c, s) && row.id == u
    ensures Inv(c, Validate(c, s, u, sid, row).0)
  {
    hide ActiveSessions;
    var s' := Validate(c, s, u, sid, row).0;
    if s'.sessions != s.sessions {
      ExpirePreserves(c, s, sid);
    }
  }

  lemma NothingFlagged(c: Config, flags: Flags, now: nat)
    ensures Flagged(c, flags, {}, now) == flags
  {
  }

  lemma GoogleLoginPreserves(c: Config, s: State, info: UserInfo, sid: SessionId, tokenId: nat)
    requires Inv(c, s) && sid !in s.sessions && FreshTokenId(s, tokenId)
    ensures Inv(c, GoogleLogin(c, s, info, sid, tokenId))
  {
    var active := ActiveSessions(s.sessions, info.id);
    InvalidatePreserves(c, s, active, active);
    InvalidatedOwners(s.sessions, active);
    hide Inv, ActiveSessions, Invalidated, Flagged, OpenSession;
    OpenPreserves(c, Displace(c, s, info.id), info, sid, tokenId);
  }

  lemma DevLoginPreserves(c: Config, s: State, info: UserInfo, sid: SessionId, tokenId: nat)
    requires Inv(c, s) && sid !in s.sessions && FreshTokenId(s, tokenId)
    ensures Inv(c, DevLogin(c, s, info, sid, tokenId))
  {
    var active := ActiveSessions(s.sessions, info.id);
    InvalidatePreserves(c, s, active, {});
    InvalidatedOwners(s.sessions, active);
    NothingFlagged(c, s.flags, s.now);
    hide Inv, ActiveSessions, Invalidated, Flagged, OpenSession;
    var s1 := s.(sessions := Invalidated(s.sessions, active));
    assert s1 == s.(sessions := Invalidated(s.sessions, active), flags := Flagged(c, s.flags, {}, s.now));
    OpenPreserves(c, s1, info, sid, tokenId);
  }

  lemma SignupPreserves(c: Config, s: State, info: UserInfo, sid: SessionId, tokenId: nat)
    requires Inv(c, s) && Enabled(s, DoDevSignup(info, sid, tokenId))
    ensures Inv(c, OpenSession(c, s, info, sid, tokenId))
  {
    assert ActiveSessions(s.sessions, info.id) == {};
    OpenPreserves(c, s, info, sid, tokenId);
  }

  lemma LogoutPreserves(c: Config, s: State, u: UserId, sid: SessionId, all: bool)
    requires Inv(c, s)
    ensures Inv(c, Logout(c, s, u, sid, all).0)
  {
    hide ActiveSessions, Invalidated, Flagged;
    if all {
      InvalidatePreserves(c, s, ActiveSessions(s.sessions, u), ActiveSessions(s.sessions, u));
    } else if sid in s.sessions {
      InvalidatePreserves(c, s, {sid}, {sid});
    }
  }

  lemma WaitPreserves(c: Config, s: State, later: nat)
    requires Inv(c, s) && s.now <= later
    ensures Inv(c, s.(now := later))
  {
  }

  lemma StepPreserves(c: Config, s: State, a: Action)
    requires Inv(c, s)
    ensures Inv(c, Apply(c, s, a))
  {
    hide Inv, GoogleLogin, DevLogin, OpenSession, Refresh, Validate, Logout, FreshTokenId;
    if Enabled(s, a) {
      match a {
        case Wait(d) => WaitPreserves(c, s, s.now + d);
        case DoGoogleLogin(info, sid, tokenId) => GoogleLoginPreserves(c, s, info, sid, tokenId);
        case DoDevSignup(info, sid, tokenId) => SignupPreserves(c, s, info, sid, tokenId);
        case DoDevLogin(info, sid, tokenId) => DevLoginPreserves(c, s, info, sid, tokenId);
        case DoRefresh(t, tokenId) => RefreshPreserves(c, s, t, tokenId);
        case DoValidate(u, sid, row) => ValidatePreserves(c, s, u, sid, row);
        case DoLogout(u, sid, all) => LogoutPreserves(c, s, u, sid, all);
      }
    }
  }

  lemma {:induction false} RunKeepsInvariant(c: Config, start: nat, actions: seq<Action>)
    ensures Inv(c, Execute(c, Initial(start), actions))
    decreases |actions|
  {
    if actions != [] {
      RunKeepsInvariant(c, start, actions[..|actions| - 1]);
      StepPreserves(c, Execute(c, Initial(start), actions[..|actions| - 1]), actions[|actions| - 1]);
    } else {
      assert forall u :: ActiveSessions(map[], u) == {};
    }
  }

  lemma ReachableInv(c: Config, s: State)
    requires Reachable(c, s)
    ensures Inv(c, s)
  {
    var start, actions :| s == Execute(c, Initial(start), actions);
    RunKeepsInvariant(c, start, actions);
  }

  // ---------------------------------------------------------------- whole-run theorems

  lemma {:induction false} RedeemedForever(c: Config, s: State, actions: seq<Action>, t: Token)
    requires t in s.redeemed
    ensures t in Execute(c, s, actions).redeemed
    decreases |actions|
  {
    if actions != [] {
      RedeemedForever(c, s, actions[..|actions| - 1], t);
    }
  }

  /** A session never has two acceptable refresh tokens. */
  lemma OneAcceptableTokenPerSession(c: Config, s: State, t: Token, other: Token, tokenId: nat)
    requires Reachable(c, s) && t.sessionId == other.sessionId
    requires Refresh(c, s, t, tokenId).1.Rotated? && Refresh(c, s, other, tokenId).1.Rotated?
    ensures t == other && t.RefreshToken?
  {
    ReachableInv(c, s);
  }

  /** Whatever happens after a refresh token was exchanged, it is never exchanged again. */
  lemma NoTokenIsExchangedTwice(c: Config, s: State, t: Token, tokenId: nat, later: seq<Action>, laterId: nat)
    requires Reachable(c, s) && FreshTokenId(s, tokenId) && Refresh(c, s, t, tokenId).1.Rotated?
    ensures !Refresh(c, Execute(c, Refresh(c, s, t, tokenId).0, later), t, laterId).1.Rotated?
  {
    var first := DoRefresh(t, tokenId);
    var s1 := Refresh(c, s, t, tokenId).0;
    assert [first][..0] == [] && Execute(c, s, [first]) == Apply(c, s, first) == s1;
    ExecuteExtendsReachable(c, s, [first]);
    ExecuteExtendsReachable(c, s1, later);
    RedeemedForever(c, s1, later, t);
    ReachableInv(c, Execute(c, s1, later));
  }

  /**
   Presenting any other unexpired token of a session that is still valid and unexpired (a superseded
   refresh token, or an access token) leaves the session's owner with no valid session, and touches
   nobody else's.
   */
  lemma ReuseLeavesNoValidSession(c: Config, s: State, t: Token, tokenId: nat)
    requires Reachable(c, s) && Verifies(s, t)
    requires t.sessionId in s.sessions && var session := s.sessions[t.sessionId];
             session.isValid && session.deletedAt.None? && s.now <= session.expiresAt && session.refresh != Some(t)
    ensures var (s', outcome) := Refresh(c, s, t, tokenId);
            var owner := s.sessions[t.sessionId].userId;
            && outcome == ReuseDetected
            && ActiveSessions(s'.sessions, owner) == {}
            && s'.sessions.Keys == s.sessions.Keys
            && (forall sid :: sid in s.sessions && s.sessions[sid].userId != owner ==> s'.sessions[sid] == s.sessions[sid])
            && (c.cacheAttached ==> forall sid :: sid in ActiveSessions(s.sessions, owner) ==> Live(s'.flags, sid, s.now))
  {
    ReachableInv(c, s);
    InvalidatedOwners(s.sessions, ActiveSessions(s.sessions, t.userId));
  }

  /** A session that was invalidated stays in the table and stays invalid. */
  lemma {:induction false} InvalidForever(c: Config, s: State, actions: seq<Action>, sid: SessionId)
    requires sid in s.sessions && !s.sessions[sid].isValid
    ensures var s' := Execute(c, s, actions); sid in s'.sessions && !s'.sessions[sid].isValid
    decreases |actions|
  {
    if actions != [] {
      InvalidForever(c, s, actions[..|actions| - 1], sid);
    }
  }

  /** So no token of an invalidated session is ever exchanged again, in any continuation. */
  lemma InvalidSessionNeverRefreshes(c: Config, s: State, actions: seq<Action>, t: Token, tokenId: nat)
    requires t.sessionId in s.sessions && !s.sessions[t.sessionId].isValid
    ensures !Refresh(c, Execute(c, s, actions), t, tokenId).1.Rotated?
  {
    InvalidForever(c, s, actions, t.sessionId);
  }

  lemma DeviceLimitHolds(c: Config, s: State, u: UserId)
    requires Reachable(c, s) && c.maxDevices > 0
    ensures |ActiveSessions(s.sessions, u)| <= c.maxDevices
  {
    ReachableInv(c, s);
  }

  lemma {:induction false} FlagIsPermanent(c: Config, s: State, actions: seq<Action>, sid: SessionId)
    requires sid in s.flags
    ensures sid in Execute(c, s, actions).flags
    decreases |actions|
  {
    if actions != [] {
      FlagIsPermanent(c, s, actions[..|actions| - 1], sid);
    }
  }

  lemma ExecuteExtendsReachable(c: Config, s: State, actions: seq<Action>)
    requires Reachable(c, s)
    ensures Reachable(c, Execute(c, s, actions))
  {
    var start, before :| s == Execute(c, Initial(start), before);
    ExecuteConcat(c, Initial(start), before, actions);
  }

  lemma {:induction false} ExecuteConcat(c: Config, s: State, a: seq<Action>, b: seq<Action>)
    ensures Execute(c, s, a + b) == Execute(c, Execute(c, s, a), b)
    decreases |b|
  {
    if b == [] {
      assert a + b == a;
    } else {
      var ab := a + b;
      assert ab[..|ab| - 1] == a + b[..|b| - 1] && ab[|ab| - 1] == b[|b| - 1];
      ExecuteConcat(c, s, a, b[..|b| - 1]);
    }
  }

  /** Without a cached profile an expired session opens no request, and asking for it ends the session. */
  lemma ExpiredSessionIsEnded(c: Config, s: State, u: UserId, sid: SessionId, row: UserInfo)
    requires sid in s.sessions && s.sessions[sid].userId == u && s.sessions[sid].isValid && s.sessions[sid].deletedAt == None
    requires !c.cacheAttached || (!Live(s.flags, sid, s.now) && !Live(s.infos, u, s.now))
    ensures var (s', p) := Validate(c, s, u, sid, row);
            if s.now > s.sessions[sid].expiresAt
            then p == None && s'.sessions == s.sessions[sid := s.sessions[sid].(isValid := false)] && s'.infos == s.infos
            else p.Some? && s'.sessions == s.sessions
  {
  }

  /** Over every run an accepted bearer token acts as the owner of its own session, and as nobody else. */
  lemma AcceptedActsAsOwner(c: Config, s: State, t: Token, row: UserInfo)
    requires Reachable(c, s) && Verifies(s, t) && row.id == t.userId
    ensures var p := Validate(c, s, t.userId, t.sessionId, row).1;
            && t.sessionId in s.sessions
            && (p.Some? ==> p.value.userId == s.sessions[t.sessionId].userId && p.value.sessionId == t.sessionId)
  {
    ReachableInv(c, s);
  }

  /** Without other calls in between, an access token opens requests for one hour and a refresh token can be exchanged for 30 days. */
  lemma TokensLiveAsLong(c: Config, s: State, info: UserInfo, sid: SessionId, tokenId: nat, seconds: nat, laterId: nat)
    requires Reachable(c, s) && sid !in s.sessions
    ensures var later := GoogleLogin(c, s, info, sid, tokenId).(now := s.now + seconds);
            && (Verifies(later, NewAccess(info.id, sid, s.now)) <==> seconds < 60 * 60)
            && (Accepts(c, later, NewAccess(info.id, sid, s.now)) <==> seconds < 60 * 60)
            && (Refresh(c, later, NewRefresh(info.id, sid, tokenId, s.now), laterId).1.Rotated? <==> seconds < 30 * 24 * 60 * 60)
  {
    ReachableInv(c, s);
    OpenedLivesAsLong(c, s, info, sid, tokenId, seconds, laterId);
    OpenedLivesAsLong(c, Displace(c, s, info.id), info, sid, tokenId, seconds, laterId);
    hide OpenSession, Accepts, Refresh, Verifies;
  }

  lemma OpenedLivesAsLong(c: Config, s: State, info: UserInfo, sid: SessionId, tokenId: nat, seconds: nat, laterId: nat)
    requires sid !in s.flags
    ensures var later := OpenSession(c, s, info, sid, tokenId).(now := s.now + seconds);
            && (Verifies(later, NewAccess(info.id, sid, s.now)) <==> seconds < 60 * 60)
            && (Accepts(c, later, NewAccess(info.id, sid, s.now)) <==> seconds < 60 * 60)
            && (Refresh(c, later, NewRefresh(info.id, sid, tokenId, s.now), laterId).1.Rotated? <==> seconds < 30 * 24 * 60 * 60)
  {
  }

  /** Once a session carries a flag, no token of it, of either kind, opens a request in any later state. */
  lemma FlaggedSessionNeverAccepted(c: Config, s: State, actions: seq<Action>, t: Token)
    requires Reachable(c, s) && c.cacheAttached && t.sessionId in s.flags
    ensures !Accepts(c, Execute(c, s, actions), t)
  {
    FlagIsPermanent(c, s, actions, t.sessionId);
    ExecuteExtendsReachable(c, s, actions);
    ReachableInv(c, Execute(c, s, actions));
  }

  /** Logout, reuse detection and Google-login displacement all set the flag of every session they end. */
  lemma EndedSessionsAreFlagged(c: Config, s: State, u: UserId, sid: SessionId, t: Token, info: UserInfo, newSid: SessionId, tokenId: nat)
    requires Reachable(c, s) && c.cacheAttached
    ensures sid in s.sessions ==> sid in Logout(c, s, u, sid, false).0.flags
    ensures ActiveSessions(s.sessions, u) <= Logout(c, s, u, sid, true).0.flags.Keys
    ensures Refresh(c, s, t, tokenId).1 == ReuseDetected ==> ActiveSessions(s.sessions, t.userId) <= Refresh(c, s, t, tokenId).0.flags.Keys
    ensures newSid !in s.sessions ==>
              forall x :: x in s.sessions && s.sessions[x].isValid && !GoogleLogin(c, s, info, newSid, tokenId).sessions[x].isValid
                ==> x in GoogleLogin(c, s, info, newSid, tokenId).flags
  {
    InvalidatedOwners(s.sessions, ActiveSessions(s.sessions, info.id));
  }

  /** Everything about the sessions outside `sids` is as before. */
  ghost predicate OthersKept(ss: Sessions, ss': Sessions, sids: set<SessionId>) {
    forall x :: x in ss && x !in sids ==> x in ss' && ss'[x] == ss[x]
  }

  /** A logout ends exactly one session, or exactly the user's active ones, and counts them. */
  lemma LogoutEndsSessions(c: Config, s: State, u: UserId, sid: SessionId)
    ensures var (s', outcome) := Logout(c, s, u, sid, false);
            if sid in s.sessions then outcome == LoggedOut(1) && !s'.sessions[sid].isValid && OthersKept(s.sessions, s'.sessions, {sid})
            else outcome == NoSuchSession && s' == s
    ensures var (s', outcome) := Logout(c, s, u, sid, true);
            var ended := ActiveSessions(s.sessions, u);
            outcome == LoggedOut(|ended|) && ActiveSessions(s'.sessions, u) == {} && OthersKept(s.sessions, s'.sessions, ended)
  {
    InvalidatedOwners(s.sessions, ActiveSessions(s.sessions, u));
  }

  /** At the limit a Google login leaves only the new session; a dev login always does. */
  lemma LoginsDisplace(c: Config, s: State, info: UserInfo, sid: SessionId, tokenId: nat)
    requires sid !in s.sessions
    ensures var active := ActiveSessions(s.sessions, info.id);
            && ActiveSessions(GoogleLogin(c, s, info, sid, tokenId).sessions, info.id)
               == (if c.maxDevices > 0 && |active| >= c.maxDevices then {sid} else active + {sid})
            && ActiveSessions(DevLogin(c, s, info, sid, tokenId).sessions, info.id) == {sid}
            && OthersKept(s.sessions, GoogleLogin(c, s, info, sid, tokenId).sessions, active)
            && OthersKept(s.sessions, DevLogin(c, s, info, sid, tokenId).sessions, active)
  {
    var active := ActiveSessions(s.sessions, info.id);
    InvalidatedOwners(s.sessions, active);
    hide OpenSession, ActiveSessions, Invalidated, Flagged;
    OpenedOne(c, s, info, sid, tokenId);
    OpenedOne(c, s.(sessions := Invalidated(s.sessions, active)), info, sid, tokenId);
    OpenedOne(c, InvalidateAndFlag(c, s, active), info, sid, tokenId);
    InvalidatedOthers(s.sessions, active);
  }

  lemma OpenedOne(c: Config, s: State, info: UserInfo, sid: SessionId, tokenId: nat)
    requires sid !in s.sessions
    ensures var s' := OpenSession(c, s, info, sid, tokenId);
            && ActiveSessions(s'.sessions, info.id) == ActiveSessions(s.sessions, info.id) + {sid}
            && OthersKept(s.sessions, s'.sessions, {})
  {
    var refresh := NewRefresh(info.id, sid, tokenId, s.now);
    OpenedActive(s.sessions, sid, Session(info.id, Some(refresh), true, s.now + REFRESH_SECONDS, None));
    hide ActiveSessions;
  }

  lemma InvalidatedOthers(ss: Sessions, sids: set<SessionId>)
    ensures OthersKept(ss, Invalidated(ss, sids), sids)
  {
  }

  /** A session that is valid and unexpired is never locked out: every unexpired token of it opens requests. */
  lemma ValidSessionIsAccepted(c: Config, s: State, t: Token)
    requires Reachable(c, s) && Verifies(s, t)
    requires Active(s.sessions, t.userId, t.sessionId) && s.now <= s.sessions[t.sessionId].expiresAt
    ensures Accepts(c, s, t)
  {
    ReachableInv(c, s);
  }

  /** The tokens a call returns work: the access token opens requests and the refresh token can be exchanged. */
  ghost predicate Working(c: Config, s: State, access: Token, refresh: Token) {
    Accepts(c, s, access) && forall tokenId :: Refresh(c, s, refresh, tokenId).1.Rotated?
  }

  /** Every login and signup opens a working session. */
  lemma LoginsWork(c: Config, s: State, info: UserInfo, sid: SessionId, tokenId: nat)
    requires Reachable(c, s) && sid !in s.sessions
    ensures var access, refresh := NewAccess(info.id, sid, s.now), NewRefresh(info.id, sid, tokenId, s.now);
            && Working(c, GoogleLogin(c, s, info, sid, tokenId), access, refresh)
            && Working(c, DevLogin(c, s, info, sid, tokenId), access, refresh)
            && Working(c, OpenSession(c, s, info, sid, tokenId), access, refresh)
  {
    ReachableInv(c, s);
    OpenedSessionWorks(c, s, info, sid, tokenId);
    OpenedSessionWorks(c, Displace(c, s, info.id), info, sid, tokenId);
    OpenedSessionWorks(c, s.(sessions := Invalidated(s.sessions, ActiveSessions(s.sessions, info.id))), info, sid, tokenId);
  }

  lemma OpenedSessionWorks(c: Config, s: State, info: UserInfo, sid: SessionId, tokenId: nat)
    requires sid !in s.flags
    ensures Working(c, OpenSession(c, s, info, sid, tokenId), NewAccess(info.id, sid, s.now), NewRefresh(info.id, sid, tokenId, s.now))
  {
  }

  /** A refresh hands over: the pair it returns works, and the chain of refreshes can go on. */
  lemma RotationWorks(c: Config, s: State, t: Token, tokenId: nat)
    requires Reachable(c, s) && Refresh(c, s, t, tokenId).1.Rotated?
    ensures var (s', outcome) := Refresh(c, s, t, tokenId); Working(c, s', outcome.access, outcome.refresh)
  {
    ReachableInv(c, s);
  }

  /**
   The other two ways to end a session (dev login, expiry) set no flag. A token of an invalid session is
   then accepted exactly while the user's cached profile lives.
   */
  lemma InvalidSessionAcceptedIff(c: Config, s: State, t: Token)
    requires Verifies(s, t) && !(t.sessionId in s.sessions && s.sessions[t.sessionId].isValid)
    ensures Accepts(c, s, t) <==> c.cacheAttached && !Live(s.flags, t.sessionId, s.now) && Live(s.infos, t.userId, s.now)
  {
  }

  /** Such a run: two dev logins of one user; the first login's access token still opens requests. */
  lemma DevLoginLeavesOldTokenAccepted(c: Config)
    requires c.cacheAttached
    ensures var info := UserInfo(1, "e", "n", None, 0);
            var s := Execute(c, Initial(0), [DoDevLogin(info, 10, 100), DoDevLogin(info, 11, 101)]);
            10 in s.sessions && !s.sessions[10].isValid && Accepts(c, s, AccessToken(1, 10, ACCESS_SECONDS))
  {
    var info := UserInfo(1, "e", "n", None, 0);
    var first, second := DoDevLogin(info, 10, 100), DoDevLogin(info, 11, 101);
    var s0 := Initial(0);
    assert [first, second][..1] == [first] && [first][..0] == [];
    var s1 := Apply(c, s0, first);
    assert Execute(c, s0, [first]) == s1;
    assert 10 in ActiveSessions(s1.sessions, 1);
    var s2 := Apply(c, s1, second);
    assert Execute(c, s0, [first, second]) == s2;
    assert AccessToken(1, 10, ACCESS_SECONDS) in s2.issued;
  }
}
