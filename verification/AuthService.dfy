/**
 AuthService as an object: the user and session tables and the Redis entries are fields that the methods
 update in the source's order, one completed call at a time. Each method is tied to the protocol
 functions of module AuthSessions, so the whole-run theorems there are about this object.
 */
module AuthService {
  import opened Prelude
  import opened Redis
  import opened AuthSessions

  /** A row of the user table. Password hashing is not part of this model: the stored value is what is compared. */
  datatype User = User(
    googleId: Option<string>, email: string, password: Option<string>, name: string, picture: Option<string>, deletedAt: Option<nat>)

  type Users = map<UserId, User>

  datatype Profile = Profile(googleId: string, email: string, name: string, picture: Option<string>)

  datatype Error =
    | EmailOfAnotherAccount   // handleGoogleLogin: 401
    | UniqueViolation         // a soft-deleted row still holds the email or google id
    | EmailRegistered         // handleDevSignup: 409
    | BadCredentials          // handleDevLogin: 401

  datatype Login = Login(user: UserInfo, access: Token, refresh: Token, isNewUser: bool)

  /** The unique constraints on email and googleId; they do not look at deletedAt. */
  ghost predicate UniqueUsers(users: Users) {
    forall u, v :: u in users && v in users && u != v ==>
      users[u].email != users[v].email && (users[u].googleId.Some? ==> users[u].googleId != users[v].googleId)
  }

  function ByGoogleId(users: Users, googleId: string): (r: Option<UserId>)
    requires UniqueUsers(users)
    ensures r.Some? ==> r.value in users && users[r.value].googleId == Some(googleId) && users[r.value].deletedAt.None?
    ensures r.None? ==> forall u :: u in users && users[u].deletedAt.None? ==> users[u].googleId != Some(googleId)
  {
    if exists u :: u in users && users[u].googleId == Some(googleId) && users[u].deletedAt.None? then
      var u :| u in users && users[u].googleId == Some(googleId) && users[u].deletedAt.None?;
      Some(u)
    else None
  }

  function ByEmail(users: Users, email: string): (r: Option<UserId>)
    requires UniqueUsers(users)
    ensures r.Some? ==> r.value in users && users[r.value].email == email && users[r.value].deletedAt.None?
    ensures r.None? ==> forall u :: u in users && users[u].deletedAt.None? ==> users[u].email != email
  {
    if exists u :: u in users && users[u].email == email && users[u].deletedAt.None? then
      var u :| u in users && users[u].email == email && users[u].deletedAt.None?;
      Some(u)
    else None
  }

  function PictureOr(profile: Profile): string {
    match profile.picture case Some(p) => p case None => ""
  }

  predicate Collides(users: Users, row: User) {
    exists u :: u in users && (users[u].email == row.email || (row.googleId.Some? && users[u].googleId == row.googleId))
  }

  function InfoOf(u: UserId, row: User, sid: SessionId): UserInfo {
    UserInfo(u, row.email, row.name, row.picture, sid)
  }

  /** The profile shows the columns of the user's row. */
  predicate Shows(info: UserInfo, u: UserId, row: User, sid: SessionId) {
    info.id == u && info.sessionId == sid && info.email == row.email && info.name == row.name && info.picture == row.picture
  }

  /** Another row, deleted or not, has this e-mail address or google id. */
  predicate TakenBy(users: Users, email: string, googleId: Option<string>, u: UserId) {
    u in users && (users[u].email == email || (googleId.Some? && users[u].googleId == googleId))
  }

  lemma CollidesIff(users: Users, row: User)
    ensures Collides(users, row) <==> exists u :: TakenBy(users, row.email, row.googleId, u)
  {
    if u :| u in users && (users[u].email == row.email || (row.googleId.Some? && users[u].googleId == row.googleId)) {
      assert TakenBy(users, row.email, row.googleId, u);
    }
  }

  lemma FlagOneMore(c: Config, flags: Flags, done: set<SessionId>, sid: SessionId, now: nat)
    ensures Flagged(c, Flagged(c, flags, done, now), {sid}, now) == Flagged(c, flags, done + {sid}, now)
  {
  }

  lemma NothingToFlag(c: Config, flags: Flags, now: nat)
    ensures Flagged(c, flags, {}, now) == flags
  {
  }

  class AuthService {
    const config: Config
    var users: Users
    var sessions: Sessions
    var flags: Flags
    var infos: Infos
    var issued: set<Token>
    ghost var redeemed: set<Token>
    var now: nat

    ghost function Model(): State
      reads this
    {
      State(now, sessions, flags, infos, issued, redeemed)
    }

    ghost predicate Valid()
      reads this
    {
      && UniqueUsers(users)
      && (forall sid :: sid in sessions ==> sessions[sid].userId in users)
      && Inv(config, Model())
    }

    constructor (c: Config, start: nat)
      ensures Valid() && config == c && Model() == Initial(start) && users == map[]
    {
      config := c;
      users, sessions, flags, infos, issued, redeemed, now := map[], map[], map[], map[], {}, {}, start;
      new;
      RunKeepsInvariant(config, start, []);
    }

    method Wait(seconds: nat)
      requires Valid()
      modifies this`now
      ensures Valid() && Model() == Apply(config, old(Model()), Action.Wait(seconds))
    {
      StepPreserves(config, Model(), Action.Wait(seconds));
      now := now + seconds;
    }

    // -------------------------------------------------------------- cache helpers

    method MarkSessionInvalidInCache(sid: SessionId)
      modifies this`flags
      ensures flags == Flagged(config, old(flags), {sid}, now)
      ensures flags == if config.cacheAttached then old(flags)[sid := Entry(true, Some(now + 30 * 24 * 60 * 60))] else old(flags)
    {
      if config.cacheAttached {
        flags := SetEx(flags, sid, true, now, REFRESH_SECONDS);
      }
    }

    /** The loops over the sessions that were just invalidated. */
    method MarkAll(sids: set<SessionId>)
      modifies this`flags
      ensures flags == Flagged(config, old(flags), sids, now)
    {
      hide Flagged;
      var todo := sids;
      assert flags == Flagged(config, flags, {}, now) by { NothingToFlag(config, flags, now); }
      assert sids - todo == {};
      while todo != {}
        invariant todo <= sids
        invariant flags == Flagged(config, old(flags), sids - todo, now)
        decreases todo
      {
        var sid :| sid in todo;
        FlagOneMore(config, old(flags), sids - todo, sid, now);
        assert sids - (todo - {sid}) == (sids - todo) + {sid};
        MarkSessionInvalidInCache(sid);
        todo := todo - {sid};
      }
      assert sids - {} == sids;
    }

    method CacheUserInfo(u: UserId, info: UserInfo)
      modifies this`infos
      ensures infos == CachedInfo(config, old(infos), u, info, now)
      ensures infos == if config.cacheAttached then old(infos)[u := Entry(info, Some(now + 60 * 60))] else old(infos)
    {
      if config.cacheAttached {
        infos := SetEx(infos, u, info, now, USER_INFO_TTL);
      }
    }

    // -------------------------------------------------------------- session helpers

    method InvalidateExistingSessions(u: UserId)
      modifies this`sessions, this`flags
      ensures Model() == Displace(config, old(Model()), u)
    {
      var active := ActiveSessions(sessions, u);
      if config.maxDevices > 0 && |active| >= config.maxDevices {
        sessions := Invalidated(sessions, active);
        MarkAll(active);
      }
    }

    method InvalidateAllUserSessions(u: UserId) returns (count: nat)
      modifies this`sessions, this`flags
      ensures Model() == InvalidateAndFlag(config, old(Model()), ActiveSessions(old(sessions), u))
      ensures count == |ActiveSessions(old(sessions), u)|
    {
      var active := ActiveSessions(sessions, u);
      if |active| == 0 {
        assert active == {} && Invalidated(sessions, {}) == sessions;
        NothingToFlag(config, flags, now);
        return 0;
      }
      sessions := Invalidated(sessions, active);
      MarkAll(active);
      return |active|;
    }

    /** createSession, token signing and the update that stores the refresh token's hash. */
    method CreateSession(info: UserInfo, sid: SessionId, tokenId: nat) returns (access: Token, refresh: Token)
      requires sid !in sessions
      modifies this`sessions, this`issued
      ensures var after := OpenSession(config, old(Model()), info, sid, tokenId);
              Model() == after.(infos := infos)
      ensures access == NewAccess(info.id, sid, now) && refresh == NewRefresh(info.id, sid, tokenId, now)
    {
      sessions := sessions[sid := Session(info.id, None, true, now + REFRESH_SECONDS, None)];
      access, refresh := NewAccess(info.id, sid, now), NewRefresh(info.id, sid, tokenId, now);
      issued := issued + {access, refresh};
      sessions := sessions[sid := sessions[sid].(refresh := Some(refresh))];
    }

    // -------------------------------------------------------------- login and signup

    /** The user part of handleGoogleLogin: find by google id and refresh the profile, or create. */
    method ResolveGoogleUser(profile: Profile, newUser: UserId) returns (r: Result<UserId, Error>, isNewUser: bool)
      requires Valid() && newUser !in users
      modifies this`users
      ensures Valid()
      ensures var found := ByGoogleId(old(users), profile.googleId);
              var row := User(Some(profile.googleId), profile.email, None, profile.name, profile.picture, None);
              if found.Some? then
                && r == Ok(found.value) && !isNewUser
                && users == old(users)[found.value := old(users)[found.value].(name := profile.name, picture := Some(PictureOr(profile)))]
              else
                if ByEmail(old(users), profile.email).Some? then r == Err(EmailOfAnotherAccount) && users == old(users)
                else if Collides(old(users), row) then r == Err(UniqueViolation) && users == old(users)
                else r == Ok(newUser) && isNewUser && users == old(users)[newUser := row]
    {
      var found := ByGoogleId(users, profile.googleId);
      if found.Some? {
        var u := found.value;
        var user := users[u];
        if profile.name != user.name {
          user := user.(name := profile.name);
        }
        // An absent picture is undefined, which never equals the stored null or string.
        if profile.picture.None? || profile.picture != user.picture {
          user := user.(picture := Some(PictureOr(profile)));
        }
        users := users[u := user];
        return Ok(u), false;
      }
      if ByEmail(users, profile.email).Some? {
        return Err(EmailOfAnotherAccount), false;
      }
      var row := User(Some(profile.googleId), profile.email, None, profile.name, profile.picture, None);
      if Collides(users, row) {
        return Err(UniqueViolation), false;
      }
      users := users[newUser := row];
      return Ok(newUser), true;
    }

    /** The session part of handleGoogleLogin: displace, create, sign, store the hash, cache the profile. */
    method ReplaceSessions(info: UserInfo, sid: SessionId, tokenId: nat) returns (access: Token, refresh: Token)
      requires sid !in sessions && info.sessionId == sid
      modifies this`sessions, this`flags, this`infos, this`issued
      ensures Model() == GoogleLogin(config, old(Model()), info, sid, tokenId)
      ensures access == NewAccess(info.id, sid, now) && refresh == NewRefresh(info.id, sid, tokenId, now)
    {
      hide ActiveSessions, Invalidated, Flagged;
      InvalidateExistingSessions(info.id);
      access, refresh := CreateSession(info, sid, tokenId);
      CacheUserInfo(info.id, info);
    }

    method HandleGoogleLogin(profile: Profile, newUser: UserId, sid: SessionId, tokenId: nat) returns (r: Result<Login, Error>)
      requires Valid() && newUser !in users && sid !in sessions && FreshTokenId(Model(), tokenId)
      modifies this
      ensures Valid()
      ensures var found := ByGoogleId(old(users), profile.googleId);
              var row := User(Some(profile.googleId), profile.email, None, profile.name, profile.picture, None);
              if found.None? && ByEmail(old(users), profile.email).Some? then
                r == Err(EmailOfAnotherAccount) && Model() == old(Model()) && users == old(users)
              else if found.None? && Collides(old(users), row) then
                r == Err(UniqueViolation) && Model() == old(Model()) && users == old(users)
              else
                var u := if found.Some? then found.value else newUser;
                && users == old(users)[u := if found.None? then row
                                            else old(users)[u].(name := profile.name, picture := Some(PictureOr(profile)))]
                && Model() == Apply(config, old(Model()), DoGoogleLogin(InfoOf(u, users[u], sid), sid, tokenId))
                && r == Ok(Login(InfoOf(u, users[u], sid), NewAccess(u, sid, now), NewRefresh(u, sid, tokenId, now), found.None?))
      ensures r.Ok? ==> r.value.user.id in users && Shows(r.value.user, r.value.user.id, users[r.value.user.id], sid)
      ensures r.Ok? ==> var row := users[r.value.user.id];
                        && row.googleId == Some(profile.googleId) && row.name == profile.name
                        && (!r.value.isNewUser ==> row.picture == Some(if profile.picture.Some? then profile.picture.value else ""))
                        && (r.value.isNewUser ==> row.email == profile.email && row.picture == profile.picture)
      ensures r == Err(UniqueViolation) ==> exists u :: TakenBy(old(users), profile.email, Some(profile.googleId), u)
      ensures r.Ok? && r.value.isNewUser ==> forall u :: !TakenBy(old(users), profile.email, Some(profile.googleId), u)
    {
      hide Inv, ActiveSessions, Invalidated, Flagged, UniqueUsers, Collides, TakenBy;
      CollidesIff(users, User(Some(profile.googleId), profile.email, None, profile.name, profile.picture, None));
      var resolved, isNewUser := ResolveGoogleUser(profile, newUser);
      if resolved.Err? {
        return Err(resolved.error);
      }
      var u := resolved.value;
      var info := InfoOf(u, users[u], sid);
      StepPreserves(config, Model(), DoGoogleLogin(info, sid, tokenId));
      var access, refresh := ReplaceSessions(info, sid, tokenId);
      return Ok(Login(info, access, refresh, isNewUser));
    }

    /** createAuthenticatedSession: tokens are signed first and stored with the new row. */
    method CreateAuthenticatedSession(info: UserInfo, sid: SessionId, tokenId: nat, isNewUser: bool) returns (login: Login)
      requires sid !in sessions
      modifies this`sessions, this`issued, this`infos
      ensures Model() == OpenSession(config, old(Model()), info, sid, tokenId)
      ensures login == Login(info.(sessionId := sid), NewAccess(info.id, sid, now), NewRefresh(info.id, sid, tokenId, now), isNewUser)
    {
      var access, refresh := NewAccess(info.id, sid, now), NewRefresh(info.id, sid, tokenId, now);
      issued := issued + {access, refresh};
      sessions := sessions[sid := Session(info.id, Some(refresh), true, now + REFRESH_SECONDS, None)];
      CacheUserInfo(info.id, info.(sessionId := sid));
      return Login(info.(sessionId := sid), access, refresh, isNewUser);
    }

    method HandleDevSignup(email: string, password: string, name: string, newUser: UserId, sid: SessionId, tokenId: nat)
      returns (r: Result<Login, Error>)
      requires Valid() && newUser !in users && sid !in sessions && FreshTokenId(Model(), tokenId)
      modifies this
      ensures Valid()
      ensures var row := User(None, email, Some(password), name, None, None);
              if Collides(old(users), row) then r == Err(EmailRegistered) && users == old(users) && Model() == old(Model())
              else
                && users == old(users)[newUser := row]
                && Model() == Apply(config, old(Model()), DoDevSignup(InfoOf(newUser, row, sid), sid, tokenId))
                && r == Ok(Login(InfoOf(newUser, row, sid), NewAccess(newUser, sid, now), NewRefresh(newUser, sid, tokenId, now), true))
      ensures r.Err? <==> exists u :: TakenBy(old(users), email, None, u)
      ensures r.Ok? ==> newUser in users && Shows(r.value.user, newUser, users[newUser], sid) && users[newUser].email == email
                        && users[newUser].name == name && users[newUser].password == Some(password)
    {
      hide TakenBy, ActiveSessions, Flagged;
      var row := User(None, email, Some(password), name, None, None);
      CollidesIff(users, row);
      if Collides(users, row) {
        return Err(EmailRegistered);
      }
      users := users[newUser := row];
      StepPreserves(config, Model(), DoDevSignup(InfoOf(newUser, row, sid), sid, tokenId));
      var login := CreateAuthenticatedSession(InfoOf(newUser, row, sid), sid, tokenId, true);
      return Ok(login);
    }

    method HandleDevLogin(email: string, password: string, sid: SessionId, tokenId: nat) returns (r: Result<Login, Error>)
      requires Valid() && sid !in sessions && FreshTokenId(Model(), tokenId)
      modifies this`sessions, this`issued, this`infos
      ensures Valid()
      ensures var found := ByEmail(users, email);
              if found.Some? && users[found.value].password == Some(password) then
                var info := InfoOf(found.value, users[found.value], sid);
                && Model() == Apply(config, old(Model()), DoDevLogin(info, sid, tokenId))
                && r == Ok(Login(info, NewAccess(info.id, sid, now), NewRefresh(info.id, sid, tokenId, now), false))
              else r == Err(BadCredentials) && Model() == old(Model())
      ensures r.Ok? ==>
                var u := r.value.user.id;
                && u in users && Shows(r.value.user, u, users[u], sid)
                && users[u].email == email && users[u].password == Some(password) && users[u].deletedAt.None?
    {
      var found := ByEmail(users, email);
      if found.None? || users[found.value].password.None? {
        return Err(BadCredentials);
      }
      var u := found.value;
      if users[u].password != Some(password) {
        return Err(BadCredentials);
      }
      var info := InfoOf(u, users[u], sid);
      StepPreserves(config, Model(), DoDevLogin(info, sid, tokenId));
      sessions := Invalidated(sessions, ActiveSessions(sessions, u));
      var login := CreateAuthenticatedSession(info, sid, tokenId, false);
      return Ok(login);
    }

    // -------------------------------------------------------------- refresh, validate, logout

    method RefreshTokens(t: Token, tokenId: nat) returns (outcome: RefreshOutcome)
      requires Valid() && FreshTokenId(Model(), tokenId)
      modifies this`sessions, this`flags, this`issued, this`redeemed
      ensures Valid()
      ensures (Model(), outcome) == Refresh(config, old(Model()), t, tokenId)
    {
      hide Inv, ActiveSessions, Invalidated, Flagged, UniqueUsers;
      RefreshPreserves(config, Model(), t, tokenId);
      if t !in issued || now >= t.expiresAt {
        return InvalidToken;
      }
      if t.sessionId !in sessions {
        return SessionNotValid;
      }
      var sid, session := t.sessionId, sessions[t.sessionId];
      if !session.isValid || session.deletedAt.Some? {
        return SessionNotValid;
      }
      if now > session.expiresAt {
        sessions := sessions[sid := session.(isValid := false)];
        return SessionExpired;
      }
      if session.refresh != Some(t) {
        var _ := InvalidateAllUserSessions(t.userId);
        return ReuseDetected;
      }
      var access, refresh := NewAccess(t.userId, sid, now), NewRefresh(t.userId, sid, tokenId, now);
      issued := issued + {access, refresh};
      sessions := sessions[sid := session.(refresh := Some(refresh))];
      redeemed := redeemed + {t};
      return Rotated(access, refresh);
    }

    /** Without a user row there is no session of the user either, so the row that stands in is never used. */
    method ValidateSession(u: UserId, sid: SessionId) returns (p: Option<Principal>)
      requires Valid()
      modifies this`sessions, this`infos
      ensures Valid()
      ensures var row := if u in users then InfoOf(u, users[u], sid) else UserInfo(u, "", "", None, sid);
              (Model(), p) == Validate(config, old(Model()), u, sid, row)
      ensures p.Some? ==> p.value.userId == u && p.value.sessionId == sid
      ensures p.Some? && config.cacheAttached && Live(old(infos), u, now) ==>
                var cached := old(infos)[u].value;
                p.value.email == cached.email && p.value.name == cached.name && p.value.picture == cached.picture
      ensures p.Some? && !(config.cacheAttached && Live(old(infos), u, now)) ==>
                && u in users && sid in sessions && sessions[sid].userId == u
                && p.value.email == users[u].email && p.value.name == users[u].name && p.value.picture == users[u].picture
    {
      ValidatePreserves(config, Model(), u, sid, if u in users then InfoOf(u, users[u], sid) else UserInfo(u, "", "", None, sid));
      if config.cacheAttached && Live(flags, sid, now) {
        return None;
      }
      if config.cacheAttached && Live(infos, u, now) {
        return Some(PrincipalOf(infos[u].value, sid));
      }
      if !Active(sessions, u, sid) {
        return None;
      }
      var session := sessions[sid];
      if now > session.expiresAt {
        sessions := sessions[sid := session.(isValid := false)];
        return None;
      }
      var info := InfoOf(u, users[u], sid);
      CacheUserInfo(u, info);
      return Some(PrincipalOf(info, sid));
    }

    method Logout(u: UserId, sid: SessionId, allDevices: bool) returns (outcome: LogoutOutcome)
      requires Valid()
      modifies this`sessions, this`flags, this`infos
      ensures Valid()
      ensures (Model(), outcome) == AuthSessions.Logout(config, old(Model()), u, sid, allDevices)
    {
      hide Inv, ActiveSessions, UniqueUsers;
      StepPreserves(config, Model(), DoLogout(u, sid, allDevices));
      var invalidated: nat;
      if allDevices {
        invalidated := InvalidateAllUserSessions(u);
      } else {
        if sid !in sessions {
          return NoSuchSession;
        }
        assert Invalidated(sessions, {sid}) == sessions[sid := sessions[sid].(isValid := false)];
        sessions := sessions[sid := sessions[sid].(isValid := false)];
        MarkSessionInvalidInCache(sid);
        invalidated := 1;
      }
      if config.cacheAttached {
        infos := infos - {u};
      }
      return LoggedOut(invalidated);
    }
  }
}
