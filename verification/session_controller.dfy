/** SessionRestController: login, listing and revoking one's own sessions, and
    the admin-only user creation. The caller's identity, which the source reads
    from the security context holder, is passed in explicitly; SHA-256 and the
    authentication manager are constants of the controller, uninterpreted. */
module SessionController {
  import opened Wrappers
  import opened Time
  import opened Security
  import opened StringUtils
  import opened SessionStore
  import opened Users

  const UNKNOWN_USER_AGENT := "Unknown"

  datatype HttpStatus = Ok | Created | BadRequest | Forbidden | NotFound

  datatype Response<T> = Response(body: T, status: HttpStatus)

  datatype LoginRequest = LoginRequest(username: string, password: string)

  datatype CreateUserRequest = CreateUserRequest(username: string, password: string)

  /** What authenticationManager.authenticate throws on bad credentials. */
  datatype AuthenticationException = BadCredentials

  /** The external view of a session: a hash of its key, never the key. */
  datatype SessionInfo = SessionInfo(
    id: string,
    userAgent: Option<string>,
    creationTime: EpochMillis,
    lastAccessedTime: EpochMillis,
    isCurrent: bool)

  /** The user agent a login records: the User-Agent header when it has
      text, otherwise "Unknown"; either way a string with text. */
  function UserAgentOf(header: Option<string>): (userAgent: string)
    ensures HasText(Some(userAgent))
    ensures HasText(header) ==> userAgent == header.value
    ensures !HasText(header) ==> userAgent == UNKNOWN_USER_AGENT
  {
    if HasText(header) then header.value
    else
      assert !IsWhitespace(UNKNOWN_USER_AGENT[0]);
      UNKNOWN_USER_AGENT
  }

  /** Every session bound to a principal carries a user agent with text. */
  ghost predicate AgentsRecorded(sessions: map<SessionKey, SessionRecord>)
  {
    forall k :: k in sessions && sessions[k].securityContext.Some? ==>
      HasText(sessions[k].userAgent)
  }

  /** The store after a successful login: the request's session, touched or
      new, carries the authentication and the user agent. */
  function LoggedIn(sessions: map<SessionKey, SessionRecord>, requested: Option<SessionKey>,
                    freshKey: SessionKey, auth: Authentication, userAgent: string,
                    now: EpochMillis): map<SessionKey, SessionRecord>
  {
    var key := RequestSessionKey(sessions, requested, freshKey);
    var touched := Touched(sessions, requested, freshKey, now);
    touched[key := touched[key].(securityContext := Some(auth), userAgent := Some(userAgent))]
  }

  /** A login writes one record: the request's session, touched or new, with
      the authentication and the user agent set. */
  lemma LoggedInWrites(sessions: map<SessionKey, SessionRecord>, requested: Option<SessionKey>,
                       freshKey: SessionKey, auth: Authentication, userAgent: string, now: EpochMillis)
    ensures var key := RequestSessionKey(sessions, requested, freshKey);
            var base := if key in sessions then sessions[key].(lastAccessedTime := now)
                        else SessionRecord(None, None, now, now);
            LoggedIn(sessions, requested, freshKey, auth, userAgent, now)
            == sessions[key := base.(securityContext := Some(auth), userAgent := Some(userAgent))]
  {
  }

  /** A login that does not reuse a live session adds exactly one session to
      the principal's index and leaves every other principal's sessions as
      they were; a login keeps every session bound to a user agent with text. */
  lemma LoginAddsOneSession(sessions: map<SessionKey, SessionRecord>, requested: Option<SessionKey>,
                            freshKey: SessionKey, auth: Authentication, header: Option<string>,
                            now: EpochMillis)
    requires freshKey !in sessions
    requires requested.None? || requested.value !in sessions
    ensures var after := LoggedIn(sessions, requested, freshKey, auth, UserAgentOf(header), now);
            && freshKey in ByPrincipal(after, auth.name)
            && ByPrincipal(after, auth.name) == ByPrincipal(sessions, auth.name)[freshKey := after[freshKey]]
            && |ByPrincipal(after, auth.name)| == |ByPrincipal(sessions, auth.name)| + 1
            && forall other :: other != auth.name ==>
                 ByPrincipal(after, other) == ByPrincipal(sessions, other)
  {
    var r := SessionRecord(Some(auth), Some(UserAgentOf(header)), now, now);
    LoggedInWrites(sessions, requested, freshKey, auth, UserAgentOf(header), now);
    AddIndex(sessions, freshKey, r, auth.name);
  }

  /** A login on a live session the principal already owns adds nothing to
      the principal's index: getSession(true) reuses that session, so the
      count of the principal's sessions stays the same. */
  lemma LoginReusingOwnSession(sessions: map<SessionKey, SessionRecord>, key: SessionKey,
                               freshKey: SessionKey, auth: Authentication, header: Option<string>,
                               now: EpochMillis)
    requires key in sessions && PrincipalName(sessions[key]) == Some(auth.name)
    ensures var after := LoggedIn(sessions, Some(key), freshKey, auth, UserAgentOf(header), now);
            && ByPrincipal(after, auth.name).Keys == ByPrincipal(sessions, auth.name).Keys
            && |ByPrincipal(after, auth.name)| == |ByPrincipal(sessions, auth.name)|
  {
    var after := LoggedIn(sessions, Some(key), freshKey, auth, UserAgentOf(header), now);
    var r := sessions[key].(lastAccessedTime := now, securityContext := Some(auth),
                            userAgent := Some(UserAgentOf(header)));
    LoggedInWrites(sessions, Some(key), freshKey, auth, UserAgentOf(header), now);
    PutIndex(sessions, key, r, auth.name);
    assert ByPrincipal(after, auth.name).Keys == ByPrincipal(sessions, auth.name).Keys;
  }

  /** A login on a live session the principal does not own, anonymous or
      bound to someone else, takes that session over: it joins the
      principal's index, whose count grows by one, and leaves every other
      principal's index, so a previous owner's count drops by one. */
  lemma LoginTakesOverSession(sessions: map<SessionKey, SessionRecord>, key: SessionKey,
                              freshKey: SessionKey, auth: Authentication, header: Option<string>,
                              now: EpochMillis)
    requires key in sessions && PrincipalName(sessions[key]) != Some(auth.name)
    ensures var after := LoggedIn(sessions, Some(key), freshKey, auth, UserAgentOf(header), now);
            && key in ByPrincipal(after, auth.name)
            && ByPrincipal(after, auth.name).Keys == ByPrincipal(sessions, auth.name).Keys + {key}
            && |ByPrincipal(after, auth.name)| == |ByPrincipal(sessions, auth.name)| + 1
            && (forall other :: other != auth.name ==>
                  ByPrincipal(after, other) == ByPrincipal(sessions, other) - {key})
            && (PrincipalName(sessions[key]).Some? ==>
                  var previous := PrincipalName(sessions[key]).value;
                  |ByPrincipal(after, previous)| == |ByPrincipal(sessions, previous)| - 1)
  {
    var after := LoggedIn(sessions, Some(key), freshKey, auth, UserAgentOf(header), now);
    var r := sessions[key].(lastAccessedTime := now, securityContext := Some(auth),
                            userAgent := Some(UserAgentOf(header)));
    LoggedInWrites(sessions, Some(key), freshKey, auth, UserAgentOf(header), now);
    PutIndex(sessions, key, r, auth.name);
    AddCount(ByPrincipal(sessions, auth.name), key, r);
    forall other | other != auth.name
      ensures ByPrincipal(after, other) == ByPrincipal(sessions, other) - {key}
    {
      PutIndex(sessions, key, r, other);
    }
    if PrincipalName(sessions[key]).Some? {
      RemoveCount(ByPrincipal(sessions, PrincipalName(sessions[key]).value), key);
    }
  }

  /** Serving a request in a session keeps AgentsRecorded: the touched
      session keeps its attributes, and a new one is not bound. */
  lemma TouchKeepsAgentsRecorded(sessions: map<SessionKey, SessionRecord>, requested: Option<SessionKey>,
                                 freshKey: SessionKey, now: EpochMillis)
    requires AgentsRecorded(sessions)
    ensures AgentsRecorded(Touched(sessions, requested, freshKey, now))
  {
  }

  /** Every login, fresh or reusing a session, keeps AgentsRecorded. */
  lemma LoginKeepsAgentsRecorded(sessions: map<SessionKey, SessionRecord>, requested: Option<SessionKey>,
                                 freshKey: SessionKey, auth: Authentication, header: Option<string>,
                                 now: EpochMillis)
    requires AgentsRecorded(sessions)
    ensures AgentsRecorded(LoggedIn(sessions, requested, freshKey, auth, UserAgentOf(header), now))
  {
  }

  /** One entry of getMySessions: the SHA-256 of the key as id, the user agent
      and the two timestamps of the record, and whether the key is the
      caller's own. */
  function ToSessionInfo(hash: string -> string, currentSessionId: SessionKey,
                         key: SessionKey, r: SessionRecord): SessionInfo
  {
    SessionInfo(hash(key), r.userAgent, r.creationTime, r.lastAccessedTime, key == currentSessionId)
  }

  /** getMySessions' projection of a findByPrincipalName snapshot, collected
      into a set: every session of the snapshot has its entry, and every entry
      is the entry of some session of the snapshot. */
  function MySessions(hash: string -> string, found: map<SessionKey, SessionRecord>,
                      currentSessionId: SessionKey): (infos: set<SessionInfo>)
    ensures forall k {:trigger ToSessionInfo(hash, currentSessionId, k, found[k])} ::
              k in found ==> ToSessionInfo(hash, currentSessionId, k, found[k]) in infos
    ensures forall info :: info in infos ==>
              exists k :: k in found && info == ToSessionInfo(hash, currentSessionId, k, found[k])
  {
    set k | k in found :: ToSessionInfo(hash, currentSessionId, k, found[k])
  }

  /** The raw key reaches a SessionInfo only through its hash and the
      comparison with the current key: two keys with the same hash, neither
      of them current, give the same entry for the same record. */
  lemma SessionInfoHidesKey(hash: string -> string, currentSessionId: SessionKey,
                            k1: SessionKey, k2: SessionKey, r: SessionRecord)
    requires hash(k1) == hash(k2)
    requires k1 != currentSessionId && k2 != currentSessionId
    ensures ToSessionInfo(hash, currentSessionId, k1, r) == ToSessionInfo(hash, currentSessionId, k2, r)
  {
  }

  /** At most one listed entry is marked current, and one is exactly when the
      caller's own session is among the snapshot. */
  lemma {:induction false} AtMostOneCurrent(hash: string -> string, found: map<SessionKey, SessionRecord>,
                                            currentSessionId: SessionKey)
    ensures forall a, b ::
              (a in MySessions(hash, found, currentSessionId) && a.isCurrent &&
               b in MySessions(hash, found, currentSessionId) && b.isCurrent) ==> a == b
    ensures (exists a :: a in MySessions(hash, found, currentSessionId) && a.isCurrent)
            <==> currentSessionId in found
  {
    var infos := MySessions(hash, found, currentSessionId);
    forall a, b | a in infos && a.isCurrent && b in infos && b.isCurrent
      ensures a == b
    {
      var ka :| ka in found && a == ToSessionInfo(hash, currentSessionId, ka, found[ka]);
      var kb :| kb in found && b == ToSessionInfo(hash, currentSessionId, kb, found[kb]);
    }
    if currentSessionId in found {
      assert ToSessionInfo(hash, currentSessionId, currentSessionId, found[currentSessionId]).isCurrent;
    }
  }

  /** The projection of the keys `keys` of a snapshot. */
  function Project(hash: string -> string, found: map<SessionKey, SessionRecord>,
                   currentSessionId: SessionKey, keys: set<SessionKey>): set<SessionInfo>
    requires keys <= found.Keys
  {
    set k | k in keys :: ToSessionInfo(hash, currentSessionId, k, found[k])
  }

  lemma {:induction false} ProjectCount(hash: string -> string, found: map<SessionKey, SessionRecord>,
                                        currentSessionId: SessionKey, keys: set<SessionKey>)
    requires keys <= found.Keys
    ensures |Project(hash, found, currentSessionId, keys)| <= |keys|
    ensures (forall k1, k2 :: k1 in keys && k2 in keys && hash(k1) == hash(k2) ==> k1 == k2) ==>
              |Project(hash, found, currentSessionId, keys)| == |keys|
    decreases keys
  {
    if keys != {} {
      var k :| k in keys;
      var rest := keys - {k};
      var info := ToSessionInfo(hash, currentSessionId, k, found[k]);
      ProjectCount(hash, found, currentSessionId, rest);
      assert Project(hash, found, currentSessionId, keys) == Project(hash, found, currentSessionId, rest) + {info};
      if forall k1, k2 :: k1 in keys && k2 in keys && hash(k1) == hash(k2) ==> k1 == k2 {
        assert info !in Project(hash, found, currentSessionId, rest);
      }
    }
  }

  /** getMySessions lists at most one entry per session of the caller, and
      exactly one per session when SHA-256 does not collide on the caller's
      keys (an explicit hypothesis: the model does not assume SHA-256 is
      injective). */
  lemma MySessionsCount(hash: string -> string, found: map<SessionKey, SessionRecord>,
                        currentSessionId: SessionKey)
    ensures |MySessions(hash, found, currentSessionId)| <= |found|
    ensures (forall k1, k2 :: k1 in found && k2 in found && hash(k1) == hash(k2) ==> k1 == k2) ==>
              |MySessions(hash, found, currentSessionId)| == |found|
  {
    assert MySessions(hash, found, currentSessionId) == Project(hash, found, currentSessionId, found.Keys);
    assert |found.Keys| == |found|;
    ProjectCount(hash, found, currentSessionId, found.Keys);
  }

  /** In a store where every bound session has a user agent with text, every
      entry getMySessions lists has one. */
  lemma ListedAgentsHaveText(hash: string -> string, sessions: map<SessionKey, SessionRecord>,
                             username: string, currentSessionId: SessionKey)
    requires AgentsRecorded(sessions)
    ensures forall info :: info in MySessions(hash, ByPrincipal(sessions, username), currentSessionId) ==>
              HasText(info.userAgent)
  {
  }

  /** The keys of a snapshot whose hash is `id`: the candidates deleteSession
      may remove. */
  function Matching(hash: string -> string, found: map<SessionKey, SessionRecord>, id: string): set<SessionKey>
  {
    set k | k in found && hash(k) == id
  }

  /** The candidates depend only on the snapshot's keys. */
  lemma MatchingByKeys(hash: string -> string, a: map<SessionKey, SessionRecord>,
                       b: map<SessionKey, SessionRecord>, id: string)
    requires a.Keys == b.Keys
    ensures Matching(hash, a, id) == Matching(hash, b, id)
  {
  }

  /** filter(sha256Hex(key) == id).findFirst() over the entries of a
      snapshot: the entry order of the source's map is unspecified, so any
      matching key may be the one found. */
  method FindFirstMatching(hash: string -> string, found: map<SessionKey, SessionRecord>, id: string)
    returns (first: Option<SessionKey>)
    ensures first.Some? ==> first.value in found && hash(first.value) == id
    ensures first.None? ==> forall k :: k in found ==> hash(k) != id
  {
    var remaining := found.Keys;
    while remaining != {}
      invariant remaining <= found.Keys
      invariant forall k :: k in found && k !in remaining ==> hash(k) != id
      decreases remaining
    {
      var k :| k in remaining;
      if hash(k) == id {
        return Some(k);
      }
      remaining := remaining - {k};
    }
    return None;
  }

  class SessionRestController {
    const sessions: SessionRepository
    const userRepository: UserRepository
    /** authenticationManager.authenticate: the authentication, or None when it throws. */
    const authenticationManager: (string, string) -> Option<Authentication>
    /** DigestUtils.sha256Hex. */
    const sha256Hex: string -> string
    /** The request's security context (SecurityContextHolder.getContext()). */
    var securityContext: Option<Authentication>

    ghost predicate Valid()
      reads this, sessions, userRepository
    {
      AgentsRecorded(sessions.sessions) && userRepository.Valid()
    }

    constructor (sessions: SessionRepository, userRepository: UserRepository,
                 authenticationManager: (string, string) -> Option<Authentication>,
                 sha256Hex: string -> string)
      requires AgentsRecorded(sessions.sessions) && userRepository.Valid()
      ensures Valid() && securityContext.None?
      ensures this.sessions == sessions && this.userRepository == userRepository
      ensures this.authenticationManager == authenticationManager && this.sha256Hex == sha256Hex
    {
      this.sessions := sessions;
      this.userRepository := userRepository;
      this.authenticationManager := authenticationManager;
      this.sha256Hex := sha256Hex;
      this.securityContext := None;
    }

    /** POST /login. Authentication comes first: when it fails nothing is
        bound and no session is created or changed. */
    method AuthenticateUser(request: LoginRequest, userAgentHeader: Option<string>,
                            requestedSessionId: Option<SessionKey>, freshKey: SessionKey,
                            now: EpochMillis)
      returns (r: Result<Response<string>, AuthenticationException>)
      requires Valid()
      requires freshKey !in sessions.sessions
      modifies this, sessions
      ensures Valid()
      ensures authenticationManager(request.username, request.password).None? ==>
                && r == Failure(BadCredentials)
                && securityContext == old(securityContext)
                && sessions.sessions == old(sessions.sessions)
      ensures authenticationManager(request.username, request.password).Some? ==>
                var auth := authenticationManager(request.username, request.password).value;
                && r == Success(Response("User login successfully!...", Ok))
                && securityContext == Some(auth)
                && sessions.sessions == LoggedIn(old(sessions.sessions), requestedSessionId, freshKey,
                                                 auth, UserAgentOf(userAgentHeader), now)
    {
      var authentication := authenticationManager(request.username, request.password);
      if authentication.None? {
        return Failure(BadCredentials);
      }
      ghost var before := sessions.sessions;
      securityContext := authentication;
      var key := sessions.GetSession(requestedSessionId, freshKey, now);
      sessions.SetSecurityContext(key, authentication.value);
      var userAgent := UserAgentOf(userAgentHeader);
      sessions.SetUserAgent(key, userAgent);
      assert sessions.sessions == LoggedIn(before, requestedSessionId, freshKey, authentication.value, userAgent, now);
      LoginKeepsAgentsRecorded(before, requestedSessionId, freshKey, authentication.value, userAgentHeader, now);
      r := Success(Response("User login successfully!...", Ok));
    }

    /** GET /sessions for the caller `username`, served in the request's
        session (req.getSession(), which is getSession(true)). The session
        filter saves that session, touched or new, only when the response is
        committed, so the findByPrincipalName lookup sees the store as the
        request found it; the model therefore reads the snapshot first and
        applies the session's save after it. */
    method GetMySessions(username: string, requestedSessionId: Option<SessionKey>,
                         freshKey: SessionKey, now: EpochMillis)
      returns (r: Response<set<SessionInfo>>)
      requires Valid()
      requires freshKey !in sessions.sessions
      modifies sessions
      ensures Valid()
      ensures r.status == Ok
      ensures r.body == MySessions(sha256Hex, ByPrincipal(old(sessions.sessions), username),
                                   RequestSessionKey(old(sessions.sessions), requestedSessionId, freshKey))
      ensures forall info :: info in r.body ==> HasText(info.userAgent)
      ensures sessions.sessions == Touched(old(sessions.sessions), requestedSessionId, freshKey, now)
    {
      var found := sessions.FindByPrincipalName(username);
      assert found == ByPrincipal(sessions.sessions, username);
      ListedAgentsHaveText(sha256Hex, sessions.sessions, username,
                           RequestSessionKey(sessions.sessions, requestedSessionId, freshKey));
      ghost var before := sessions.sessions;
      var currentSessionId := sessions.GetSession(requestedSessionId, freshKey, now);
      TouchKeepsAgentsRecorded(before, requestedSessionId, freshKey, now);
      r := Response(MySessions(sha256Hex, found, currentSessionId), Ok);
    }

    /** DELETE /sessions/{id}, served in the request's session like
        GetMySessions; the rest of the request is RevokeSession. Serving the
        request changes no index (TouchKeepsIndexKeys), so the lookup finds
        the same keys whether or not the session's save has happened yet. */
    method DeleteSession(id: string, username: string, requestedSessionId: Option<SessionKey>,
                         freshKey: SessionKey, now: EpochMillis)
      returns (r: Response<string>)
      requires Valid()
      requires freshKey !in sessions.sessions
      modifies sessions
      ensures Valid()
      ensures sha256Hex(RequestSessionKey(old(sessions.sessions), requestedSessionId, freshKey)) == id ==>
                r == Response("Cannot delete current session", BadRequest)
                && sessions.sessions == Touched(old(sessions.sessions), requestedSessionId, freshKey, now)
      ensures sha256Hex(RequestSessionKey(old(sessions.sessions), requestedSessionId, freshKey)) != id
              && Matching(sha256Hex, ByPrincipal(old(sessions.sessions), username), id) == {} ==>
                r == Response("Session not found", NotFound)
                && sessions.sessions == Touched(old(sessions.sessions), requestedSessionId, freshKey, now)
      ensures sha256Hex(RequestSessionKey(old(sessions.sessions), requestedSessionId, freshKey)) != id
              && Matching(sha256Hex, ByPrincipal(old(sessions.sessions), username), id) != {} ==>
                r == Response("Session deleted", Ok)
                && (exists k :: k in Matching(sha256Hex, ByPrincipal(old(sessions.sessions), username), id)
                                 && sessions.sessions == Touched(old(sessions.sessions), requestedSessionId, freshKey, now) - {k})
                && |ByPrincipal(sessions.sessions, username)| == |ByPrincipal(old(sessions.sessions), username)| - 1
      ensures forall other :: other != username ==>
                ByPrincipal(sessions.sessions, other)
                == ByPrincipal(Touched(old(sessions.sessions), requestedSessionId, freshKey, now), other)
      ensures RequestSessionKey(old(sessions.sessions), requestedSessionId, freshKey) in sessions.sessions
    {
      ghost var before := sessions.sessions;
      var currentSessionId := sessions.GetSession(requestedSessionId, freshKey, now);
      TouchKeepsAgentsRecorded(before, requestedSessionId, freshKey, now);
      TouchKeepsIndexKeys(before, requestedSessionId, freshKey, now, username);
      MatchingByKeys(sha256Hex, ByPrincipal(sessions.sessions, username), ByPrincipal(before, username), id);
      r := RevokeSession(id, username, currentSessionId);
    }

    /** The body of deleteSession once the request's session `currentSessionId`
        is known: refuses that session before any lookup, answers 404 when
        none of the caller's sessions hashes to `id`, and otherwise deletes
        exactly one such session. */
    method RevokeSession(id: string, username: string, currentSessionId: SessionKey)
      returns (r: Response<string>)
      requires Valid()
      modifies sessions
      ensures Valid()
      ensures sha256Hex(currentSessionId) == id ==>
                r == Response("Cannot delete current session", BadRequest)
                && sessions.sessions == old(sessions.sessions)
      ensures sha256Hex(currentSessionId) != id
              && Matching(sha256Hex, ByPrincipal(old(sessions.sessions), username), id) == {} ==>
                r == Response("Session not found", NotFound)
                && sessions.sessions == old(sessions.sessions)
      ensures sha256Hex(currentSessionId) != id
              && Matching(sha256Hex, ByPrincipal(old(sessions.sessions), username), id) != {} ==>
                r == Response("Session deleted", Ok)
                && (exists k :: k in Matching(sha256Hex, ByPrincipal(old(sessions.sessions), username), id)
                                 && sessions.sessions == old(sessions.sessions) - {k})
                && |ByPrincipal(sessions.sessions, username)| == |ByPrincipal(old(sessions.sessions), username)| - 1
      ensures forall other :: other != username ==>
                ByPrincipal(sessions.sessions, other) == ByPrincipal(old(sessions.sessions), other)
      ensures currentSessionId in old(sessions.sessions) ==> currentSessionId in sessions.sessions
    {
      if sha256Hex(currentSessionId) == id {
        return Response("Cannot delete current session", BadRequest);
      }
      var found := sessions.FindByPrincipalName(username);
      assert found == ByPrincipal(sessions.sessions, username);
      var first := FindFirstMatching(sha256Hex, found, id);
      if first.None? {
        assert Matching(sha256Hex, found, id) == {};
        return Response("Session not found", NotFound);
      }
      assert first.value in Matching(sha256Hex, found, id);
      ghost var before := sessions.sessions;
      sessions.DeleteById(first.value);
      DeleteOwnedIndex(before, first.value, username);
      r := Response("Session deleted", Ok);
    }

    /** POST /user, behind @Secured("ROLE_ADMIN"): 403 and nothing saved for
        any other caller; otherwise the request's username and password are
        saved verbatim under a fresh id and returned with 201. */
    method CreateUser(caller: Authentication, request: CreateUserRequest, newId: UserId,
                      createdAt: LocalDateTime, updatedAt: LocalDateTime)
      returns (r: Response<Option<User>>)
      requires Valid()
      requires newId !in userRepository.users
      modifies userRepository
      ensures Valid()
      ensures !HasRole(caller, ROLE_ADMIN) ==>
                r == Response(None, Forbidden) && userRepository.users == old(userRepository.users)
      ensures HasRole(caller, ROLE_ADMIN) ==>
                var user := User(newId, request.username, request.password, createdAt, updatedAt, []);
                && r == Response(Some(user), Created)
                && userRepository.users == old(userRepository.users)[newId := user]
    {
      if !HasRole(caller, ROLE_ADMIN) {
        return Response(None, Forbidden);
      }
      var user := User(newId, request.username, request.password, createdAt, updatedAt, []);
      user := userRepository.Save(user);
      r := Response(Some(user), Created);
    }
  }
}
