/** The session store behind FindByIndexNameSessionRepository: session records
    under opaque keys, and the principal-name index over them. */
module SessionStore {
  import opened Wrappers
  import opened Time
  import opened Security

  /** The opaque, server-generated key carried in the SESSION cookie. */
  type SessionKey = string

  /** One session: the two attributes the login writes (the security context
      under SPRING_SECURITY_CONTEXT and the USER_AGENT string; absent until
      set) and the two timestamps the store maintains. */
  datatype SessionRecord = SessionRecord(
    securityContext: Option<Authentication>,
    userAgent: Option<string>,
    creationTime: EpochMillis,
    lastAccessedTime: EpochMillis)

  /** The principal name the store indexes a session under: the name of the
      authentication in its security context, if it has one. */
  function PrincipalName(r: SessionRecord): Option<string>
  {
    if r.securityContext.Some? then Some(r.securityContext.value.name) else None
  }

  /** The principal-name index, read through: every entry whose principal is
      `name`. */
  function ByPrincipal(sessions: map<SessionKey, SessionRecord>, name: string): (index: map<SessionKey, SessionRecord>)
    ensures index.Keys <= sessions.Keys
    ensures forall k :: k in sessions ==> (k in index <==> PrincipalName(sessions[k]) == Some(name))
    ensures forall k :: k in index ==> index[k] == sessions[k]
  {
    map k | k in sessions && PrincipalName(sessions[k]) == Some(name) :: sessions[k]
  }

  /** Deleting a key removes it from the index of its principal and of no one
      else: the index afterwards is the old index without that key, so the
      deleted session is never listed again and every other principal's
      sessions are as they were. */
  lemma DeleteByIdIndex(sessions: map<SessionKey, SessionRecord>, key: SessionKey, name: string)
    ensures ByPrincipal(sessions - {key}, name) == ByPrincipal(sessions, name) - {key}
    ensures key in ByPrincipal(sessions, name) ==>
              |ByPrincipal(sessions - {key}, name)| == |ByPrincipal(sessions, name)| - 1
    ensures key !in ByPrincipal(sessions, name) ==>
              ByPrincipal(sessions - {key}, name) == ByPrincipal(sessions, name)
  {
    DeleteFromIndex(sessions, key, name);
    if key in ByPrincipal(sessions, name) {
      RemoveCount(ByPrincipal(sessions, name), key);
    }
  }

  /** The index of the store without `key` is the index without `key`. */
  lemma DeleteFromIndex(sessions: map<SessionKey, SessionRecord>, key: SessionKey, name: string)
    ensures ByPrincipal(sessions - {key}, name) == ByPrincipal(sessions, name) - {key}
  {
    var after, before := ByPrincipal(sessions - {key}, name), ByPrincipal(sessions, name);
    forall k | k in after
      ensures k in before - {key} && after[k] == (before - {key})[k]
    {
    }
    forall k | k in before - {key}
      ensures k in after
    {
    }
  }


  /** Deleting one of a principal's sessions shrinks that principal's index
      by one and leaves every other principal's index as it was. */
  lemma DeleteOwnedIndex(sessions: map<SessionKey, SessionRecord>, key: SessionKey, name: string)
    requires key in ByPrincipal(sessions, name)
    ensures |ByPrincipal(sessions - {key}, name)| == |ByPrincipal(sessions, name)| - 1
    ensures forall other :: other != name ==> ByPrincipal(sessions - {key}, other) == ByPrincipal(sessions, other)
  {
    DeleteByIdIndex(sessions, key, name);
    forall other | other != name
      ensures ByPrincipal(sessions - {key}, other) == ByPrincipal(sessions, other)
    {
      DeleteByIdIndex(sessions, key, other);
    }
  }

  /** Removing a present key from a map shrinks it by one. */
  lemma RemoveCount<K, V>(m: map<K, V>, k: K)
    requires k in m
    ensures |m - {k}| == |m| - 1
  {
    assert (m - {k}).Keys == m.Keys - {k};
  }

  /** Adding an absent key to a map grows it by one. */
  lemma AddCount<K, V>(m: map<K, V>, k: K, v: V)
    requires k !in m
    ensures (m[k := v]).Keys == m.Keys + {k}
    ensures |m[k := v]| == |m| + 1
  {
    assert (m[k := v]).Keys == m.Keys + {k};
  }

  /** Writing a record under a key moves that key to the index of the
      record's principal and leaves every other key where it was. */
  lemma PutIndex(sessions: map<SessionKey, SessionRecord>, key: SessionKey, r: SessionRecord, name: string)
    ensures PrincipalName(r) == Some(name) ==>
              ByPrincipal(sessions[key := r], name) == ByPrincipal(sessions, name)[key := r]
    ensures PrincipalName(r) != Some(name) ==>
              ByPrincipal(sessions[key := r], name) == ByPrincipal(sessions, name) - {key}
  {
  }

  /** The session getSession(true) serves a request in: the requested one
      when it is live, otherwise a new one under the fresh key. */
  function RequestSessionKey(sessions: map<SessionKey, SessionRecord>, requested: Option<SessionKey>,
                             freshKey: SessionKey): SessionKey
  {
    if requested.Some? && requested.value in sessions then requested.value else freshKey
  }

  /** The store once getSession(true) has served a request and the session
      filter has saved its session: the live requested session with its last
      access set to now, or a new session with no attributes, created and
      accessed now. Exactly that one session is added or changed. */
  function Touched(sessions: map<SessionKey, SessionRecord>, requested: Option<SessionKey>,
                   freshKey: SessionKey, now: EpochMillis): (after: map<SessionKey, SessionRecord>)
    ensures after.Keys == sessions.Keys + {RequestSessionKey(sessions, requested, freshKey)}
    ensures forall k :: k in sessions && k != RequestSessionKey(sessions, requested, freshKey) ==>
              after[k] == sessions[k]
    ensures var key := RequestSessionKey(sessions, requested, freshKey);
            && after[key].lastAccessedTime == now
            && (key in sessions ==> after[key] == sessions[key].(lastAccessedTime := now))
            && (key !in sessions ==> after[key] == SessionRecord(None, None, now, now))
  {
    var key := RequestSessionKey(sessions, requested, freshKey);
    if key in sessions then sessions[key := sessions[key].(lastAccessedTime := now)]
    else sessions[key := SessionRecord(None, None, now, now)]
  }

  /** Serving a request in a session never changes whose sessions are
      indexed: a touched session keeps its security context, and a new one
      has none. */
  lemma TouchKeepsIndexKeys(sessions: map<SessionKey, SessionRecord>, requested: Option<SessionKey>,
                            freshKey: SessionKey, now: EpochMillis, name: string)
    ensures ByPrincipal(Touched(sessions, requested, freshKey, now), name).Keys == ByPrincipal(sessions, name).Keys
    ensures |ByPrincipal(Touched(sessions, requested, freshKey, now), name)| == |ByPrincipal(sessions, name)|
  {
    var after, before := ByPrincipal(Touched(sessions, requested, freshKey, now), name), ByPrincipal(sessions, name);
    assert after.Keys == before.Keys;
    assert |after| == |after.Keys| && |before| == |before.Keys|;
  }

  /** Writing a record bound to `name` under a new key adds that key to
      `name`'s index, which grows by one, and to no one else's. */
  lemma AddIndex(sessions: map<SessionKey, SessionRecord>, key: SessionKey, r: SessionRecord, name: string)
    requires key !in sessions && PrincipalName(r) == Some(name)
    ensures key in ByPrincipal(sessions[key := r], name)
    ensures ByPrincipal(sessions[key := r], name) == ByPrincipal(sessions, name)[key := r]
    ensures |ByPrincipal(sessions[key := r], name)| == |ByPrincipal(sessions, name)| + 1
    ensures forall other :: other != name ==> ByPrincipal(sessions[key := r], other) == ByPrincipal(sessions, other)
  {
    PutIndex(sessions, key, r, name);
    AddCount(ByPrincipal(sessions, name), key, r);
    forall other | other != name
      ensures ByPrincipal(sessions[key := r], other) == ByPrincipal(sessions, other)
    {
      PutIndex(sessions, key, r, other);
    }
  }

  /** The store itself. Key generation is random, so the fresh key a new
      session receives is given by the caller; the store demands only that no
      live session already uses it. */
  class SessionRepository {
    var sessions: map<SessionKey, SessionRecord>

    constructor ()
      ensures sessions == map[]
    {
      sessions := map[];
    }

    /** findByPrincipalName: a snapshot of the caller's entries. */
    method FindByPrincipalName(name: string) returns (found: map<SessionKey, SessionRecord>)
      ensures found.Keys <= sessions.Keys
      ensures forall k :: k in sessions ==> (k in found <==> PrincipalName(sessions[k]) == Some(name))
      ensures forall k :: k in found ==> found[k] == sessions[k]
    {
      found := ByPrincipal(sessions, name);
    }

    /** HttpServletRequest.getSession(true) under the session filter: the
        session the request is served in, touched or created (see
        RequestSessionKey and Touched). */
    method GetSession(requested: Option<SessionKey>, freshKey: SessionKey, now: EpochMillis)
      returns (key: SessionKey)
      requires freshKey !in sessions
      modifies this
      ensures key == RequestSessionKey(old(sessions), requested, freshKey)
      ensures sessions == Touched(old(sessions), requested, freshKey, now)
    {
      if requested.Some? && requested.value in sessions {
        key := requested.value;
        sessions := sessions[key := sessions[key].(lastAccessedTime := now)];
      } else {
        key := freshKey;
        sessions := sessions[key := SessionRecord(None, None, now, now)];
      }
    }

    /** session.setAttribute(SPRING_SECURITY_CONTEXT_KEY, context). */
    method SetSecurityContext(key: SessionKey, context: Authentication)
      requires key in sessions
      modifies this
      ensures sessions == old(sessions)[key := old(sessions)[key].(securityContext := Some(context))]
    {
      sessions := sessions[key := sessions[key].(securityContext := Some(context))];
    }

    /** session.setAttribute(USER_AGENT, userAgent). */
    method SetUserAgent(key: SessionKey, userAgent: string)
      requires key in sessions
      modifies this
      ensures sessions == old(sessions)[key := old(sessions)[key].(userAgent := Some(userAgent))]
    {
      sessions := sessions[key := sessions[key].(userAgent := Some(userAgent))];
    }

    /** deleteById: the record goes, and with it its index entry. */
    method DeleteById(key: SessionKey)
      modifies this
      ensures sessions == old(sessions) - {key}
    {
      sessions := sessions - {key};
    }
  }
}
