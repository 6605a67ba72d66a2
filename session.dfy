/**
 * `SessionManager` (auth/session.py): the in-memory table of active login
 * sessions, keyed by session id. A session is live up to and including its
 * expiry instant; validating an expired session evicts it.
 *
 * Clock readings are whole seconds passed in as `now`; the session lifetime in
 * hours is a constructor parameter. The database row written on creation is
 * not modelled: its id is passed in.
 */
module Sessions {
  import opened Common

  const SecondsPerHour := 3600

  /** The stored session dict. */
  datatype SessionData = SessionData(userId: string, email: string, provider: Option<string>, createdAt: int, expiresAt: int)

  type Table = map<string, SessionData>

  /** Expiry is strict: a session is still valid at exactly its expiry instant. */
  predicate Expired(data: SessionData, now: int) {
    now > data.expiresAt
  }

  /** The ids of the sessions expired at `now`. */
  function ExpiredIds(table: Table, now: int): (r: set<string>)
    ensures forall id :: id in r <==> id in table && Expired(table[id], now)
  {
    set id | id in table && Expired(table[id], now)
  }

  class SessionManager {
    /** `SESSION_EXPIRE_HOURS`. */
    const expireHours: int
    var activeSessions: Table

    constructor (expireHours: int)
      ensures this.expireHours == expireHours && activeSessions == map[]
    {
      this.expireHours := expireHours;
      activeSessions := map[];
    }

    /** The expiry instant of a session created or refreshed at `now`. */
    function ExpiryFrom(now: int): (r: int)
      reads this
      ensures r - now == expireHours * SecondsPerHour
    {
      now + expireHours * SecondsPerHour
    }

    /**
     * The in-memory half of `create_session`: stores the session under the new
     * id, expiring `SESSION_EXPIRE_HOURS` after `now`; nothing else changes.
     */
    method CreateSession(sessionId: string, userId: string, email: string, provider: Option<string>, now: int)
      returns (data: SessionData)
      modifies this
      ensures data == SessionData(userId, email, provider, now, ExpiryFrom(now))
      ensures activeSessions == old(activeSessions)[sessionId := data]
    {
      data := SessionData(userId, email, provider, now, ExpiryFrom(now));
      activeSessions := activeSessions[sessionId := data];
    }

    /**
     * `validate_session`: None for an unknown id; None for an expired session,
     * which is then evicted; otherwise the stored data, and nothing changes.
     */
    method ValidateSession(sessionId: string, now: int) returns (r: Option<SessionData>)
      modifies this
      ensures sessionId !in old(activeSessions) ==> r == None && activeSessions == old(activeSessions)
      ensures sessionId in old(activeSessions) && Expired(old(activeSessions)[sessionId], now) ==>
                r == None && activeSessions == old(activeSessions) - {sessionId}
      ensures sessionId in old(activeSessions) && !Expired(old(activeSessions)[sessionId], now) ==>
                r == Some(old(activeSessions)[sessionId]) && activeSessions == old(activeSessions)
    {
      if sessionId !in activeSessions {
        return None;
      }
      var data := activeSessions[sessionId];
      if now > data.expiresAt {
        activeSessions := activeSessions - {sessionId};
        return None;
      }
      return Some(data);
    }

    /**
     * `refresh_session`: None and no change for an unknown id; otherwise only
     * the expiry moves, to `SESSION_EXPIRE_HOURS` after `now`. Whether the
     * session had already expired is not checked.
     */
    method RefreshSession(sessionId: string, now: int) returns (r: Option<SessionData>)
      modifies this
      ensures sessionId !in old(activeSessions) ==> r == None && activeSessions == old(activeSessions)
      ensures sessionId in old(activeSessions) ==>
                && r == Some(old(activeSessions)[sessionId].(expiresAt := ExpiryFrom(now)))
                && activeSessions == old(activeSessions)[sessionId := r.value]
    {
      if sessionId !in activeSessions {
        return None;
      }
      var data := activeSessions[sessionId].(expiresAt := ExpiryFrom(now));
      activeSessions := activeSessions[sessionId := data];
      return Some(data);
    }

    /** `invalidate_session`: removes a present session and answers true; otherwise false. */
    method InvalidateSession(sessionId: string) returns (removed: bool)
      modifies this
      ensures removed <==> sessionId in old(activeSessions)
      ensures activeSessions == old(activeSessions) - {sessionId}
    {
      if sessionId in activeSessions {
        activeSessions := activeSessions - {sessionId};
        return true;
      }
      return false;
    }

    /** `cleanup_expired_sessions`: evicts exactly the sessions expired at `now`. */
    method CleanupExpiredSessions(now: int)
      modifies this
      ensures activeSessions == old(activeSessions) - ExpiredIds(old(activeSessions), now)
    {
      ghost var before := activeSessions;
      var expired := ExpiredIds(activeSessions, now);
      ghost var all := expired;
      while expired != {}
        invariant expired <= all
        invariant activeSessions == before - (all - expired)
        decreases expired
      {
        var id :| id in expired;
        activeSessions := activeSessions - {id};
        expired := expired - {id};
        assert activeSessions == before - (all - expired);
      }
      assert all - {} == all;
    }
  }

  /** After a cleanup no stored session is expired, and every unexpired session is kept as it was. */
  lemma CleanupLeavesLive(table: Table, now: int)
    ensures var kept := table - ExpiredIds(table, now);
            && (forall id :: id in kept ==> !Expired(kept[id], now))
            && (forall id :: id in table && !Expired(table[id], now) ==> id in kept && kept[id] == table[id])
  {
  }

  /**
   * A session created at 0 with a one-day lifetime validates at its expiry
   * instant, is evicted one second later, and refreshing an evicted id fails;
   * a second invalidation of the same id answers false.
   */
  method DayLongSession(sessionId: string, userId: string, email: string)
    returns (atExpiry: Option<SessionData>, afterExpiry: Option<SessionData>, refreshed: Option<SessionData>,
             first: bool, second: bool)
    ensures atExpiry == Some(SessionData(userId, email, None, 0, 86400))
    ensures afterExpiry == None && refreshed == None
    ensures first && !second
  {
    var manager := new SessionManager(24);
    var created := manager.CreateSession(sessionId, userId, email, None, 0);
    atExpiry := manager.ValidateSession(sessionId, 86400);
    afterExpiry := manager.ValidateSession(sessionId, 86401);
    refreshed := manager.RefreshSession(sessionId, 86401);
    var again := manager.CreateSession(sessionId, userId, email, None, 86401);
    first := manager.InvalidateSession(sessionId);
    second := manager.InvalidateSession(sessionId);
  }
}
