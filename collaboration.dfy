/**
 * `CollaborationService` (backend/app/services/collaboration.py): live
 * editing sessions per document (members, last activity, a change log) and
 * per-user presence records, keyed by the string `"<user id>:<document id>"`.
 *
 * Clock readings are whole seconds passed in as `now`. Sessions and presence
 * records are values here: the source hands out the stored objects, and later
 * updates show through them.
 */
module Collaboration {
  import opened Common

  /** The caller's change dict, apart from the two keys the service stamps. */
  type Payload = map<string, string>

  /** A logged change: the caller's payload stamped with the time and the author. */
  datatype Change = Change(payload: Payload, timestamp: int, userId: string)

  datatype Session = Session(documentId: string, users: set<string>, lastActivity: int, changes: seq<Change>)

  datatype Presence = Presence(userId: string, documentId: string, lastSeen: int, status: string)

  /** The presence key `f"{user_id}:{document_id}"`. */
  function PresenceKey(userId: string, documentId: string): string {
    userId + ":" + documentId
  }

  /** The changes stamped strictly after `since`, in log order. */
  function ChangesAfter(changes: seq<Change>, since: int): (r: seq<Change>)
    ensures |r| <= |changes|
    ensures forall c :: c in r ==> c in changes && c.timestamp > since
    ensures forall c :: c in changes && c.timestamp > since ==> c in r
    decreases |changes|
  {
    if changes == [] then []
    else
      var n := |changes|;
      assert changes == changes[..n - 1] + [changes[n - 1]];
      ChangesAfter(changes[..n - 1], since) + if changes[n - 1].timestamp > since then [changes[n - 1]] else []
  }

  /** Reading after a change is appended sees exactly the earlier reading, plus the change when it is newer. */
  lemma ChangesAfterAppend(changes: seq<Change>, c: Change, since: int)
    ensures ChangesAfter(changes + [c], since) == ChangesAfter(changes, since) + if c.timestamp > since then [c] else []
  {
    assert (changes + [c])[..|changes|] == changes;
  }

  /** The keys whose entries have been idle for more than `timeout` seconds at `now`. */
  function IdleSessions(sessions: map<string, Session>, now: int, timeout: int): (r: set<string>)
    ensures forall d :: d in r <==> d in sessions && now - sessions[d].lastActivity > timeout
  {
    set d | d in sessions && now - sessions[d].lastActivity > timeout
  }

  function IdlePresence(presence: map<string, Presence>, now: int, timeout: int): (r: set<string>)
    ensures forall k :: k in r <==> k in presence && now - presence[k].lastSeen > timeout
  {
    set k | k in presence && now - presence[k].lastSeen > timeout
  }

  /** Removing the idle sessions keeps exactly the others, unchanged. */
  lemma ActiveSessionsKept(sessions: map<string, Session>, now: int, timeout: int)
    ensures var kept := sessions - IdleSessions(sessions, now, timeout);
            && (forall d :: d in kept <==> d in sessions && now - sessions[d].lastActivity <= timeout)
            && (forall d :: d in kept ==> kept[d] == sessions[d])
  {
  }

  class CollaborationService {
    /** Open sessions by document id. */
    var sessions: map<string, Session>
    /** Presence records by presence key. */
    var presence: map<string, Presence>

    /**
     * Every open session has at least one member and is filed under its own
     * document; every presence record is filed under its own key.
     */
    ghost predicate Valid()
      reads this
    {
      && (forall d :: d in sessions ==> sessions[d].users != {} && sessions[d].documentId == d)
      && (forall k :: k in presence ==> k == PresenceKey(presence[k].userId, presence[k].documentId))
    }

    constructor ()
      ensures Valid() && sessions == map[] && presence == map[]
    {
      sessions := map[];
      presence := map[];
    }

    /**
     * `join_session`: opens an empty session when none is open, adds the user
     * to it and touches it, and marks the user active on the document.
     */
    method JoinSession(documentId: string, userId: string, now: int) returns (session: Session)
      requires Valid()
      modifies this
      ensures Valid()
      ensures session.documentId == documentId && session.lastActivity == now
      ensures documentId in old(sessions) ==>
                session.users == old(sessions)[documentId].users + {userId} && session.changes == old(sessions)[documentId].changes
      ensures documentId !in old(sessions) ==> session.users == {userId} && session.changes == []
      ensures sessions == old(sessions)[documentId := session]
      ensures presence == old(presence)[PresenceKey(userId, documentId) := Presence(userId, documentId, now, "active")]
    {
      if documentId !in sessions {
        sessions := sessions[documentId := Session(documentId, {}, now, [])];
      }
      session := sessions[documentId];
      session := session.(users := session.users + {userId}, lastActivity := now);
      sessions := sessions[documentId := session];
      presence := presence[PresenceKey(userId, documentId) := Presence(userId, documentId, now, "active")];
    }

    /**
     * `leave_session`: false and no change when no session is open; otherwise
     * removes the user from it (closing it when it empties) and drops their
     * presence, and answers true.
     */
    method LeaveSession(documentId: string, userId: string, now: int) returns (left: bool)
      requires Valid()
      modifies this
      ensures Valid()
      ensures left <==> documentId in old(sessions)
      ensures !left ==> sessions == old(sessions) && presence == old(presence)
      ensures left ==> presence == old(presence) - {PresenceKey(userId, documentId)}
      ensures left ==>
                var remaining := old(sessions)[documentId].users - {userId};
                && (remaining == {} ==> sessions == old(sessions) - {documentId})
                && (remaining != {} ==>
                      sessions == old(sessions)[documentId := old(sessions)[documentId].(users := remaining, lastActivity := now)])
    {
      if documentId !in sessions {
        return false;
      }
      var session := sessions[documentId];
      session := session.(users := session.users - {userId}, lastActivity := now);
      sessions := sessions[documentId := session];
      presence := presence - {PresenceKey(userId, documentId)};
      if session.users == {} {
        sessions := sessions - {documentId};
      }
      return true;
    }

    /**
     * `update_presence`: sets the status and last-seen time of the record under
     * the user's key, creating the record when absent.
     */
    method UpdatePresence(documentId: string, userId: string, status: string, now: int) returns (p: Presence)
      requires Valid()
      modifies this
      ensures Valid()
      ensures var key := PresenceKey(userId, documentId);
              && (key in old(presence) ==> p == old(presence)[key].(status := status, lastSeen := now))
              && (key !in old(presence) ==> p == Presence(userId, documentId, now, status))
              && presence == old(presence)[key := p]
      ensures sessions == old(sessions)
    {
      var key := PresenceKey(userId, documentId);
      if key in presence {
        presence := presence[key := presence[key].(status := status, lastSeen := now)];
      } else {
        presence := presence[key := Presence(userId, documentId, now, status)];
      }
      p := presence[key];
    }

    /** `get_session_users`: the presence records on the document. */
    function GetSessionUsers(documentId: string): (r: set<Presence>)
      reads this
      ensures forall p :: p in r <==> p in presence.Values && p.documentId == documentId
    {
      set p | p in presence.Values && p.documentId == documentId
    }

    /**
     * `apply_change`: only a member of an open session may change the document;
     * the change is then stamped with `now` and the user, appended to the log,
     * and the session touched. Otherwise nothing changes.
     */
    method ApplyChange(documentId: string, userId: string, payload: Payload, now: int) returns (applied: bool)
      requires Valid()
      modifies this
      ensures Valid()
      ensures applied <==> documentId in old(sessions) && userId in old(sessions)[documentId].users
      ensures applied ==>
                var s := old(sessions)[documentId];
                sessions == old(sessions)[documentId := s.(changes := s.changes + [Change(payload, now, userId)], lastActivity := now)]
      ensures !applied ==> sessions == old(sessions)
      ensures presence == old(presence)
    {
      if documentId in sessions {
        var session := sessions[documentId];
        if userId in session.users {
          var change := Change(payload, now, userId);
          session := session.(changes := session.changes + [change], lastActivity := now);
          sessions := sessions[documentId := session];
          return true;
        }
      }
      return false;
    }

    /**
     * `get_changes`: nothing without an open session; otherwise the whole log,
     * or, given `since`, exactly the changes stamped after it, in log order.
     */
    function GetChanges(documentId: string, since: Option<int>): (r: seq<Change>)
      reads this
      ensures documentId !in sessions ==> r == []
      ensures documentId in sessions && since.None? ==> r == sessions[documentId].changes
      ensures documentId in sessions && since.Some? ==>
                && (forall c :: c in r ==> c in sessions[documentId].changes && c.timestamp > since.value)
                && (forall c :: c in sessions[documentId].changes && c.timestamp > since.value ==> c in r)
    {
      if documentId !in sessions then []
      else if since.Some? then ChangesAfter(sessions[documentId].changes, since.value)
      else sessions[documentId].changes
    }

    /**
     * `cleanup_inactive_sessions`: closes every session idle for more than
     * `timeout` seconds and drops every presence record unseen for that long.
     */
    method CleanupInactiveSessions(now: int, timeout: int := 300)
      requires Valid()
      modifies this
      ensures Valid()
      ensures sessions == old(sessions) - IdleSessions(old(sessions), now, timeout)
      ensures presence == old(presence) - IdlePresence(old(presence), now, timeout)
    {
      ghost var before := sessions;
      var inactiveSessions := IdleSessions(sessions, now, timeout);
      ghost var allSessions := inactiveSessions;
      while inactiveSessions != {}
        invariant Valid()
        invariant inactiveSessions <= allSessions
        invariant sessions == before - (allSessions - inactiveSessions)
        invariant presence == old(presence)
        decreases inactiveSessions
      {
        var d :| d in inactiveSessions;
        sessions := sessions - {d};
        inactiveSessions := inactiveSessions - {d};
        assert sessions == before - (allSessions - inactiveSessions);
      }
      assert allSessions - {} == allSessions;
      ghost var seen := presence;
      var inactivePresence := IdlePresence(presence, now, timeout);
      ghost var allPresence := inactivePresence;
      while inactivePresence != {}
        invariant Valid()
        invariant inactivePresence <= allPresence
        invariant presence == seen - (allPresence - inactivePresence)
        invariant sessions == old(sessions) - IdleSessions(old(sessions), now, timeout)
        decreases inactivePresence
      {
        var k :| k in inactivePresence;
        presence := presence - {k};
        inactivePresence := inactivePresence - {k};
        assert presence == seen - (allPresence - inactivePresence);
      }
      assert allPresence - {} == allPresence;
    }
  }

  /** A member's change is logged last, and is seen by every reader asking for changes after an earlier time. */
  method JoinThenEdit(documentId: string, userId: string, payload: Payload) returns (sinceStart: seq<Change>, all: seq<Change>)
    ensures all == [Change(payload, 5, userId)]
    ensures sinceStart == all
  {
    var service := new CollaborationService();
    var session := service.JoinSession(documentId, userId, 0);
    var applied := service.ApplyChange(documentId, userId, payload, 5);
    all := service.GetChanges(documentId, None);
    sinceStart := service.GetChanges(documentId, Some(0));
    ChangesAfterAppend([], Change(payload, 5, userId), 0);
  }
}
