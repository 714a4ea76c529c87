/**
 * `SessionDBAuth` (0x02): `SessionExpAuth` whose sessions are also kept as
 * persisted `UserSession` records, and looked up and destroyed there. The
 * persisted store is modelled as its list of records, in storage order; a
 * reload from file yields that same list.
 */
module SessionDB {
  import opened Common
  import AuthV2
  import SessionExp

  /** A persisted `UserSession` record. */
  datatype UserSession = UserSession(userId: Option<string>, sessionId: string, createdAt: Option<SessionExp.Instant>)

  /** Index of the first record with this session id: `UserSession.search(...)[0]`. */
  function FirstMatch(records: seq<UserSession>, sessionId: string): (r: Option<nat>)
    ensures r.None? <==> forall i :: 0 <= i < |records| ==> records[i].sessionId != sessionId
    ensures r.Some? ==> r.value < |records| && records[r.value].sessionId == sessionId
    ensures r.Some? ==> forall j :: 0 <= j < r.value ==> records[j].sessionId != sessionId
  {
    if |records| == 0 then None
    else if records[0].sessionId == sessionId then Some(0)
    else match FirstMatch(records[1..], sessionId)
      case None => None
      case Some(k) => Some(k + 1)
  }

  /** Appending a record leaves earlier matches first, and makes the new record the first match otherwise. */
  lemma {:induction false} FirstMatchAppend(records: seq<UserSession>, record: UserSession, sessionId: string)
    ensures FirstMatch(records + [record], sessionId) ==
      if FirstMatch(records, sessionId).Some? then FirstMatch(records, sessionId)
      else if record.sessionId == sessionId then Some(|records|)
      else None
  {
    if |records| > 0 {
      assert (records + [record])[1..] == records[1..] + [record];
      FirstMatchAppend(records[1..], record, sessionId);
    }
  }

  /**
   * `user_id_for_session_id`: only the persisted records are consulted, the
   * first match wins, and with a positive duration a record without
   * `created_at`, or one whose `created_at + duration` is before `now`, gives
   * None. Computing the expiry instant can overflow, which nothing catches.
   */
  function UserIdForSessionId(records: seq<UserSession>, duration: int, sessionId: Option<string>, now: SessionExp.Instant): (r: SessionExp.Lookup)
    ensures sessionId.None? || FirstMatch(records, sessionId.value).None? ==> r == SessionExp.Answer(None)
    ensures sessionId.Some? && FirstMatch(records, sessionId.value).Some? ==>
      var session := records[FirstMatch(records, sessionId.value).value];
      (duration <= 0 ==> r == SessionExp.Answer(session.userId)) &&
      (duration > 0 && session.createdAt.None? ==> r == SessionExp.Answer(None)) &&
      (r.OverflowRaised? <==>
        duration > 0 && session.createdAt.Some? && SessionExp.Overflows(session.createdAt.value, duration))
    ensures r.Answer? && r.userId.Some? ==>
      sessionId.Some? && FirstMatch(records, sessionId.value).Some? &&
      r.userId == records[FirstMatch(records, sessionId.value).value].userId
  {
    if sessionId.None? then SessionExp.Answer(None)
    else match FirstMatch(records, sessionId.value)
      case None => SessionExp.Answer(None)
      case Some(i) =>
        var session := records[i];
        if duration <= 0 then SessionExp.Answer(session.userId)
        else if session.createdAt.None? then SessionExp.Answer(None)
        else if SessionExp.Overflows(session.createdAt.value, duration) then SessionExp.OverflowRaised
        else if session.createdAt.value + duration < now then SessionExp.Answer(None)
        else SessionExp.Answer(session.userId)
  }

  /**
   * The persisted lookup agrees with the in-memory one of `SessionExpAuth`
   * whenever the first record holds the same user and creation time: both
   * treat the instant `created_at + duration` as still valid.
   */
  lemma AgreesWithInMemory(records: seq<UserSession>, sessions: map<string, SessionExp.SessionEntry>, duration: int, sessionId: string, now: SessionExp.Instant)
    requires FirstMatch(records, sessionId).Some? && sessionId in sessions
    requires var rec := records[FirstMatch(records, sessionId).value];
      sessions[sessionId] == SessionExp.SessionEntry(rec.userId, rec.createdAt)
    ensures UserIdForSessionId(records, duration, Some(sessionId), now) ==
      SessionExp.UserIdForSessionId(sessions, duration, Some(sessionId), now)
  {
  }

  /** A session persisted by `create_session` under a new id is found again until it expires. */
  lemma LookupAfterCreate(records: seq<UserSession>, duration: int, sessionId: string, userId: Option<string>, created: SessionExp.Instant, now: SessionExp.Instant)
    requires FirstMatch(records, sessionId).None?
    ensures UserIdForSessionId(records + [UserSession(userId, sessionId, Some(created))], duration, Some(sessionId), now) ==
      if duration <= 0 then SessionExp.Answer(userId)
      else if SessionExp.Overflows(created, duration) then SessionExp.OverflowRaised
      else if now <= created + duration then SessionExp.Answer(userId)
      else SessionExp.Answer(None)
  {
    FirstMatchAppend(records, UserSession(userId, sessionId, Some(created)), sessionId);
  }

  /** The records with the one at index i taken out. */
  function RemoveAt(records: seq<UserSession>, i: nat): (r: seq<UserSession>)
    requires i < |records|
    ensures |r| == |records| - 1
    ensures forall j :: 0 <= j < i ==> r[j] == records[j]
    ensures forall j :: i <= j < |r| ==> r[j] == records[j + 1]
  {
    records[..i] + records[i + 1..]
  }

  /** After destroying the only record of a session, that session is no longer found. */
  lemma LookupAfterDestroy(records: seq<UserSession>, duration: int, sessionId: string, now: SessionExp.Instant)
    requires FirstMatch(records, sessionId).Some?
    requires forall j :: 0 <= j < |records| && records[j].sessionId == sessionId ==> j == FirstMatch(records, sessionId).value
    ensures UserIdForSessionId(RemoveAt(records, FirstMatch(records, sessionId).value), duration, Some(sessionId), now) ==
      SessionExp.Answer(None)
  {
    var i := FirstMatch(records, sessionId).value;
    var rest := RemoveAt(records, i);
    forall j | 0 <= j < |rest|
      ensures rest[j].sessionId != sessionId
    {
      if j >= i {
        assert rest[j] == records[j + 1];
      }
    }
  }

  class SessionDBAuth {
    /** The inherited `SessionExpAuth` state: duration and in-memory sessions. */
    const exp: SessionExp.SessionExpAuth
    /** The persisted `UserSession` records. */
    var records: seq<UserSession>

    constructor(sessionDurationEnv: Option<string>, stored: seq<UserSession>)
      ensures fresh(exp)
      ensures exp.sessionDuration == SessionExp.DurationFromEnv(sessionDurationEnv)
      ensures exp.userIdBySessionId == map[]
      ensures records == stored
    {
      exp := new SessionExp.SessionExpAuth(sessionDurationEnv);
      records := stored;
    }

    /**
     * `create_session`: the `SessionExpAuth` step, then one record with the
     * same user and id saved when an id was issued.
     */
    method CreateSession(userId: Option<string>, parentId: Option<string>, now: SessionExp.Instant) returns (sessionId: Option<string>)
      modifies this, exp
      ensures sessionId == parentId
      ensures exp.sessionDuration == old(exp.sessionDuration)
      ensures parentId.None? ==> exp.userIdBySessionId == old(exp.userIdBySessionId) && records == old(records)
      ensures parentId.Some? ==>
        exp.userIdBySessionId == old(exp.userIdBySessionId)[parentId.value := SessionExp.SessionEntry(userId, Some(now))] &&
        records == old(records) + [UserSession(userId, parentId.value, Some(now))]
    {
      sessionId := exp.CreateSession(userId, parentId, now);
      if sessionId.None? {
        return;
      }
      records := records + [UserSession(userId, sessionId.value, Some(now))];
    }

    /**
     * `destroy_session`: removes the first record whose id is the request's
     * session cookie and answers True; False, with nothing removed, when
     * there is no request, no cookie or no such record.
     */
    method DestroySession(request: Option<Request>, sessionName: Option<string>) returns (destroyed: bool)
      modifies this
      ensures exp.sessionDuration == old(exp.sessionDuration)
      ensures destroyed <==>
        AuthV2.SessionCookie(request, sessionName).Some? &&
        FirstMatch(old(records), AuthV2.SessionCookie(request, sessionName).value).Some?
      ensures destroyed ==>
        records == RemoveAt(old(records), FirstMatch(old(records), AuthV2.SessionCookie(request, sessionName).value).value)
      ensures !destroyed ==> records == old(records)
    {
      if request.None? {
        return false;
      }
      var sessionId := AuthV2.SessionCookie(request, sessionName);
      if sessionId.None? {
        return false;
      }
      var found := FirstMatch(records, sessionId.value);
      if found.None? {
        return false;
      }
      records := RemoveAt(records, found.value);
      return true;
    }

    /** `user_id_for_session_id` on this object's state; it reads and never writes. */
    function UserIdFor(sessionId: Option<string>, now: SessionExp.Instant): (r: SessionExp.Lookup)
      reads this, exp
      ensures r != SessionExp.Answer(None) ==> sessionId.Some? && FirstMatch(records, sessionId.value).Some?
    {
      UserIdForSessionId(records, exp.sessionDuration, sessionId, now)
    }
  }
}
