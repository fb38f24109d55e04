/**
  Which sessions are good in every reachable state, said of the rows and the log of bumps alone, and
  how long they can be: from the read that begins a session to the end of its time.
 */
module IdentitySessions {
  import opened Identity
  import opened IdentityTheorems
  import opened Wrappers

  /** When the session was last used, or created. */
  function LastUse(session: Session): int {
    match session.lastSeenAt
    case Some(at) => at
    case None => session.createdAt
  }

  predicate WasBumpedSince(s: Store, userId: Id, at: nat) {
    exists i :: at <= i < |s.bumps| && s.bumps[i] == userId
  }

  /**
    Validating a session in a reachable state: its user, if it is active, neither past its end nor
    idle too long, and its user is active and was not bumped since the session's read; otherwise the
    first reason that holds.
   */
  lemma SessionAnswers(steps: seq<Step>, sessionId: Id, now: int, idleSeconds: int)
    ensures var s := After(steps);
            sessionId in s.sessions ==>
              var session := s.sessions[sessionId];
              && session.userId in s.users
              && ValidateSession(s, sessionId, now, idleSeconds) ==
                 if session.status == SessionRevoked then Err(SessionWasRevoked)
                 else if session.status == SessionExpired || session.expiresAt <= now then Err(SessionHasExpired)
                 else if s.users[session.userId].status != Active || s.users[session.userId].deletedAt.Some? then
                   Err(AccountNotActive)
                 else if WasBumpedSince(s, session.userId, session.readAt) then Err(SessionInvalid)
                 else if LastUse(session) + 1000 * idleSeconds <= now then Err(SessionHasExpired)
                 else Ok(session.userId)
    ensures sessionId !in After(steps).sessions ==>
              ValidateSession(After(steps), sessionId, now, idleSeconds) == Err(SessionInvalid)
  {
    ReachableIsValid(steps);
    var s := After(steps);
    if sessionId in s.sessions {
      VersionsTellBumps(s, sessionId);
    }
    hide Run, Valid;
  }

  /** The recorded version is the user's current one exactly if nothing bumped the user since the read. */
  lemma VersionsTellBumps(s: Store, sessionId: Id)
    requires Valid(s) && sessionId in s.sessions
    ensures var session := s.sessions[sessionId];
            && session.userId in s.users
            && (session.securityVersion == s.users[session.userId].securityVersion
                <==> !WasBumpedSince(s, session.userId, session.readAt))
  {
    hide LifecycleOk;
    var session := s.sessions[sessionId];
    assert VersionIs(s.bumps, session.readAt, session.userId, session.securityVersion);
    assert VersionIs(s.bumps, |s.bumps|, session.userId, s.users[session.userId].securityVersion);
    assert s.bumps[..|s.bumps|] == s.bumps;
    CountSplits(s.bumps, session.readAt, session.userId);
    hide Valid, VersionIs, Count;
  }

  /** In every reachable state a session is good, for a user, if and only if all of this can be seen in the rows. */
  lemma SessionValidatesIff(steps: seq<Step>, sessionId: Id, userId: Id, now: int, idleSeconds: int)
    ensures var s := After(steps);
            ValidateSession(s, sessionId, now, idleSeconds) == Ok(userId) <==>
            && sessionId in s.sessions && userId in s.users
            && s.sessions[sessionId].userId == userId && s.sessions[sessionId].status == SessionActive
            && now < s.sessions[sessionId].expiresAt
            && now < LastUse(s.sessions[sessionId]) + 1000 * idleSeconds
            && s.users[userId].status == Active && s.users[userId].deletedAt.None?
            && !WasBumpedSince(s, userId, s.sessions[sessionId].readAt)
  {
    SessionAnswers(steps, sessionId, now, idleSeconds);
    hide Run, ValidateSession, WasBumpedSince;
  }

  /** A session is begun exactly for an active user at the version asked for, and remembers what was read. */
  lemma SessionBeginsIff(s: Store, call: nat, userId: Id, version: nat)
    ensures var begun := BeginSession(s, call, userId, version);
            && (begun.Ok? <==>
                && call !in s.opening && userId in s.users && s.users[userId].status == Active
                  && s.users[userId].deletedAt.None?
                && s.users[userId].securityVersion == version)
            && (begun.Ok? ==> begun.value == s.(opening := s.opening[call := OpenSession(userId, version, |s.bumps|)]))
  {
  }

  /** The run that goes on with a step and then with more. */
  function Then(steps: seq<Step>, step: Step, more: seq<Step>): Store {
    Run(Next(After(steps), step), more)
  }

  lemma ThenIsReached(steps: seq<Step>, step: Step, more: seq<Step>)
    ensures Then(steps, step, more) == After(steps + [step] + more)
  {
    hide Next;
    assert [step][1..] == [];
    assert Run(After(steps), [step]) == Run(Next(After(steps), step), [step][1..]) == Next(After(steps), step);
    RunConcat(Initial(), steps, [step]);
    RunConcat(Initial(), steps + [step], more);
  }

  /**
    Whatever comes after, touches among it, a session that was written at one time with some seconds
    to live keeps its start and its end, and never validates at or after that end.
   */
  lemma SessionsEndOnTime(
    steps: seq<Step>, call: nat, sessionId: Id, now: int, ttlSeconds: int, more: seq<Step>, later: int,
    idleSeconds: int)
    requires call in After(steps).opening && sessionId !in After(steps).sessions
    ensures var o := After(steps).opening[call];
            var t := Then(steps, FinishSessionStep(call, sessionId, now, ttlSeconds), more);
            && sessionId in t.sessions && t.sessions[sessionId].userId == o.userId
            && t.sessions[sessionId].readAt == o.readAt && t.sessions[sessionId].createdAt == now
            && t.sessions[sessionId].expiresAt == now + 1000 * ttlSeconds
            && (later >= now + 1000 * ttlSeconds ==> ValidateSession(t, sessionId, later, idleSeconds).Err?)
  {
    var step := FinishSessionStep(call, sessionId, now, ttlSeconds);
    SessionIsWritten(After(steps), call, sessionId, now, ttlSeconds);
    RunContinues(Next(After(steps), step), more);
    ThenIsReached(steps, step, more);
    SessionAnswers(steps + [step] + more, sessionId, later, idleSeconds);
    hide Run, Next, ValidateSession, WasBumpedSince;
  }

  lemma SessionIsWritten(s: Store, call: nat, sessionId: Id, now: int, ttlSeconds: int)
    requires call in s.opening && sessionId !in s.sessions
    ensures var t := Next(s, FinishSessionStep(call, sessionId, now, ttlSeconds));
            var o := s.opening[call];
            && t.sessions == s.sessions[sessionId :=
                 Session(o.userId, o.securityVersion, SessionActive, now, None, now + 1000 * ttlSeconds, o.readAt)]
            && t.users == s.users && t.bumps == s.bumps && t.opening == s.opening - {call}
  {
    hide RevokeActive, ConsumeAll, Acceptable, Assignees;
  }

  /** Touching an active session restarts its idle time at that moment, and changes no other session. */
  lemma TouchRestartsIdling(steps: seq<Step>, sessionId: Id, at: int, later: int, idleSeconds: int)
    requires sessionId in After(steps).sessions && After(steps).sessions[sessionId].status == SessionActive
    ensures var s, t := After(steps), Then(steps, TouchStep(sessionId, at), []);
            var userId := s.sessions[sessionId].userId;
            && t == s.(sessions := s.sessions[sessionId := s.sessions[sessionId].(lastSeenAt := Some(at))])
            && (ValidateSession(t, sessionId, later, idleSeconds) == Ok(userId) <==>
                && later < s.sessions[sessionId].expiresAt && later < at + 1000 * idleSeconds
                && userId in s.users && s.users[userId].status == Active && s.users[userId].deletedAt.None?
                && !WasBumpedSince(s, userId, s.sessions[sessionId].readAt))
  {
    var s := After(steps);
    TouchWrites(s, sessionId, at);
    ThenIsReached(steps, TouchStep(sessionId, at), []);
    SessionValidatesIff(steps + [TouchStep(sessionId, at)] + [], sessionId, s.sessions[sessionId].userId, later,
      idleSeconds);
    hide Next, ValidateSession;
  }

  lemma TouchWrites(s: Store, sessionId: Id, at: int)
    requires sessionId in s.sessions && s.sessions[sessionId].status == SessionActive
    ensures Next(s, TouchStep(sessionId, at))
         == s.(sessions := s.sessions[sessionId := s.sessions[sessionId].(lastSeenAt := Some(at))])
  {
    hide RevokeActive, ConsumeAll, Acceptable, Assignees;
  }

  /** A session that is missing or over is not touched. */
  lemma OverIsNotTouched(s: Store, sessionId: Id, at: int)
    requires sessionId in s.sessions ==> s.sessions[sessionId].status in {SessionRevoked, SessionExpired}
    ensures Next(s, TouchStep(sessionId, at)) == s
  {
    hide RevokeActive, ConsumeAll, Acceptable, Assignees;
  }
}
