/** What holds of users, sessions and reset tokens after any interleaving of transactions. */
module IdentityTheorems {
  import opened Identity
  import opened Text
  import opened Wrappers

  function After(steps: seq<Step>): Store {
    Run(Initial(), steps)
  }

  lemma {:induction false} RunKeepsValid(s: Store, steps: seq<Step>)
    requires Valid(s)
    ensures Valid(Run(s, steps))
    decreases |steps|
  {
    hide Valid, Next;
    if steps == [] {
    } else {
      StepKeepsValid(s, steps[0]);
      RunKeepsValid(Next(s, steps[0]), steps[1..]);
    }
  }

  lemma ReachableIsValid(steps: seq<Step>)
    ensures Valid(After(steps))
  {
    RunKeepsValid(Initial(), steps);
  }

  // ----- The life cycle of a user -----

  /** `deletedAt` is set exactly when the status is deleted, and only verified users are active, suspended or banned. */
  lemma LifecycleHolds(steps: seq<Step>, userId: Id)
    requires userId in After(steps).users
    ensures var user := After(steps).users[userId];
            && (user.deletedAt.Some? <==> user.status == Deleted)
            && (user.status in {Active, Suspended, Banned} ==> user.verifiedAt.Some?)
            && (user.status == PendingVerification ==> user.verifiedAt.None?)
            && (user.suspendedUntil.Some? <==> user.status == Suspended)
  {
    ReachableIsValid(steps);
    hide Run;
  }

  // ----- Bumps -----

  predicate IsAdministration(step: Step) {
    || step.ChangeStatusStep? || step.AdminVerifyEmailStep? || step.DeleteUserStep? || step.RestoreUserStep?
    || step.AdminRevokeSessionsStep?
  }

  /** Whose security version a step increments, if it does. */
  function BumpedUser(s: Store, step: Step): Option<Id> {
    if Outcome(s, step).Err? then None
    else
      match step
      case FinishChangeStep(call, _, _) => if call in s.changing then Some(s.changing[call].userId) else None
      case ConsumeResetStep(token, _, _, _) => if token in s.resets then Some(s.resets[token].userId) else None
      case ChangeStatusStep(_, userId, _, _, _, _) => Some(userId)
      case AdminVerifyEmailStep(userId, _) => if userId in s.users && s.users[userId].verifiedAt.None?
          then Some(userId) else None
      case DeleteUserStep(_, userId, _) => if userId in s.users && s.users[userId].status != Deleted then Some(userId)
          else None
      case RestoreUserStep(userId) => if userId in s.users && s.users[userId].status == Deleted then Some(userId)
          else None
      case AdminRevokeSessionsStep(_, userId) => Some(userId)
      case _ => None
  }

  /** The one user's version, or nobody's, is incremented by one and logged. */
  predicate BumpsExactly(s: Store, t: Store, bumped: Option<Id>) {
    && t.bumps == s.bumps + (if bumped.Some? then [bumped.value] else [])
    && forall u :: u in s.users ==>
         && u in t.users
         && t.users[u].securityVersion == s.users[u].securityVersion + (if bumped == Some(u) then 1 else 0)
  }

  /**
    Exactly password changes and resets, administrators' status changes, verifications, deletions,
    restorations and revocations that take effect increment a version: once, of one user. All other
    steps, among them the recovery of a suspension, leave every version alone.
   */
  lemma StepBumps(s: Store, step: Step)
    requires Valid(s)
    ensures BumpsExactly(s, Next(s, step), BumpedUser(s, step))
  {
    hide Valid, Next, BumpedUser;
    if step.ChangeStatusStep? {
      StatusBumps(s, step);
    } else if step.AdminVerifyEmailStep? || step.AdminRevokeSessionsStep? {
      AccessBumps(s, step);
    } else if step.DeleteUserStep? || step.RestoreUserStep? {
      DeletionBumps(s, step);
    } else {
      OtherStepBumps(s, step);
    }
  }

  /** What a change of status writes. */
  lemma StatusChangeWrites(s: Store, userId: Id, next: ManagedStatus, until: Option<int>, now: int)
    requires StatusChanged(s, userId, next, until, now).Ok?
    ensures var t := StatusChanged(s, userId, next, until, now).value;
            && userId in s.users && t.bumps == s.bumps + [userId] && t.resets == s.resets
            && t.roles == s.roles && t.assignments == s.assignments
            && (t.sessions == s.sessions || t.sessions == RevokeActive(s.sessions, userId, None))
            && t.users == s.users[userId := t.users[userId]]
            && t.users[userId].securityVersion == s.users[userId].securityVersion + 1
  {
    hide RevokeActive, TransitionError, IsLastActiveHolder;
  }

  lemma StatusBumps(s: Store, step: Step)
    requires step.ChangeStatusStep?
    ensures BumpsExactly(s, Next(s, step), BumpedUser(s, step))
  {
    hide StatusRequestError, StatusChanged;
    if StatusChanged(s, step.userId, step.status, step.until, step.now).Ok? {
      StatusChangeWrites(s, step.userId, step.status, step.until, step.now);
    }
    assert s.bumps + [] == s.bumps;
  }

  /** The user's version, and nobody else's, is incremented and logged. */
  predicate BumpsOnly(s: Store, t: Store, userId: Id) {
    && userId in s.users && userId in t.users && t.bumps == s.bumps + [userId]
    && t.users == s.users[userId := t.users[userId]]
    && t.users[userId].securityVersion == s.users[userId].securityVersion + 1
  }

  lemma AdminVerificationBumps(s: Store, userId: Id, now: int)
    requires AdminVerifyEmail(s, userId, now).Ok?
    ensures var t := AdminVerifyEmail(s, userId, now).value;
            userId in s.users && if s.users[userId].verifiedAt.Some? then t == s else BumpsOnly(s, t, userId)
  {
    hide RemoveAll;
  }

  lemma AdminRevocationBumps(s: Store, actor: Id, userId: Id)
    requires AdminRevokeSessions(s, actor, userId).Ok?
    ensures BumpsOnly(s, AdminRevokeSessions(s, actor, userId).value, userId)
  {
    hide RevokeActive;
  }

  lemma AccessBumps(s: Store, step: Step)
    requires step.AdminVerifyEmailStep? || step.AdminRevokeSessionsStep?
    ensures BumpsExactly(s, Next(s, step), BumpedUser(s, step))
  {
    hide AdminVerifyEmail, AdminRevokeSessions;
    if step.AdminVerifyEmailStep? && AdminVerifyEmail(s, step.userId, step.now).Ok? {
      AdminVerificationBumps(s, step.userId, step.now);
    }
    if step.AdminRevokeSessionsStep? && AdminRevokeSessions(s, step.actor, step.userId).Ok? {
      AdminRevocationBumps(s, step.actor, step.userId);
    }
    assert s.bumps + [] == s.bumps;
  }

  predicate IsDeleted(user: User) {
    user.deletedAt.Some? || user.status == Deleted
  }

  lemma DeletionWrites(s: Store, actor: Id, userId: Id, now: int)
    requires DeleteUser(s, actor, userId, now).Ok?
    ensures var t := DeleteUser(s, actor, userId, now).value;
            userId in s.users && if IsDeleted(s.users[userId]) then t == s else BumpsOnly(s, t, userId)
  {
    hide RevokeActive, IsLastUndeletedHolder;
  }

  lemma RestorationWrites(s: Store, userId: Id)
    requires RestoreUser(s, userId).Ok?
    ensures var t := RestoreUser(s, userId).value;
            userId in s.users && if IsDeleted(s.users[userId]) then BumpsOnly(s, t, userId) else t == s
  {
  }

  lemma DeletionBumps(s: Store, step: Step)
    requires Valid(s)
    requires step.DeleteUserStep? || step.RestoreUserStep?
    ensures BumpsExactly(s, Next(s, step), BumpedUser(s, step))
  {
    ValidParts(s);
    hide Valid, DeleteUser, RestoreUser, VersionIs, Count;
    if step.DeleteUserStep? && DeleteUser(s, step.actor, step.userId, step.now).Ok? {
      DeletionWrites(s, step.actor, step.userId, step.now);
    }
    if step.RestoreUserStep? && RestoreUser(s, step.userId).Ok? {
      RestorationWrites(s, step.userId);
    }
    assert s.bumps + [] == s.bumps;
  }

  lemma FinishedChangeBumps(s: Store, call: nat, salt: string, exclude: Option<Id>)
    requires FinishChange(s, call, salt, exclude).Ok?
    ensures call in s.changing && BumpsOnly(s, FinishChange(s, call, salt, exclude).value, s.changing[call].userId)
    ensures FinishChange(s, call, salt, exclude).value.sessions
         == RevokeActive(s.sessions, s.changing[call].userId, exclude)
  {
    hide RevokeActive;
  }

  lemma ResetBumps(s: Store, token: string, hash: PasswordHash, policy: PasswordPolicy, now: int)
    requires ConsumeReset(s, token, hash, policy, now).Ok?
    ensures token in s.resets && BumpsOnly(s, ConsumeReset(s, token, hash, policy, now).value, s.resets[token].userId)
    ensures ConsumeReset(s, token, hash, policy, now).value.sessions
         == RevokeActive(s.sessions, s.resets[token].userId, None)
  {
    hide RevokeActive, ConsumeAll, Acceptable;
  }

  /** Every other step keeps the log and the versions. */
  predicate BumpsNobody(s: Store, t: Store) {
    && t.bumps == s.bumps
    && forall u :: u in s.users ==> u in t.users && t.users[u].securityVersion == s.users[u].securityVersion
  }

  lemma QuietStepsBumpNobody(s: Store, step: Step)
    requires !IsAdministration(step) && !step.FinishChangeStep? && !step.ConsumeResetStep?
    ensures BumpsNobody(s, Next(s, step))
  {
    hide Register, ConsumeVerification, RecoverSuspension, Bootstrap, BumpsNobody;
    match step {
      case RegisterStep(userId, hash, policy, token, expiresAt) =>
          RegisterBumpsNobody(s, userId, hash, policy, token, expiresAt);
      case ConsumeVerificationStep(token, now) => VerificationBumpsNobody(s, token, now);
      case RecoverSuspensionStep(userId, now) => RecoveryBumpsNobody(s, userId, now);
      case BootstrapStep(userId, verifyEmail, now) => BootstrapBumpsNobody(s, userId, verifyEmail, now);
      case _ => OtherStepsKeepUsers(s, step);
    }
    SameBumpsNobody(s);
  }

  lemma SameBumpsNobody(s: Store)
    ensures BumpsNobody(s, s)
  {
  }

  lemma RegisterBumpsNobody(
    s: Store, userId: Id, hash: PasswordHash, policy: PasswordPolicy, token: string, expiresAt: int)
    ensures var made := Register(s, userId, hash, policy, token, expiresAt);
            made.Ok? ==> BumpsNobody(s, made.value)
  {
    hide Acceptable;
  }

  lemma VerificationBumpsNobody(s: Store, token: string, now: int)
    ensures var verified := ConsumeVerification(s, token, now);
            verified.Ok? ==> BumpsNobody(s, verified.value)
  {
    hide ConsumeAll;
  }

  lemma RecoveryBumpsNobody(s: Store, userId: Id, now: int)
    ensures BumpsNobody(s, RecoverSuspension(s, userId, now))
  {
  }

  lemma BootstrapBumpsNobody(s: Store, userId: Id, verifyEmail: bool, now: int)
    ensures var made := Bootstrap(s, userId, verifyEmail, now);
            made.Ok? ==> BumpsNobody(s, made.value)
  {
  }

  lemma OtherStepsKeepUsers(s: Store, step: Step)
    requires !IsAdministration(step) && !step.FinishChangeStep? && !step.ConsumeResetStep?
    requires !step.RegisterStep? && !step.ConsumeVerificationStep? && !step.RecoverSuspensionStep?
             && !step.BootstrapStep?
    ensures BumpsNobody(s, Next(s, step))
  {
    hide ConsumeAll, RevokeActive, Acceptable, Assignees, IsSystemRole;
  }

  lemma OtherStepBumps(s: Store, step: Step)
    requires !IsAdministration(step)
    ensures BumpsExactly(s, Next(s, step), BumpedUser(s, step))
  {
    assert s.bumps + [] == s.bumps;
    if step.FinishChangeStep? {
      hide FinishChange;
      if FinishChange(s, step.call, step.salt, step.exclude).Ok? {
        FinishedChangeBumps(s, step.call, step.salt, step.exclude);
      }
    } else if step.ConsumeResetStep? {
      hide ConsumeReset;
      if ConsumeReset(s, step.token, step.hash, step.policy, step.now).Ok? {
        ResetBumps(s, step.token, step.hash, step.policy, step.now);
      }
    } else {
      hide Next, Outcome;
      QuietStepsBumpNobody(s, step);
    }
  }

  lemma {:induction false} CountSplits(bumps: seq<Id>, at: nat, userId: Id)
    requires at <= |bumps|
    ensures Count(bumps[..at], userId) <= Count(bumps, userId)
    ensures Count(bumps[..at], userId) == Count(bumps, userId) <==> forall i :: at <= i < |bumps| ==> bumps[i] != userId
    decreases |bumps|
  {
    if at == |bumps| {
      assert bumps[..at] == bumps;
    } else {
      var n := |bumps| - 1;
      CountSplits(bumps[..n], at, userId);
      assert bumps[..n][..at] == bumps[..at];
      assert forall i :: at <= i < n ==> bumps[..n][i] == bumps[i];
      assert (forall i :: at <= i < |bumps| ==> bumps[i] != userId)
         <==> (forall i :: at <= i < n ==> bumps[..n][i] != userId) && bumps[n] != userId;
    }
  }

  // ----- Sessions -----

  /** A session that validates saw no bump of its user since its version was read. */
  lemma ValidSessionSawNoBump(steps: seq<Step>, sessionId: Id, now: int, idleSeconds: int, i: nat)
    requires ValidateSession(After(steps), sessionId, now, idleSeconds).Ok?
    requires After(steps).sessions[sessionId].readAt <= i < |After(steps).bumps|
    ensures After(steps).bumps[i] != After(steps).sessions[sessionId].userId
  {
    ReachableIsValid(steps);
    NoBumpSinceRead(After(steps), sessionId, now, idleSeconds);
  }

  lemma NoBumpSinceRead(s: Store, sessionId: Id, now: int, idleSeconds: int)
    requires Valid(s) && ValidateSession(s, sessionId, now, idleSeconds).Ok?
    ensures forall i :: s.sessions[sessionId].readAt <= i < |s.bumps| ==> s.bumps[i] != s.sessions[sessionId].userId
  {
    hide LifecycleOk;
    var session := s.sessions[sessionId];
    assert VersionIs(s.bumps, session.readAt, session.userId, session.securityVersion);
    assert VersionIs(s.bumps, |s.bumps|, session.userId, s.users[session.userId].securityVersion);
    assert s.bumps[..|s.bumps|] == s.bumps;
    CountSplits(s.bumps, session.readAt, session.userId);
  }

  /** The log grows, and a session keeps its owner, version, moment of reading, start and end. */
  predicate Continues(s: Store, t: Store) {
    && s.bumps <= t.bumps
    && forall k :: k in s.sessions ==>
         && k in t.sessions
         && t.sessions[k].userId == s.sessions[k].userId
         && t.sessions[k].securityVersion == s.sessions[k].securityVersion
         && t.sessions[k].readAt == s.sessions[k].readAt
         && t.sessions[k].createdAt == s.sessions[k].createdAt
         && t.sessions[k].expiresAt == s.sessions[k].expiresAt
  }

  /**
    Administration of users adds at most one bump, revokes at most one user's sessions, and leaves
    reset tokens and roles alone.
   */
  lemma AdministrationWrites(s: Store, step: Step)
    requires IsAdministration(step)
    ensures var t := Next(s, step);
            && t.resets == s.resets
            && (t.bumps == s.bumps || t.bumps == s.bumps + [step.userId])
            && (t.sessions == s.sessions || t.sessions == RevokeActive(s.sessions, step.userId, None))
            && t.roles == s.roles && t.assignments == s.assignments
  {
    hide RemoveAll, RevokeActive, StatusRequestError, StatusChanged, IsLastUndeletedHolder;
    if step.ChangeStatusStep? && StatusChanged(s, step.userId, step.status, step.until, step.now).Ok? {
      StatusChangeWrites(s, step.userId, step.status, step.until, step.now);
    }
  }

  lemma StepContinues(s: Store, step: Step)
    ensures Continues(s, Next(s, step))
  {
    hide Continues, Next;
    if IsAdministration(step) {
      AdministrationContinues(s, step);
    } else {
      OtherStepContinues(s, step);
    }
  }

  lemma AdministrationContinues(s: Store, step: Step)
    requires IsAdministration(step)
    ensures Continues(s, Next(s, step))
  {
    hide Next;
    AdministrationWrites(s, step);
  }

  predicate WritesSessions(step: Step) {
    || step.FinishSessionStep? || step.RevokeSessionStep? || step.RevokeAllStep? || step.TouchStep?
    || step.FinishChangeStep? || step.ConsumeResetStep?
  }

  lemma OtherStepContinues(s: Store, step: Step)
    requires !IsAdministration(step)
    ensures Continues(s, Next(s, step))
  {
    if WritesSessions(step) {
      SessionWritesContinue(s, step);
    } else {
      hide Next;
      OtherStepsKeepSessions(s, step);
    }
  }

  lemma SessionWritesContinue(s: Store, step: Step)
    requires WritesSessions(step)
    ensures Continues(s, Next(s, step))
  {
    hide Register, IssueVerification, ConsumeVerification, BeginSession, FinishSession, RevokeSession, RevokeAll, Touch,
         BeginChange, FinishChange, IssueReset, ConsumeReset, ChangeStatus, AdminVerifyEmail, DeleteUser, RestoreUser,
         AdminRevokeSessions, RecoverSuspension, Bootstrap, AssignRole, RemoveRole, Continues;
    match step {
      case FinishSessionStep(call, sessionId, now, ttlSeconds) =>
          FinishedSessionContinues(s, call, sessionId, now, ttlSeconds);
      case RevokeSessionStep(sessionId, owner) => RevokedSessionContinues(s, sessionId, owner);
      case RevokeAllStep(userId, exclude) => AllRevokedContinues(s, userId, exclude);
      case TouchStep(sessionId, now) => TouchedContinues(s, sessionId, now);
      case FinishChangeStep(call, salt, exclude) => FinishedChangeContinues(s, call, salt, exclude);
      case ConsumeResetStep(token, hash, policy, now) => ResetContinues(s, token, hash, policy, now);
    }
    ContinuesItself(s);
  }

  lemma ContinuesItself(s: Store)
    ensures Continues(s, s)
  {
  }

  lemma FinishedSessionContinues(s: Store, call: nat, sessionId: Id, now: int, ttlSeconds: int)
    ensures var finished := FinishSession(s, call, sessionId, now, ttlSeconds);
            finished.Ok? ==> Continues(s, finished.value)
  {
  }

  lemma RevokedSessionContinues(s: Store, sessionId: Id, owner: Option<Id>)
    ensures Continues(s, RevokeSession(s, sessionId, owner))
  {
    var t := RevokeSession(s, sessionId, owner);
    assert t.bumps == s.bumps;
    assert t == s || t.sessions == s.sessions[sessionId := t.sessions[sessionId]];
  }

  lemma AllRevokedContinues(s: Store, userId: Id, exclude: Option<Id>)
    ensures Continues(s, RevokeAll(s, userId, exclude))
  {
  }

  lemma TouchedContinues(s: Store, sessionId: Id, now: int)
    ensures Continues(s, Touch(s, sessionId, now))
  {
    var t := Touch(s, sessionId, now);
    assert t.bumps == s.bumps;
    assert t == s || t.sessions == s.sessions[sessionId := t.sessions[sessionId]];
  }

  lemma FinishedChangeContinues(s: Store, call: nat, salt: string, exclude: Option<Id>)
    ensures var finished := FinishChange(s, call, salt, exclude);
            finished.Ok? ==> Continues(s, finished.value)
  {
    hide FinishChange, RevokeActive;
    if FinishChange(s, call, salt, exclude).Ok? {
      FinishedChangeBumps(s, call, salt, exclude);
      RevokedInStatusOnly(s.sessions, s.changing[call].userId, exclude);
    }
  }

  lemma ResetContinues(s: Store, token: string, hash: PasswordHash, policy: PasswordPolicy, now: int)
    ensures var reset := ConsumeReset(s, token, hash, policy, now);
            reset.Ok? ==> Continues(s, reset.value)
  {
    hide ConsumeReset, RevokeActive;
    if ConsumeReset(s, token, hash, policy, now).Ok? {
      ResetBumps(s, token, hash, policy, now);
      RevokedInStatusOnly(s.sessions, s.resets[token].userId, None);
    }
  }

  lemma RevokedInStatusOnly(sessions: map<Id, Session>, userId: Id, exclude: Option<Id>)
    ensures var revoked := RevokeActive(sessions, userId, exclude);
            forall k :: k in sessions ==> k in revoked && revoked[k] == sessions[k].(status := revoked[k].status)
  {
  }

  lemma OtherStepsKeepSessions(s: Store, step: Step)
    requires !IsAdministration(step) && !WritesSessions(step)
    ensures Next(s, step).sessions == s.sessions && Next(s, step).bumps == s.bumps
  {
    hide ConsumeAll, Assignees, Acceptable;
  }

  lemma {:induction false} RunContinues(s: Store, steps: seq<Step>)
    ensures Continues(s, Run(s, steps))
    decreases |steps|
  {
    hide Next;
    if steps == [] {
    } else {
      StepContinues(s, steps[0]);
      RunContinues(Next(s, steps[0]), steps[1..]);
    }
  }

  lemma {:induction false} RunConcat(s: Store, steps: seq<Step>, more: seq<Step>)
    ensures Run(s, steps + more) == Run(Run(s, steps), more)
    decreases |steps|
  {
    hide Next;
    if steps == [] {
      assert steps + more == more;
    } else {
      assert (steps + more)[0] == steps[0] && (steps + more)[1..] == steps[1..] + more;
      RunConcat(Next(s, steps[0]), steps[1..], more);
    }
  }

  /** Once its user was bumped after its version was read, a session never validates again, whatever happens later. */
  lemma StaleSessionsNeverValidate(steps: seq<Step>, more: seq<Step>, sessionId: Id, i: nat, now: int, idleSeconds: int)
    requires sessionId in After(steps).sessions
    requires After(steps).sessions[sessionId].readAt <= i < |After(steps).bumps|
    requires After(steps).bumps[i] == After(steps).sessions[sessionId].userId
    ensures ValidateSession(After(steps + more), sessionId, now, idleSeconds).Err?
  {
    var s, t := After(steps), After(steps + more);
    RunConcat(Initial(), steps, more);
    RunContinues(s, more);
    hide Run, ValidateSession;
    assert t.bumps[i] == s.bumps[i];
    if ValidateSession(t, sessionId, now, idleSeconds).Ok? {
      ValidSessionSawNoBump(steps + more, sessionId, now, idleSeconds, i);
    }
  }

  /** The session a password change leaves out of its revocation keeps its row but not its validity. */
  lemma ExcludedSessionIsInvalidated(s: Store, call: nat, salt: string, sessionId: Id, now: int, idleSeconds: int)
    requires Valid(s) && FinishChange(s, call, salt, Some(sessionId)).Ok?
    requires ValidateSession(s, sessionId, now, idleSeconds) == Ok(s.changing[call].userId)
    ensures var t := FinishChange(s, call, salt, Some(sessionId)).value;
            && t.sessions[sessionId] == s.sessions[sessionId]
            && ValidateSession(t, sessionId, now, idleSeconds) == Err(SessionInvalid)
  {
    hide Valid;
  }

  /** Whose sessions a step revokes when it takes effect, and which one it spares. */
  predicate Revokes(s: Store, step: Step, userId: Id, spared: Option<Id>) {
    match step
    case FinishChangeStep(call, _, exclude) => call in s.changing && s.changing[call].userId == userId
        && spared == exclude
    case ConsumeResetStep(token, _, _, _) => token in s.resets && s.resets[token].userId == userId && spared.None?
    case ChangeStatusStep(_, u, status, _, _, _) => u == userId && status != Active && spared.None?
    case DeleteUserStep(_, u, _) => u == userId && spared.None?
    case AdminRevokeSessionsStep(_, u) => u == userId && spared.None?
    case RevokeAllStep(u, exclude) => u == userId && spared == exclude
    case _ => false
  }

  lemma RevokingStepRevokes(s: Store, step: Step, userId: Id, spared: Option<Id>)
    requires Valid(s)
    requires Revokes(s, step, userId, spared) && (BumpedUser(s, step) == Some(userId) || step.RevokeAllStep?)
    ensures Next(s, step).sessions == RevokeActive(s.sessions, userId, spared)
  {
    ValidParts(s);
    hide Valid, VersionIs, Count, ConsumeAll, RevokeActive, TransitionError, StatusRequestError, Assignees, Acceptable,
         IsLastActiveHolder, IsLastUndeletedHolder;
  }

  /**
    Where such a step takes effect no session of the user stays active but the one spared, and no
    session of anybody else changes.
   */
  lemma RevocationIsComplete(s: Store, step: Step, userId: Id, spared: Option<Id>)
    requires Valid(s)
    requires Revokes(s, step, userId, spared) && (BumpedUser(s, step) == Some(userId) || step.RevokeAllStep?)
    ensures var t := Next(s, step);
            && t.sessions.Keys == s.sessions.Keys
            && (forall k :: k in s.sessions && s.sessions[k].userId == userId && spared != Some(k) ==>
              t.sessions[k].status != SessionActive)
            && (forall k :: k in s.sessions && (s.sessions[k].userId != userId || spared == Some(k)) ==>
              t.sessions[k] == s.sessions[k])
  {
    hide Next, Valid, Revokes, BumpedUser;
    RevokingStepRevokes(s, step, userId, spared);
  }

  /** A session that is no longer active never is again. */
  predicate StaysInactive(s: Store, t: Store) {
    forall k :: k in s.sessions && s.sessions[k].status != SessionActive ==>
      k in t.sessions && t.sessions[k].status != SessionActive
  }

  lemma StepStaysInactive(s: Store, step: Step)
    ensures StaysInactive(s, Next(s, step))
  {
    hide StaysInactive, Next;
    if IsAdministration(step) {
      AdministrationStaysInactive(s, step);
    } else {
      OtherStepStaysInactive(s, step);
    }
  }

  lemma AdministrationStaysInactive(s: Store, step: Step)
    requires IsAdministration(step)
    ensures StaysInactive(s, Next(s, step))
  {
    hide Next;
    AdministrationWrites(s, step);
  }

  lemma OtherStepStaysInactive(s: Store, step: Step)
    requires !IsAdministration(step)
    ensures StaysInactive(s, Next(s, step))
  {
    hide ConsumeAll, ChangeStatus, AdminVerifyEmail, DeleteUser, RestoreUser, AdminRevokeSessions, Assignees,
        Acceptable;
    if !WritesSessions(step) {
      OtherStepsKeepSessions(s, step);
      hide Next;
    }
  }

  lemma {:induction false} RunStaysInactive(s: Store, steps: seq<Step>)
    ensures StaysInactive(s, Run(s, steps))
    decreases |steps|
  {
    hide Next;
    if steps == [] {
    } else {
      StepStaysInactive(s, steps[0]);
      RunStaysInactive(Next(s, steps[0]), steps[1..]);
    }
  }

  /**
    A session its user had when all sessions were revoked, by signing out everywhere or by any other
    revoking step, never validates again after any further run, unless it was the spared one.
   */
  lemma RevokedSessionsNeverValidate(
    s: Store, step: Step, userId: Id, spared: Option<Id>, sessionId: Id, more: seq<Step>, now: int, idleSeconds: int)
    requires Valid(s)
    requires Revokes(s, step, userId, spared) && (BumpedUser(s, step) == Some(userId) || step.RevokeAllStep?)
    requires sessionId in s.sessions && s.sessions[sessionId].userId == userId && spared != Some(sessionId)
    ensures ValidateSession(Run(Next(s, step), more), sessionId, now, idleSeconds).Err?
  {
    hide Next, Run, Revokes, BumpedUser, Valid;
    RevocationIsComplete(s, step, userId, spared);
    RunStaysInactive(Next(s, step), more);
  }

  /**
    In every reachable state the session a call finishes validates at once exactly if its user is
    active and was not bumped since the read.
   */
  lemma FinishedSessionValidatesIff(
    steps: seq<Step>, call: nat, sessionId: Id, now: int, ttlSeconds: int, idleSeconds: int)
    requires call in After(steps).opening && sessionId !in After(steps).sessions && ttlSeconds > 0 && idleSeconds > 0
    ensures var s := After(steps);
            var o := s.opening[call];
            var finished := FinishSession(s, call, sessionId, now, ttlSeconds);
            && finished.Ok? && o.userId in s.users
            && (ValidateSession(finished.value, sessionId, now, idleSeconds).Ok? <==>
                IsActive(s.users[o.userId]) && forall i :: o.readAt <= i < |s.bumps| ==> s.bumps[i] != o.userId)
  {
    ReachableIsValid(steps);
    var s := After(steps);
    var o := s.opening[call];
    assert VersionIs(s.bumps, o.readAt, o.userId, o.securityVersion);
    assert VersionIs(s.bumps, |s.bumps|, o.userId, s.users[o.userId].securityVersion);
    assert s.bumps[..|s.bumps|] == s.bumps;
    CountSplits(s.bumps, o.readAt, o.userId);
    hide Run, Valid, VersionIs, LifecycleOk, Count;
  }

  /** What a call in flight makes of the store after its user signed out everywhere. */
  function FinishedAfterSignOut(
    s: Store, userId: Id, exclude: Option<Id>, call: nat, sessionId: Id, now: int, ttlSeconds: int): (finished: Store)
    requires call in s.opening && sessionId !in s.sessions
    ensures sessionId in finished.sessions
  {
    FinishSession(RevokeAll(s, userId, exclude), call, sessionId, now, ttlSeconds).value
  }

  /**
    A call in flight when its user signs out everywhere yields a valid session exactly if the user
    is active and the version it read is current.
   */
  lemma CallSurvivesSignOutIff(
    s: Store, userId: Id, exclude: Option<Id>, call: nat, sessionId: Id, now: int, ttlSeconds: int, idleSeconds: int)
    requires call in s.opening && s.opening[call].userId == userId && userId in s.users
    requires sessionId !in s.sessions && ttlSeconds > 0 && idleSeconds > 0
    ensures var finished := FinishedAfterSignOut(s, userId, exclude, call, sessionId, now, ttlSeconds);
            ValidateSession(finished, sessionId, now, idleSeconds).Ok?
            <==> IsActive(s.users[userId]) && s.opening[call].securityVersion == s.users[userId].securityVersion
  {
  }

  predicate IsCurrentCall(s: Store, userId: Id, call: nat)
    requires userId in s.users
  {
    call in s.opening && s.opening[call].userId == userId
      && s.opening[call].securityVersion == s.users[userId].securityVersion
  }

  /**
    Signing out everywhere reaches every session begun before it exactly if the user is inactive or
    no call of theirs is current.
   */
  lemma SignOutReachesAllIff(
    s: Store, userId: Id, exclude: Option<Id>, sessionId: Id, now: int, ttlSeconds: int, idleSeconds: int)
    requires userId in s.users && sessionId !in s.sessions && ttlSeconds > 0 && idleSeconds > 0
    ensures (forall call :: call in s.opening && s.opening[call].userId == userId ==>
               var finished := FinishedAfterSignOut(s, userId, exclude, call, sessionId, now, ttlSeconds);
               ValidateSession(finished, sessionId, now, idleSeconds).Err?)
       <==> !IsActive(s.users[userId]) || forall call: nat :: !IsCurrentCall(s, userId, call)
  {
    forall call | call in s.opening && s.opening[call].userId == userId
      ensures var finished := FinishedAfterSignOut(s, userId, exclude, call, sessionId, now, ttlSeconds);
              ValidateSession(finished, sessionId, now, idleSeconds).Ok?
              <==> IsActive(s.users[userId]) && IsCurrentCall(s, userId, call)
    {
      CallSurvivesSignOutIff(s, userId, exclude, call, sessionId, now, ttlSeconds, idleSeconds);
    }
    hide ValidateSession, FinishedAfterSignOut;
  }

  /**
    A password change stores the new password only if the password read before is still the stored
    one; nobody else's changes.
   */
  lemma PasswordChangeIsGuarded(s: Store, call: nat, salt: string, exclude: Option<Id>)
    requires call in s.changing && s.changing[call].userId in s.users
    ensures var c := s.changing[call];
            var t := Next(s, FinishChangeStep(call, salt, exclude));
            && t.users.Keys == s.users.Keys
            && t.users[c.userId].passwordHash ==
                 (if s.users[c.userId].passwordHash == c.hash then PasswordHash(c.password, salt)
                   else s.users[c.userId].passwordHash)
            && forall u :: u in s.users && u != c.userId ==> t.users[u] == s.users[u]
  {
    hide RevokeActive;
  }

  /** Between one read and two writes of the same password the second write fails. */
  lemma SecondPasswordChangeConflicts(
    s: Store, first: nat, second: nat, salt: string, saltAgain: string, exclude: Option<Id>, excludeAgain: Option<Id>)
    requires first != second && first in s.changing && second in s.changing
    requires s.changing[first].userId == s.changing[second].userId && s.changing[first].hash == s.changing[second].hash
    requires s.changing[first].password != s.changing[first].hash.password
    requires FinishChange(s, first, salt, exclude).Ok?
    ensures FinishChange(FinishChange(s, first, salt, exclude).value, second, saltAgain, excludeAgain)
            == Err(IdentityConflict)
  {
    hide RevokeActive;
  }

  lemma OneElement<T>(members: set<T>, x: T)
    requires x in members
    ensures |members| <= 1 <==> members == {x}
  {
    if |members| <= 1 {
      forall y | y in members ensures y == x {
        if y != x {
          assert {x, y} <= members;
          OnlySmaller({x, y}, members);
        }
      }
    }
  }

  lemma OnlySmaller<T>(part: set<T>, whole: set<T>)
    requires part <= whole
    ensures |part| <= |whole|
  {
    assert whole == part + (whole - part);
  }

  /** Counting active holders up to one is asking whether an active user is the only one. */
  lemma LastActiveHolderIff(s: Store, userId: Id, now: int)
    requires userId in s.users && IsActive(s.users[userId])
    ensures IsLastActiveHolder(s, userId, now)
       <==> exists role :: role in SystemRoles(s, userId, now) && ActiveHolders(s, role, now) == {userId}
  {
    forall role | role in SystemRoles(s, userId, now)
      ensures |ActiveHolders(s, role, now)| <= 1 <==> ActiveHolders(s, role, now) == {userId}
    {
      HoldsItsRole(s, userId, role, now);
      OneElement(ActiveHolders(s, role, now), userId);
    }
  }

  lemma HoldsItsRole(s: Store, userId: Id, role: Id, now: int)
    requires role in SystemRoles(s, userId, now)
    ensures userId in Assignees(s, role, now) && IsSystemRole(s, role)
  {
    assert Assignment(userId, role) in s.assignments;
  }

  /** The status an administrator's change leads to, from which status, and for whom. */
  lemma StatusChangeSucceedsIff(
    steps: seq<Step>, actor: Id, userId: Id, next: ManagedStatus, reason: Option<string>, until: Option<int>,
    now: int)
    ensures var s := After(steps);
            ChangeStatus(s, actor, userId, next, reason, until, now).Ok? <==>
            && actor != userId && userId in s.users
            && (next != Active ==> reason.Some?)
            && (next == Suspended ==> until.Some? && until.value > now)
            && (s.users[userId].status, next) in
                 {(Active, Suspended), (Active, Banned), (Suspended, Active), (Suspended, Banned), (Banned, Active)}
            && (s.users[userId].status == Active ==>
                  forall role :: role in SystemRoles(s, userId, now) ==> ActiveHolders(s, role, now) != {userId})
  {
    ReachableIsValid(steps);
    var s := After(steps);
    if userId in s.users {
      assert LifecycleOk(s.users[userId]);
      if s.users[userId].status == Active {
        LastActiveHolderIff(s, userId, now);
      }
    }
    hide Run, Valid, RevokeActive, IsLastActiveHolder, SystemRoles, ActiveHolders;
  }

  // ----- Two interleavings -----

  const POLICY := PasswordPolicy(12, 128)
  const HASH := PasswordHash(SomePassword(), "s")

  /** A session being created while its user is deleted, and restored after. */
  const DELETED_MEANWHILE := [
    RegisterStep("u", HASH, POLICY, "t", 10),
    ConsumeVerificationStep("t", 0),
    BeginSessionStep(0, "u", 0),
    DeleteUserStep("admin", "u", 0),
    FinishSessionStep(0, "session", 0, 60),
    RestoreUserStep("u")]

  /** A session being created while the user signs out everywhere. */
  const SIGNED_OUT_MEANWHILE := [
    RegisterStep("u", HASH, POLICY, "t", 10),
    ConsumeVerificationStep("t", 0),
    BeginSessionStep(0, "u", 0),
    RevokeAllStep("u", None),
    FinishSessionStep(0, "session", 0, 60)]

  function Reading(): Store {
    Store(map["u" := User(Active, None, None, 0, Some(0), HASH)], map[], map[0 := OpenSession("u", 0, 0)], map[],
          map["t" := Token("u", 10, Some(0))], map[], map[], map[], [])
  }

  lemma ReadingIsReached(steps: seq<Step>)
    requires |steps| >= 3 && steps[..3] == DELETED_MEANWHILE[..3]
    ensures Run(Initial(), steps) == Run(Reading(), steps[3..])
  {
    assert steps[0] == DELETED_MEANWHILE[..3][0] && steps[1] == DELETED_MEANWHILE[..3][1]
        && steps[2] == DELETED_MEANWHILE[..3][2];
    UserIsVerified();
    SessionIsBegun();
    hide Next;
    assert steps[1..][1..] == steps[2..] && steps[2..][1..] == steps[3..];
    assert Run(Initial(), steps) == Run(Next(Initial(), steps[0]), steps[1..]) == Run(Verified(), steps[2..]);
  }

  function Verified(): Store {
    Reading().(opening := map[])
  }

  function SomePassword(): string {
    seq(12, _ => 'a')
  }

  lemma PasswordIsAcceptable()
    ensures Acceptable(HASH.password, POLICY)
  {
    assert forall c :: c in HASH.password ==> c == 'a';
    NoSupplementary(HASH.password);
    assert !IsSpace(HASH.password[0]);
  }

  lemma UserIsVerified()
    ensures Next(Next(Initial(), DELETED_MEANWHILE[0]), DELETED_MEANWHILE[1]) == Verified()
  {
    PasswordIsAcceptable();
    hide Acceptable;
    var a := Next(Initial(), DELETED_MEANWHILE[0]);
    assert a.verifications == map["t" := Token("u", 10, None)];
    assert Next(a, DELETED_MEANWHILE[1]).verifications == map["t" := Token("u", 10, Some(0))];
  }

  lemma SessionIsBegun()
    ensures Next(Verified(), DELETED_MEANWHILE[2]) == Reading()
  {
  }

  lemma DeletedMeanwhile()
    ensures Next(Next(Reading(), DELETED_MEANWHILE[3]), DELETED_MEANWHILE[4]) == Created(Deleted, Some(0), 1, ["u"])
  {
    assert Next(Reading(), DELETED_MEANWHILE[3]).bumps == ["u"];
  }

  lemma RestoredAfter()
    ensures Next(Created(Deleted, Some(0), 1, ["u"]), DELETED_MEANWHILE[5]) == Created(Active, None, 2, ["u", "u"])
  {
  }

  function Created(status: Status, deletedAt: Option<int>, version: nat, bumps: seq<Id>): Store {
    Store(map["u" := User(status, deletedAt, None, version, Some(0), HASH)],
          map["session" := Session("u", 0, SessionActive, 0, None, 60000, 0)], map[], map[],
          map["t" := Token("u", 10, Some(0))], map[], map[], map[], bumps)
  }

  /**
    Revoking the rows alone would not do: this row is active, unexpired and its user active again,
    and only its version gives it away.
   */
  lemma OnlyTheVersionGivesItAway()
    ensures var s := After(DELETED_MEANWHILE);
            && "session" in s.sessions && s.sessions["session"].status == SessionActive
              && s.sessions["session"].expiresAt == 60000
            && "u" in s.users && IsActive(s.users["u"])
            && ValidateSession(s, "session", 0, 30) == Err(SessionInvalid)
  {
    hide Next, Acceptable;
    ReadingIsReached(DELETED_MEANWHILE);
    DeletedMeanwhile();
    RestoredAfter();
    var a := Next(Reading(), DELETED_MEANWHILE[3]);
    var b := Next(a, DELETED_MEANWHILE[4]);
    var c := Next(b, DELETED_MEANWHILE[5]);
    var rest := DELETED_MEANWHILE[3..];
    assert rest[0] == DELETED_MEANWHILE[3] && rest[1..][0] == DELETED_MEANWHILE[4]
        && rest[1..][1..][0] == DELETED_MEANWHILE[5];
    assert rest[1..][1..][1..] == [];
    assert Run(Reading(), rest) == Run(a, rest[1..]) == Run(b, rest[1..][1..]) == Run(c, []);
  }

  lemma SignedOutMeanwhile()
    ensures Next(Next(Reading(), SIGNED_OUT_MEANWHILE[3]), SIGNED_OUT_MEANWHILE[4]) == Created(Active, None, 0, [])
  {
    hide Acceptable;
  }

  /** Signing out everywhere bumps no version, so a session being created meanwhile comes out valid. */
  lemma SigningOutMissesCallsInFlight()
    ensures ValidateSession(After(SIGNED_OUT_MEANWHILE), "session", 0, 30) == Ok("u")
  {
    hide Next, Acceptable;
    assert SIGNED_OUT_MEANWHILE[..3] == DELETED_MEANWHILE[..3];
    ReadingIsReached(SIGNED_OUT_MEANWHILE);
    SignedOutMeanwhile();
    var a := Next(Reading(), SIGNED_OUT_MEANWHILE[3]);
    var b := Next(a, SIGNED_OUT_MEANWHILE[4]);
    var rest := SIGNED_OUT_MEANWHILE[3..];
    assert rest[0] == SIGNED_OUT_MEANWHILE[3] && rest[1..][0] == SIGNED_OUT_MEANWHILE[4] && rest[1..][1..] == [];
    assert Run(Reading(), rest) == Run(a, rest[1..]) == Run(b, []);
  }

  // ----- Reset tokens -----

  /** Consumed reset tokens stay so. */
  predicate StaysConsumed(s: Store, t: Store) {
    forall k :: k in s.resets && s.resets[k].consumedAt.Some? ==> k in t.resets && t.resets[k].consumedAt.Some?
  }

  lemma StepStaysConsumed(s: Store, step: Step)
    ensures StaysConsumed(s, Next(s, step))
  {
    if IsAdministration(step) {
      hide Next;
      AdministrationWrites(s, step);
    } else {
      hide RevokeActive, Assignees, Acceptable, ChangeStatus, AdminVerifyEmail, DeleteUser, RestoreUser,
          AdminRevokeSessions;
    }
  }

  lemma {:induction false} RunStaysConsumed(s: Store, steps: seq<Step>)
    ensures StaysConsumed(s, Run(s, steps))
    decreases |steps|
  {
    hide Next;
    if steps == [] {
    } else {
      StepStaysConsumed(s, steps[0]);
      RunStaysConsumed(Next(s, steps[0]), steps[1..]);
    }
  }

  /**
    A reset succeeds exactly with an acceptable password on an unconsumed token that has not run
    out; then the new password is the user's, that user alone is bumped, and no session of theirs stays active.
   */
  lemma ResetStoresThePassword(steps: seq<Step>, token: string, hash: PasswordHash, policy: PasswordPolicy, now: int)
    ensures var s := After(steps);
            var outcome := ConsumeReset(s, token, hash, policy, now);
            && (outcome.Ok? <==>
                && Acceptable(hash.password, policy) && token in s.resets
                && s.resets[token].consumedAt.None? && now < s.resets[token].expiresAt)
            && (outcome.Ok? ==>
                  && s.resets[token].userId in s.users
                    && PasswordIsReset(s, outcome.value, s.resets[token].userId, hash)
                  && token in outcome.value.resets && outcome.value.resets[token].consumedAt == Some(now))
  {
    ResetsHaveUsers(Initial(), steps);
    hide Run, RevokeActive, Acceptable;
    var s := After(steps);
    if ConsumeReset(s, token, hash, policy, now).Ok? {
      ResetWrites(s, token, hash, policy, now);
    }
    hide ConsumeAll;
  }

  /** The user's password is the new one, and only that user's row, version and sessions have changed. */
  predicate PasswordIsReset(s: Store, t: Store, userId: Id, hash: PasswordHash)
    requires userId in s.users
  {
    && t.users == s.users[userId := s.users[userId].(passwordHash := hash,
                                                     securityVersion := s.users[userId].securityVersion + 1)]
    && t.bumps == s.bumps + [userId]
    && t.sessions.Keys == s.sessions.Keys
    && forall k :: k in s.sessions ==>
         if s.sessions[k].userId == userId then t.sessions[k].status != SessionActive
             else t.sessions[k] == s.sessions[k]
  }

  lemma ResetWrites(s: Store, token: string, hash: PasswordHash, policy: PasswordPolicy, now: int)
    requires ConsumeReset(s, token, hash, policy, now).Ok?
    ensures token in s.resets && s.resets[token].userId in s.users
    ensures var t := ConsumeReset(s, token, hash, policy, now).value;
            PasswordIsReset(s, t, s.resets[token].userId, hash)
            && token in t.resets && t.resets[token].consumedAt == Some(now)
  {
    hide Acceptable;
  }

  /** Every reset token is a registered user's. */
  predicate ResetsKnown(s: Store) {
    forall k :: k in s.resets ==> s.resets[k].userId in s.users
  }

  lemma {:induction false} ResetsHaveUsers(s: Store, steps: seq<Step>)
    requires Valid(s) && ResetsKnown(s)
    ensures ResetsKnown(Run(s, steps))
    decreases |steps|
  {
    hide Next, Valid, ResetsKnown;
    if steps == [] {
    } else {
      StepKeepsResetsKnown(s, steps[0]);
      StepKeepsValid(s, steps[0]);
      ResetsHaveUsers(Next(s, steps[0]), steps[1..]);
    }
  }

  lemma StepKeepsResetsKnown(s: Store, step: Step)
    requires Valid(s) && ResetsKnown(s)
    ensures ResetsKnown(Next(s, step))
  {
    hide Next, Valid;
    StepBumps(s, step);
    if IsAdministration(step) {
      AdministrationWrites(s, step);
    } else {
      OtherStepsIssueKnown(s, step);
    }
  }

  lemma OtherStepsIssueKnown(s: Store, step: Step)
    requires ResetsKnown(s) && !IsAdministration(step)
    ensures forall k :: k in Next(s, step).resets ==> Next(s, step).resets[k].userId in s.users
  {
    hide RevokeActive, Acceptable, Assignees;
  }

  /** A reset uses up its own token and every other outstanding one of the user, for good. */
  lemma ResetUsesUpTokens(
    s: Store, token: string, hash: PasswordHash, policy: PasswordPolicy, now: int, more: seq<Step>, other: string,
    otherHash: PasswordHash, later: int)
    requires Acceptable(otherHash.password, policy)
    requires ConsumeReset(s, token, hash, policy, now).Ok?
    requires other in s.resets && s.resets[other].userId == s.resets[token].userId
    ensures ConsumeReset(Run(ConsumeReset(s, token, hash, policy, now).value, more), other, otherHash, policy, later)
         == Err(InvalidToken)
  {
    RunStaysConsumed(ConsumeReset(s, token, hash, policy, now).value, more);
    hide Run;
  }
}
