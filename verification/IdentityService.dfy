/** The identity services as they run: rows updated one statement after the other inside a transaction. */
module IdentityService {
  import opened Wrappers
  import opened Identity

  /** Two writes of one row are the second alone. */
  lemma WrittenTwice(users: map<Id, User>, userId: Id, first: User, second: User)
    ensures users[userId := first][userId := second] == users[userId := second]
  {
  }

  lemma ConsumedFirst(tokens: map<string, Token>, token: string, now: int)
    requires token in tokens && tokens[token].consumedAt.None?
    ensures ConsumeAll(tokens[token := tokens[token].(consumedAt := Some(now))], tokens[token].userId, now)
         == ConsumeAll(tokens, tokens[token].userId, now)
  {
  }

  class IdentityTables {
    var users: map<Id, User>
    var sessions: map<Id, Session>
    var opening: map<nat, OpenSession>
    var changing: map<nat, OpenChange>
    var verifications: map<string, Token>
    var resets: map<string, Token>
    var roles: map<Id, bool>
    var assignments: map<Assignment, Option<int>>
    var bumps: seq<Id>

    function State(): Store
      reads this
    {
      Store(users, sessions, opening, changing, verifications, resets, roles, assignments, bumps)
    }

    /** What a finished transaction did and answered. */
    ghost predicate Did(before: Store, step: Step, failure: Option<IdentityError>)
      reads this
    {
      && State() == Next(before, step)
      && failure == if Outcome(before, step).Ok? then None else Some(Outcome(before, step).error)
    }

    constructor ()
      ensures State() == Initial() && Valid(State())
    {
      users, sessions, opening, changing := map[], map[], map[], map[];
      verifications, resets, roles, assignments, bumps := map[], map[], map[], map[], [];
    }

    /** Increments the version of a user whose row is being written. */
    method IncrementVersion(userId: Id)
      requires userId in users
      modifies this`users, this`bumps
      ensures State() == Bumped(old(State()), userId, old(users)[userId])
    {
      users := users[userId := users[userId].(securityVersion := users[userId].securityVersion + 1)];
      bumps := bumps + [userId];
    }

    method RevokeActiveSessions(userId: Id, exclude: Option<Id>)
      modifies this`sessions
      ensures sessions == RevokeActive(old(sessions), userId, exclude)
    {
      sessions := RevokeActive(sessions, userId, exclude);
    }

    // ----- Verification tokens -----

    method VerifyEmailAndConsumeToken(token: string, userId: Id, activate: bool, now: int)
      requires token in verifications && userId in users
      modifies this`verifications, this`users
      ensures verifications == old(verifications)[token := old(verifications)[token].(consumedAt := Some(now))]
      ensures var verified := old(users)[userId].(verifiedAt := Some(now));
              users == old(users)[userId := if activate && verified.status == PendingVerification
                then verified.(status := Active) else verified]
    {
      verifications := verifications[token := verifications[token].(consumedAt := Some(now))];
      users := users[userId := users[userId].(verifiedAt := Some(now))];
      if activate && users[userId].status == PendingVerification {
        users := users[userId := users[userId].(status := Active)];
      }
    }

    method ConsumeEmailVerificationToken(token: string, now: int) returns (failure: Option<IdentityError>)
      modifies this
      ensures Did(old(State()), ConsumeVerificationStep(token, now), failure)
    {
      if token !in verifications || verifications[token].consumedAt.Some? {
        return Some(InvalidToken);
      }
      if verifications[token].expiresAt <= now {
        return Some(ExpiredToken);
      }
      var userId := verifications[token].userId;
      if userId !in users || users[userId].verifiedAt.Some? {
        return Some(InvalidToken);
      }
      ConsumedFirst(verifications, token, now);
      VerifyEmailAndConsumeToken(token, userId, users[userId].status == PendingVerification, now);
      verifications := ConsumeAll(verifications, userId, now);
      failure := None;
    }

    // ----- Sessions -----

    /** The first transaction of creating a session: the user is read and checked. */
    method BeginCreateSession(call: nat, userId: Id, securityVersion: nat) returns (failure: Option<IdentityError>)
      requires call !in opening
      modifies this`opening
      ensures Did(old(State()), BeginSessionStep(call, userId, securityVersion), failure)
    {
      if userId !in users || !IsActive(users[userId]) {
        return Some(AccountNotActive);
      }
      if users[userId].securityVersion != securityVersion {
        return Some(SessionInvalid);
      }
      opening := opening[call := OpenSession(userId, users[userId].securityVersion, |bumps|)];
      failure := None;
    }

    /** The second: the row is written with what was read, whatever happened in between. */
    method FinishCreateSession(
      call: nat, sessionId: Id, now: int, ttlSeconds: int) returns (failure: Option<IdentityError>)
      requires call in opening
      modifies this`sessions, this`opening
      ensures Did(old(State()), FinishSessionStep(call, sessionId, now, ttlSeconds), failure)
    {
      if sessionId in sessions {
        return Some(PersistenceFailure);
      }
      var read := opening[call];
      sessions := sessions[sessionId :=
        Session(read.userId, read.securityVersion, SessionActive, now, None, now + 1000 * ttlSeconds, read.readAt)];
      opening := opening - {call};
      failure := None;
    }

    // ----- Passwords -----

    method BeginChangePassword(
      call: nat, userId: Id, current: string, next: string, policy: PasswordPolicy)
      returns (failure: Option<IdentityError>)
      requires call !in changing
      modifies this`changing
      ensures Did(old(State()), BeginChangeStep(call, userId, current, next, policy), failure)
    {
      if !Acceptable(next, policy) {
        return Some(WeakPassword);
      }
      if userId !in users || users[userId].passwordHash.password != current {
        return Some(InvalidCredentials);
      }
      if users[userId].passwordHash.password == next {
        return Some(WeakPassword);
      }
      changing := changing[call := OpenChange(userId, users[userId].passwordHash, next)];
      failure := None;
    }

    /** Stores the new hash if the old one is still in place, bumps the version and revokes all sessions but one. */
    method FinishChangePassword(call: nat, salt: string, exclude: Option<Id>) returns (failure: Option<IdentityError>)
      requires call in changing
      modifies this
      ensures Did(old(State()), FinishChangeStep(call, salt, exclude), failure)
    {
      hide Register, IssueVerification, ConsumeVerification, BeginSession, FinishSession, RevokeSession, RevokeAll,
           Touch, BeginChange, IssueReset, ConsumeReset, ChangeStatus, AdminVerifyEmail, DeleteUser, RestoreUser,
           AdminRevokeSessions, RecoverSuspension, Bootstrap, AddRole, AssignRole, RemoveRole, RevokeActive;
      var change := changing[call];
      var userId := change.userId;
      if userId !in users || users[userId].passwordHash != change.hash {
        return Some(IdentityConflict);
      }
      users := users[userId := users[userId].(passwordHash := PasswordHash(change.password, salt))];
      ghost var written := users[userId];
      WrittenTwice(old(users), userId, written, written.(securityVersion := written.securityVersion + 1));
      IncrementVersion(userId);
      RevokeActiveSessions(userId, exclude);
      changing := changing - {call};
      failure := None;
    }

    method ConsumePasswordResetToken(
      token: string, hash: PasswordHash, policy: PasswordPolicy, now: int) returns (failure: Option<IdentityError>)
      modifies this
      ensures Did(old(State()), ConsumeResetStep(token, hash, policy, now), failure)
    {
      hide Register, IssueVerification, ConsumeVerification, BeginSession, FinishSession, RevokeSession, RevokeAll,
           Touch, BeginChange, FinishChange, IssueReset, ChangeStatus, AdminVerifyEmail, DeleteUser, RestoreUser,
           AdminRevokeSessions, RecoverSuspension, Bootstrap, AddRole, AssignRole, RemoveRole, RevokeActive,
           Acceptable;
      if !Acceptable(hash.password, policy) {
        return Some(WeakPassword);
      }
      if token !in resets || resets[token].consumedAt.Some? {
        return Some(InvalidToken);
      }
      if resets[token].expiresAt <= now {
        return Some(ExpiredToken);
      }
      var userId := resets[token].userId;
      if userId !in users {
        return Some(PersistenceFailure);
      }
      users := users[userId := users[userId].(passwordHash := hash)];
      ConsumedFirst(resets, token, now);
      resets := resets[token := resets[token].(consumedAt := Some(now))];
      ghost var written := users[userId];
      WrittenTwice(old(users), userId, written, written.(securityVersion := written.securityVersion + 1));
      IncrementVersion(userId);
      resets := ConsumeAll(resets, userId, now);
      RevokeActiveSessions(userId, None);
      failure := None;
    }

    // ----- Administration -----

    /** Counts the active holders of each system role of the user, until one has no other. */
    method CountActiveHolders(userId: Id, now: int) returns (isLast: bool)
      ensures isLast == IsLastActiveHolder(State(), userId, now)
    {
      hide SystemRoles, ActiveHolders;
      ghost var all := SystemRoles(State(), userId, now);
      var held := SystemRoles(State(), userId, now);
      while held != {}
        invariant held <= all
        invariant forall role :: role in all && role !in held ==> |ActiveHolders(State(), role, now)| > 1
        decreases |held|
      {
        var role :| role in held;
        if |ActiveHolders(State(), role, now)| <= 1 {
          return true;
        }
        held := held - {role};
      }
      isLast := false;
    }

    /** The same count, of holders that are not deleted. */
    method CountUndeletedHolders(userId: Id, now: int) returns (isLast: bool)
      ensures isLast == IsLastUndeletedHolder(State(), userId, now)
    {
      hide SystemRoles, UndeletedHolders;
      ghost var all := SystemRoles(State(), userId, now);
      var held := SystemRoles(State(), userId, now);
      while held != {}
        invariant held <= all
        invariant forall role :: role in all && role !in held ==> |UndeletedHolders(State(), role, now)| > 1
        decreases |held|
      {
        var role :| role in held;
        if |UndeletedHolders(State(), role, now)| <= 1 {
          return true;
        }
        held := held - {role};
      }
      isLast := false;
    }

    method ChangeUserStatus(
      actor: Id, userId: Id, next: ManagedStatus, reason: Option<string>, until: Option<int>, now: int)
      returns (failure: Option<IdentityError>)
      modifies this
      ensures Did(old(State()), ChangeStatusStep(actor, userId, next, reason, until, now), failure)
    {
      hide Register, IssueVerification, ConsumeVerification, BeginSession, FinishSession, RevokeSession, RevokeAll,
           Touch, BeginChange, FinishChange, IssueReset, ConsumeReset, AdminVerifyEmail, DeleteUser, RestoreUser,
           AdminRevokeSessions, RecoverSuspension, Bootstrap, AddRole, AssignRole, RemoveRole, StatusChanged;
      if actor == userId {
        return Some(SelfChangeForbidden);
      }
      if next != Active && reason.None? {
        return Some(ReasonRequired);
      }
      if next == Suspended {
        if until.None? {
          return Some(ExpiryRequired);
        }
        if until.value <= now {
          return Some(ExpiryInvalid);
        }
      }
      failure := ChangeStatusInTransaction(userId, next, until, now);
    }

    method ChangeStatusInTransaction(
      userId: Id, next: ManagedStatus, until: Option<int>, now: int) returns (failure: Option<IdentityError>)
      modifies this
      ensures var outcome := StatusChanged(old(State()), userId, next, until, now);
              if outcome.Ok? then State() == outcome.value && failure.None?
              else State() == old(State()) && failure == Some(outcome.error)
    {
      hide TransitionError, RevokeActive, IsLastActiveHolder;
      if userId !in users {
        return Some(UserNotFound);
      }
      failure := TransitionError(users[userId], next);
      if failure.Some? {
        return;
      }
      if next != Active && users[userId].status == Active {
        var isLast := CountActiveHolders(userId, now);
        if isLast {
          return Some(LastRoleHolder);
        }
      }
      users := users[userId :=
        users[userId].(status := next, suspendedUntil := if next == Suspended then until else None)];
      ghost var written := users[userId];
      WrittenTwice(old(users), userId, written, written.(securityVersion := written.securityVersion + 1));
      IncrementVersion(userId);
      if next != Active {
        RevokeActiveSessions(userId, None);
      }
    }

    method VerifyEmail(userId: Id, now: int) returns (failure: Option<IdentityError>)
      modifies this
      ensures Did(old(State()), AdminVerifyEmailStep(userId, now), failure)
    {
      hide Register, IssueVerification, ConsumeVerification, BeginSession, FinishSession, RevokeSession, RevokeAll,
           Touch, BeginChange, FinishChange, IssueReset, ConsumeReset, ChangeStatus, DeleteUser, RestoreUser,
           AdminRevokeSessions, RecoverSuspension, Bootstrap, AddRole, AssignRole, RemoveRole, RemoveAll;
      if userId !in users {
        return Some(UserNotFound);
      }
      failure := None;
      if users[userId].verifiedAt.Some? {
        return;
      }
      var nextStatus := if users[userId].status == PendingVerification then Active else users[userId].status;
      users := users[userId := users[userId].(verifiedAt := Some(now))];
      verifications := RemoveAll(verifications, userId);
      users := users[userId := users[userId].(status := nextStatus)];
      ghost var written := users[userId];
      WrittenTwice(old(users), userId, written, written.(securityVersion := written.securityVersion + 1));
      IncrementVersion(userId);
    }

    method Delete(actor: Id, userId: Id, now: int) returns (failure: Option<IdentityError>)
      modifies this
      ensures Did(old(State()), DeleteUserStep(actor, userId, now), failure)
    {
      hide Register, IssueVerification, ConsumeVerification, BeginSession, FinishSession, RevokeSession, RevokeAll,
           Touch, BeginChange, FinishChange, IssueReset, ConsumeReset, ChangeStatus, AdminVerifyEmail, RestoreUser,
           AdminRevokeSessions, RecoverSuspension, Bootstrap, AddRole, AssignRole, RemoveRole, RevokeActive,
           IsLastUndeletedHolder;
      if actor == userId {
        return Some(SelfChangeForbidden);
      }
      if userId !in users {
        return Some(UserNotFound);
      }
      failure := None;
      if users[userId].deletedAt.Some? || users[userId].status == Deleted {
        return;
      }
      var isLast := CountUndeletedHolders(userId, now);
      if isLast {
        return Some(LastRoleHolder);
      }
      RevokeActiveSessions(userId, None);
      users := users[userId := users[userId].(status := Deleted, deletedAt := Some(now), suspendedUntil := None)];
      ghost var written := users[userId];
      WrittenTwice(old(users), userId, written, written.(securityVersion := written.securityVersion + 1));
      IncrementVersion(userId);
    }

    method Restore(userId: Id) returns (failure: Option<IdentityError>)
      modifies this
      ensures Did(old(State()), RestoreUserStep(userId), failure)
    {
      hide Register, IssueVerification, ConsumeVerification, BeginSession, FinishSession, RevokeSession, RevokeAll,
           Touch, BeginChange, FinishChange, IssueReset, ConsumeReset, ChangeStatus, AdminVerifyEmail, DeleteUser,
           AdminRevokeSessions, RecoverSuspension, Bootstrap, AddRole, AssignRole, RemoveRole;
      if userId !in users {
        return Some(UserNotFound);
      }
      failure := None;
      if users[userId].deletedAt.None? && users[userId].status != Deleted {
        return;
      }
      var nextStatus := if users[userId].verifiedAt.None? then PendingVerification else Active;
      users := users[userId := users[userId].(status := nextStatus, deletedAt := None, suspendedUntil := None)];
      ghost var written := users[userId];
      WrittenTwice(old(users), userId, written, written.(securityVersion := written.securityVersion + 1));
      IncrementVersion(userId);
    }

    method RevokeSessions(actor: Id, userId: Id) returns (failure: Option<IdentityError>)
      modifies this
      ensures Did(old(State()), AdminRevokeSessionsStep(actor, userId), failure)
    {
      if actor == userId {
        return Some(SelfChangeForbidden);
      }
      if userId !in users {
        return Some(UserNotFound);
      }
      RevokeActiveSessions(userId, None);
      IncrementVersion(userId);
      failure := None;
    }

    method RecoverExpiredSuspension(userId: Id, now: int)
      modifies this`users
      ensures State() == Next(old(State()), RecoverSuspensionStep(userId, now))
    {
      if userId in users && users[userId].status == Suspended
         && users[userId].suspendedUntil.Some? && users[userId].suspendedUntil.value <= now {
        users := users[userId := users[userId].(status := Active, suspendedUntil := None)];
      }
    }

    // ----- Roles -----

    method Seed()
      modifies this`roles
      ensures State() == Next(old(State()), SeedRbacStep)
    {
      roles := roles[SUPER_ADMIN := true];
    }

    /** Writes the assignment anew, whether or not there was one. */
    method Assign(
      userId: Id, roleId: Id, until: Option<int>, now: int) returns (failure: Option<IdentityError>)
      modifies this`assignments
      ensures Did(old(State()), AssignRoleStep(userId, roleId, until, now), failure)
    {
      if until.Some? && until.value <= now {
        return Some(RoleExpiryInvalid);
      }
      if userId !in users {
        return Some(UserNotFound);
      }
      if roleId !in roles {
        return Some(RoleNotFound);
      }
      assignments := assignments[Assignment(userId, roleId) := until];
      failure := None;
    }

    method Remove(actor: Id, userId: Id, roleId: Id, now: int) returns (failure: Option<IdentityError>)
      modifies this`assignments
      ensures Did(old(State()), RemoveRoleStep(actor, userId, roleId, now), failure)
    {
      if Assignment(userId, roleId) !in assignments {
        return Some(AssignmentNotFound);
      }
      var system := IsSystemRole(State(), roleId);
      if actor == userId && system {
        return Some(SelfRemovalForbidden);
      }
      if system && |Assignees(State(), roleId, now)| <= 1 {
        return Some(LastRoleHolder);
      }
      assignments := assignments - {Assignment(userId, roleId)};
      failure := None;
    }

    /** Verifies and activates before it looks for the role; without the role everything is rolled back. */
    method BootstrapAdministrator(userId: Id, verifyEmail: bool, now: int) returns (failure: Option<IdentityError>)
      modifies this`users, this`assignments
      ensures Did(old(State()), BootstrapStep(userId, verifyEmail, now), failure)
    {
      hide Register, IssueVerification, ConsumeVerification, BeginSession, FinishSession, RevokeSession, RevokeAll,
           Touch, BeginChange, FinishChange, IssueReset, ConsumeReset, ChangeStatus, AdminVerifyEmail, DeleteUser,
           RestoreUser, AdminRevokeSessions, RecoverSuspension, AddRole, AssignRole, RemoveRole;
      if userId !in users {
        return Some(UserNotFound);
      }
      var target := users[userId];
      if target.deletedAt.Some? || target.status == Deleted {
        return Some(DeletedUser);
      }
      if target.status != Active && target.status != PendingVerification {
        return Some(IneligibleUser);
      }
      if target.verifiedAt.None? && !verifyEmail {
        return Some(VerifiedEmailRequired);
      }
      var saved := users;
      if target.verifiedAt.None? {
        users := users[userId := users[userId].(verifiedAt := Some(now))];
        if target.status == PendingVerification {
          WrittenTwice(saved, userId, users[userId], users[userId].(status := Active));
          users := users[userId := users[userId].(status := Active)];
        }
      }
      if SUPER_ADMIN !in roles {
        users := saved;
        return Some(RoleMissing);
      }
      assignments := assignments[Assignment(userId, SUPER_ADMIN) := None];
      failure := None;
    }
  }
}
