/**
  What becomes of accounts, said of the rows alone: when tokens, passwords, administrators' changes
  and role assignments are accepted, and what they leave behind.
 */
module IdentityAccounts {
  import opened Identity
  import opened IdentityRoles
  import opened IdentityTheorems
  import opened Text
  import opened Wrappers

  // ----- Tokens -----

  /** The user's outstanding tokens are consumed now, and no other token is touched. */
  predicate SpendsTokens(before: map<string, Token>, after: map<string, Token>, userId: Id, now: int) {
    && after.Keys == before.Keys
    && forall k :: k in before ==>
         after[k] == if before[k].userId == userId && before[k].consumedAt == None
                     then Token(userId, before[k].expiresAt, Some(now)) else before[k]
  }

  lemma ConsumeAllSpends(tokens: map<string, Token>, userId: Id, now: int)
    ensures SpendsTokens(tokens, ConsumeAll(tokens, userId, now), userId, now)
  {
  }

  /** All but the users' and their tokens' rows stays. */
  predicate KeepsTheRest(s: Store, t: Store) {
    && t.sessions == s.sessions && t.opening == s.opening && t.changing == s.changing && t.resets == s.resets
    && t.roles == s.roles && t.assignments == s.assignments && t.bumps == s.bumps
  }

  /** Every verification token is a registered user's. */
  predicate VerificationsKnown(s: Store) {
    forall k :: k in s.verifications ==> s.verifications[k].userId in s.users
  }

  lemma {:induction false} VerificationsHaveUsers(s: Store, steps: seq<Step>)
    requires Valid(s) && VerificationsKnown(s)
    ensures VerificationsKnown(Run(s, steps))
    decreases |steps|
  {
    hide Next, Valid, VerificationsKnown;
    if steps == [] {
    } else {
      StepKeepsVerificationsKnown(s, steps[0]);
      StepKeepsValid(s, steps[0]);
      VerificationsHaveUsers(Next(s, steps[0]), steps[1..]);
    }
  }

  lemma StepKeepsVerificationsKnown(s: Store, step: Step)
    requires Valid(s) && VerificationsKnown(s)
    ensures VerificationsKnown(Next(s, step))
  {
    hide Next, Valid;
    StepBumps(s, step);
    if IsAdministration(step) {
      AdministrationKeepsSecrets(s, step);
    } else {
      OtherStepsVerifyKnown(s, step);
    }
  }

  /** Users keep their passwords, and verification tokens are at most removed. */
  predicate KeepsSecrets(s: Store, t: Store) {
    && (forall u :: u in s.users ==> u in t.users && t.users[u].passwordHash == s.users[u].passwordHash)
    && (forall k :: k in t.verifications ==> k in s.verifications && t.verifications[k] == s.verifications[k])
  }

  lemma StatusChangeKeepsSecrets(s: Store, userId: Id, next: ManagedStatus, until: Option<int>, now: int)
    requires StatusChanged(s, userId, next, until, now).Ok?
    ensures KeepsSecrets(s, StatusChanged(s, userId, next, until, now).value)
  {
    hide RevokeActive, TransitionError, IsLastActiveHolder;
  }

  lemma AdminVerificationKeepsSecrets(s: Store, userId: Id, now: int)
    requires AdminVerifyEmail(s, userId, now).Ok?
    ensures KeepsSecrets(s, AdminVerifyEmail(s, userId, now).value)
  {
  }

  lemma AccessKeepsSecrets(s: Store, step: Step)
    requires step.AdminVerifyEmailStep? || step.AdminRevokeSessionsStep?
    ensures KeepsSecrets(s, Next(s, step))
  {
    hide RevokeActive, ChangeStatus, DeleteUser, RestoreUser, AdminVerifyEmail;
    if step.AdminVerifyEmailStep? && AdminVerifyEmail(s, step.userId, step.now).Ok? {
      AdminVerificationKeepsSecrets(s, step.userId, step.now);
    }
  }

  lemma AdministrationKeepsSecrets(s: Store, step: Step)
    requires IsAdministration(step)
    ensures KeepsSecrets(s, Next(s, step))
  {
    hide RevokeActive, StatusRequestError, StatusChanged, IsLastUndeletedHolder, AdminVerifyEmail, AdminRevokeSessions;
    if step.ChangeStatusStep? && StatusChanged(s, step.userId, step.status, step.until, step.now).Ok? {
      StatusChangeKeepsSecrets(s, step.userId, step.status, step.until, step.now);
    }
    if step.AdminVerifyEmailStep? || step.AdminRevokeSessionsStep? {
      hide Next;
      AccessKeepsSecrets(s, step);
    }
  }

  lemma OtherStepsVerifyKnown(s: Store, step: Step)
    requires VerificationsKnown(s) && !IsAdministration(step)
    ensures forall k :: k in Next(s, step).verifications ==>
            Next(s, step).verifications[k].userId in Next(s, step).users
  {
    hide RevokeActive, Acceptable, Assignees, ChangeStatus, AdminVerifyEmail, DeleteUser, RestoreUser,
        AdminRevokeSessions;
  }

  /**
    In every reachable state a verification succeeds if and only if its token is outstanding, has
    time left, and its user is not yet verified. Then the user is verified now, and active unless
    deleted; all the user's tokens are consumed, and nothing else changes.
   */
  lemma VerificationSucceedsIff(steps: seq<Step>, token: string, now: int)
    ensures var s := After(steps);
            var outcome := ConsumeVerification(s, token, now);
            && (outcome.Ok? <==>
                && token in s.verifications && s.verifications[token].consumedAt == None
                && now < s.verifications[token].expiresAt
                && s.verifications[token].userId in s.users
                && s.users[s.verifications[token].userId].verifiedAt == None)
            && (outcome.Ok? ==> Verifies(s, outcome.value, s.verifications[token].userId, now))
            && (outcome.Err? ==>
                  (outcome.error == ExpiredToken <==>
                   && token in s.verifications && s.verifications[token].consumedAt == None
                   && s.verifications[token].expiresAt <= now)
                  && (outcome.error == ExpiredToken || outcome.error == InvalidToken))
  {
    ReachableIsValid(steps);
    var s := After(steps);
    hide Run, Verifies, Valid, ConsumeAll;
    if ConsumeVerification(s, token, now).Ok? {
      VerificationWrites(s, token, now);
    }
  }

  lemma VerificationWrites(s: Store, token: string, now: int)
    requires Valid(s) && ConsumeVerification(s, token, now).Ok?
    ensures Verifies(s, ConsumeVerification(s, token, now).value, s.verifications[token].userId, now)
  {
    var userId := s.verifications[token].userId;
    ConsumeAllSpends(s.verifications, userId, now);
    assert LifecycleOk(s.users[userId]);
    hide ConsumeAll, Valid;
  }

  /** The user is verified now, active unless deleted, without outstanding verification tokens. */
  predicate Verifies(s: Store, t: Store, userId: Id, now: int)
    requires userId in s.users
  {
    && SpendsTokens(s.verifications, t.verifications, userId, now) && KeepsTheRest(s, t)
    && t.users == s.users[userId := s.users[userId].(
         verifiedAt := Some(now), status := if s.users[userId].status == Deleted then Deleted else Active)]
  }

  /**
    A new verification or reset token makes every earlier one of the user invalid, at whatever time
    they are tried, and is itself good, for an unverified user, until it expires.
   */
  lemma OnlyTheNewestTokenIsGood(
    s: Store, userId: Id, token: string, expiresAt: int, now: int, other: string, later: int)
    requires token !in s.verifications && userId in s.users
    ensures var issued := IssueVerification(s, userId, token, expiresAt, now);
            && issued.Ok? && issued.value.users == s.users
            && (ConsumeVerification(issued.value, token, later).Ok? <==>
                later < expiresAt && s.users[userId].verifiedAt == None)
            && (other in s.verifications && s.verifications[other].userId == userId ==>
                  ConsumeVerification(issued.value, other, later) == Err(InvalidToken))
            && (other in s.verifications && s.verifications[other].userId != userId ==>
                  issued.value.verifications[other] == s.verifications[other])
  {
  }

  /** Tokens are issued to known users exactly when they are new, and passwords' changes begin under new calls. */
  lemma NothingIsOverwritten(
    s: Store, userId: Id, token: string, expiresAt: int, now: int, call: nat, current: string, next: string,
    policy: PasswordPolicy)
    ensures IssueVerification(s, userId, token, expiresAt, now).Ok? <==> userId in s.users && token !in s.verifications
    ensures IssueReset(s, userId, token, expiresAt, now).Ok? <==> userId in s.users && token !in s.resets
    ensures BeginChange(s, call, userId, current, next, policy).Ok? ==> call !in s.changing
  {
    hide ConsumeAll, Acceptable;
  }

  lemma OnlyTheNewestResetIsGood(
    s: Store, userId: Id, token: string, expiresAt: int, now: int, hash: PasswordHash, policy: PasswordPolicy,
    other: string, later: int)
    requires token !in s.resets && userId in s.users && Acceptable(hash.password, policy)
    ensures var issued := IssueReset(s, userId, token, expiresAt, now);
            && issued.Ok? && issued.value.users == s.users && issued.value.sessions == s.sessions
            && (ConsumeReset(issued.value, token, hash, policy, later).Ok? <==> later < expiresAt)
            && (other in s.resets && s.resets[other].userId == userId ==>
                  ConsumeReset(issued.value, other, hash, policy, later) == Err(InvalidToken))
            && (other in s.resets && s.resets[other].userId != userId ==>
                  issued.value.resets[other] == s.resets[other])
  {
    hide RevokeActive, Acceptable;
  }

  // ----- Passwords -----

  /** How many characters take two units of UTF-16. */
  function Wide(text: string): nat {
    if text == "" then 0 else Wide(text[..|text| - 1]) + if text[|text| - 1] as int > 65535 then 1 else 0
  }

  lemma {:induction false} WideIsSupplementary(text: string)
    ensures Supplementary(text) == Wide(text)
  {
    if text == "" {
    } else if |text| == 1 {
      assert text[1..] == "" && text[..0] == "";
    } else {
      var n := |text| - 1;
      WideIsSupplementary(text[1..]);
      WideIsSupplementary(text[..n]);
      WideIsSupplementary(text[1..n]);
      assert text[1..][..n - 1] == text[1..n] && text[..n][1..] == text[1..n];
    }
  }

  /** White space by code. */
  predicate IsBlank(c: char) {
    c as int in {9, 10, 11, 12, 13, 32, 160, 5760, 8192, 8193, 8194, 8195, 8196, 8197, 8198, 8199, 8200, 8201, 8202,
      8232,
      8233, 8239, 8287, 12288, 65279}
  }

  lemma BlankIsSpace(c: char)
    ensures IsBlank(c) <==> IsSpace(c)
  {
  }

  /** Passwords are refused exactly for their length, a null character, or nothing but white space. */
  lemma AcceptableIff(password: string, policy: PasswordPolicy)
    ensures Acceptable(password, policy) <==>
            && policy.minLength <= |password| + Wide(password) <= policy.maxLength
            && !(forall c :: c in password ==> IsBlank(c))
            && forall c :: c in password ==> c as int != 0
  {
    WideIsSupplementary(password);
    hide IsSpace, IsBlank, Wide;
    forall c ensures IsBlank(c) <==> IsSpace(c) {
      BlankIsSpace(c);
    }
    assert forall i :: 0 <= i < |password| ==> password[i] in password;
  }

  /** A user is registered exactly with an acceptable password, under a new identifier and token. */
  lemma RegistrationSucceedsIff(
    s: Store, userId: Id, hash: PasswordHash, policy: PasswordPolicy, token: string, expiresAt: int)
    ensures var outcome := Register(s, userId, hash, policy, token, expiresAt);
            && (outcome.Ok? <==>
                Acceptable(hash.password, policy) && userId !in s.users && token !in s.verifications)
            && (outcome.Ok? ==>
                  && outcome.value.users == s.users[userId := User(PendingVerification, None, None, 0, None, hash)]
                  && outcome.value.verifications == s.verifications[token := Token(userId, expiresAt, None)]
                  && KeepsTheRest(s, outcome.value))
            && (outcome == Err(WeakPassword) <==> !Acceptable(hash.password, policy))
  {
    hide Acceptable;
  }

  /** Steps that write the user's password. */
  predicate WritesPassword(s: Store, step: Step, userId: Id) {
    || (step.FinishChangeStep? && step.call in s.changing && s.changing[step.call].userId == userId)
    || (step.ConsumeResetStep? && step.token in s.resets && s.resets[step.token].userId == userId)
  }

  lemma PasswordStays(s: Store, step: Step, userId: Id)
    requires userId in s.users && !WritesPassword(s, step, userId)
    ensures userId in Next(s, step).users
    ensures Next(s, step).users[userId].passwordHash == s.users[userId].passwordHash
  {
    if IsAdministration(step) {
      hide Next;
      AdministrationKeepsSecrets(s, step);
    } else {
      OtherStepsKeepPassword(s, step, userId);
    }
  }

  lemma OtherStepsKeepPassword(s: Store, step: Step, userId: Id)
    requires userId in s.users && !WritesPassword(s, step, userId) && !IsAdministration(step)
    ensures userId in Next(s, step).users
    ensures Next(s, step).users[userId].passwordHash == s.users[userId].passwordHash
  {
    hide RevokeActive, ConsumeAll, Acceptable, IssueVerification, BeginSession, FinishSession, BeginChange, IssueReset,
         AssignRole, RemoveRole, ChangeStatus, AdminVerifyEmail, DeleteUser, RestoreUser, AdminRevokeSessions;
    if WritesNoUsers(step) {
      OthersWriteNoUsers(s, step);
    }
  }

  predicate WritesNoUsers(step: Step) {
    || step.IssueVerificationStep? || step.BeginSessionStep? || step.FinishSessionStep? || step.BeginChangeStep?
    || step.IssueResetStep? || step.AssignRoleStep? || step.RemoveRoleStep?
  }

  lemma OthersWriteNoUsers(s: Store, step: Step)
    requires WritesNoUsers(step)
    ensures Next(s, step).users == s.users
  {
    hide RevokeActive, ConsumeAll, Acceptable, Assignees, Register, ConsumeVerification, FinishChange, ConsumeReset,
         RecoverSuspension, Bootstrap, ChangeStatus, AdminVerifyEmail, DeleteUser, RestoreUser, AdminRevokeSessions;
  }

  /** No step of the run writes the user's password. */
  predicate KeepsPassword(s: Store, steps: seq<Step>, userId: Id)
    decreases |steps|
  {
    steps == [] || (!WritesPassword(s, steps[0], userId) && KeepsPassword(Next(s, steps[0]), steps[1..], userId))
  }

  lemma {:induction false} PasswordStaysOverRuns(s: Store, steps: seq<Step>, userId: Id)
    requires userId in s.users && KeepsPassword(s, steps, userId)
    ensures userId in Run(s, steps).users
    ensures Run(s, steps).users[userId].passwordHash == s.users[userId].passwordHash
    decreases |steps|
  {
    hide Next, WritesPassword;
    if steps != [] {
      PasswordStays(s, steps[0], userId);
      PasswordStaysOverRuns(Next(s, steps[0]), steps[1..], userId);
    }
  }

  /**
    After a change finished, and whatever follows short of another one, a further change can begin
    exactly by giving the new password, for an acceptable one that differs from it.
   */
  lemma ChangedPasswordIsAsked(
    s: Store, call: nat, salt: string, exclude: Option<Id>, more: seq<Step>,
    nextCall: nat, current: string, next: string, policy: PasswordPolicy)
    requires FinishChange(s, call, salt, exclude).Ok?
    requires KeepsPassword(FinishChange(s, call, salt, exclude).value, more, s.changing[call].userId)
    requires nextCall !in Run(FinishChange(s, call, salt, exclude).value, more).changing
    ensures var t := Run(FinishChange(s, call, salt, exclude).value, more);
            var begun := BeginChange(t, nextCall, s.changing[call].userId, current, next, policy);
            && (begun.Ok? <==>
                Acceptable(next, policy) && current == s.changing[call].password && next != s.changing[call].password)
            && (begun.Err? ==>
                  begun.error == if Acceptable(next, policy) && current != s.changing[call].password
                                 then InvalidCredentials else WeakPassword)
            && (begun.Ok? ==>
                  begun.value == t.(changing := t.changing[nextCall :=
                    OpenChange(s.changing[call].userId, PasswordHash(s.changing[call].password, salt), next)]))
  {
    var c := s.changing[call];
    var changed := FinishChange(s, call, salt, exclude).value;
    assert changed.users[c.userId].passwordHash == PasswordHash(c.password, salt);
    PasswordStaysOverRuns(changed, more, c.userId);
    hide Run, Acceptable, FinishChange, KeepsPassword;
  }

  /** A change is finished exactly while the hash read at its beginning is still the stored one. */
  lemma ChangeFinishesIff(s: Store, call: nat, salt: string, exclude: Option<Id>)
    ensures var outcome := FinishChange(s, call, salt, exclude);
            && (outcome.Ok? <==>
                && call in s.changing && s.changing[call].userId in s.users
                && s.users[s.changing[call].userId].passwordHash == s.changing[call].hash)
            && (outcome.Ok? ==>
                  && call !in outcome.value.changing
                  && EndsSessions(s, outcome.value, s.changing[call].userId, exclude)
                  && WritesUser(s, outcome.value, s.changing[call].userId,
                       s.users[s.changing[call].userId].(passwordHash :=
                         PasswordHash(s.changing[call].password, salt))))
  {
  }

  // ----- What administrators' changes write -----

  /** The row, one version later, and the log; no other user changes. */
  predicate WritesUser(s: Store, t: Store, userId: Id, user: User) {
    && t.users == s.users[userId := user.(securityVersion := user.securityVersion + 1)]
    && t.bumps == s.bumps + [userId]
  }

  /** The user's active sessions but one are revoked; no other session changes. */
  predicate EndsSessions(s: Store, t: Store, userId: Id, spared: Option<Id>) {
    && t.sessions.Keys == s.sessions.Keys
    && forall k :: k in s.sessions ==>
         t.sessions[k] ==
         if s.sessions[k].userId == userId && s.sessions[k].status == SessionActive && spared != Some(k)
         then s.sessions[k].(status := SessionRevoked) else s.sessions[k]
  }

  /**
    A changed status is in the row, with the end of a suspension and no other; a restriction ends
    all sessions, a reinstatement none.
   */
  lemma StatusChangeIsStored(s: Store, actor: Id, userId: Id, next: ManagedStatus, reason: Option<string>,
      until: Option<int>, now: int)
    requires ChangeStatus(s, actor, userId, next, reason, until, now).Ok?
    ensures var t := ChangeStatus(s, actor, userId, next, reason, until, now).value;
            && userId in s.users
            && WritesUser(s, t, userId,
                 s.users[userId].(status := next, suspendedUntil := if next == Suspended then until else None))
            && (next == Active ==> t.sessions == s.sessions)
            && (next != Active ==> EndsSessions(s, t, userId, None))
            && t.assignments == s.assignments && t.roles == s.roles
  {
    hide IsLastActiveHolder, TransitionError, StatusRequestError;
  }

  /** A suspension given an end is lifted by a sign-in at or after it and at no earlier time. */
  lemma SuspensionEndsOnTime(s: Store, actor: Id, userId: Id, reason: Option<string>, until: int, now: int, later: int)
    requires ChangeStatus(s, actor, userId, Suspended, reason, Some(until), now).Ok?
    ensures var t := ChangeStatus(s, actor, userId, Suspended, reason, Some(until), now).value;
            && now < until
            && RecoverSuspension(t, userId, later) ==
               if later < until then t
               else t.(users := t.users[userId := t.users[userId].(status := Active, suspendedUntil := None)])
  {
    hide IsLastActiveHolder, TransitionError, RevokeActive;
  }

  /** Suspensions without an end, other statuses and other users are left alone by a sign-in. */
  lemma RecoveryTouchesOnlyEnded(s: Store, userId: Id, now: int)
    ensures RecoverSuspension(s, userId, now) != s ==>
              && userId in s.users && s.users[userId].status == Suspended
              && s.users[userId].suspendedUntil.Some? && s.users[userId].suspendedUntil.value <= now
  {
  }

  /** Which error an administrator's change of status meets in a reachable state. */
  lemma StatusChangeRefusals(
    steps: seq<Step>, actor: Id, userId: Id, next: ManagedStatus, reason: Option<string>, until: Option<int>,
    now: int)
    requires ChangeStatus(After(steps), actor, userId, next, reason, until, now).Err?
    ensures var s := After(steps);
            var error := ChangeStatus(s, actor, userId, next, reason, until, now).error;
            && (error == SelfChangeForbidden <==> actor == userId)
            && (error == ReasonRequired <==> actor != userId && next != Active && reason == None)
            && (error == ExpiryRequired <==> actor != userId && next == Suspended && reason.Some? && until == None)
            && (error == ExpiryInvalid <==>
                actor != userId && next == Suspended && reason.Some? && until.Some? && until.value <= now)
            && (error == UserNotFound ==> userId !in s.users)
            && (error == DeletedUser ==> userId in s.users && s.users[userId].status == Deleted)
            && (error == StatusUnchanged ==> userId in s.users && s.users[userId].status == next)
            && (error == TransitionInvalid ==>
                  userId in s.users && (s.users[userId].status == PendingVerification
                                        || (s.users[userId].status == Banned && next == Suspended)))
            && error in {SelfChangeForbidden, ReasonRequired, ExpiryRequired, ExpiryInvalid, UserNotFound, DeletedUser,
                         StatusUnchanged, TransitionInvalid, LastRoleHolder}
            && (error == LastRoleHolder ==>
                  userId in s.users && s.users[userId].status == Active && IsOnlyHolder(s, userId, now))
  {
    ReachableIsValid(steps);
    var s := After(steps);
    if userId in s.users {
      assert LifecycleOk(s.users[userId]);
      OnlyHolderIff(s, userId, now);
    }
    hide Run, Valid, RevokeActive, IsLastActiveHolder, IsOnlyHolder;
  }

  // ----- Roles -----

  /** The user is assigned the role, and the assignment has not ended. */
  predicate HasRole(s: Store, userId: Id, role: Id, now: int) {
    Assignment(userId, role) in s.assignments
    && (s.assignments[Assignment(userId, role)] == None || now < s.assignments[Assignment(userId, role)].value)
  }

  predicate IsGuarded(s: Store, role: Id) {
    role in s.roles && s.roles[role] == true
  }

  predicate IsInUse(s: Store, userId: Id) {
    userId in s.users && s.users[userId].status == Active && s.users[userId].deletedAt == None
  }

  predicate IsKept(s: Store, userId: Id) {
    userId in s.users && s.users[userId].status != Deleted && s.users[userId].deletedAt == None
  }

  /** Nobody else in use has some system role the user has. */
  ghost predicate IsOnlyHolder(s: Store, userId: Id, now: int) {
    exists role :: IsGuarded(s, role) && HasRole(s, userId, role, now)
                   && forall u :: u != userId && HasRole(s, u, role, now) ==> !IsInUse(s, u)
  }

  /** Nobody else who is not deleted has some system role the user has. */
  ghost predicate IsOnlyKept(s: Store, userId: Id, now: int) {
    exists role :: IsGuarded(s, role) && HasRole(s, userId, role, now)
                   && forall u :: u != userId && HasRole(s, u, role, now) ==> !IsKept(s, u)
  }

  lemma AssigneesHaveRole(s: Store, role: Id, now: int, u: Id)
    ensures u in Assignees(s, role, now) <==> HasRole(s, u, role, now)
    ensures role in SystemRoles(s, u, now) <==> IsGuarded(s, role) && HasRole(s, u, role, now)
  {
    if HasRole(s, u, role, now) {
      assert Assignment(u, role) in s.assignments;
    }
  }

  lemma HoldersHaveRole(s: Store, role: Id, now: int, u: Id)
    ensures u in ActiveHolders(s, role, now) <==> HasRole(s, u, role, now) && IsInUse(s, u)
    ensures u in UndeletedHolders(s, role, now) <==> HasRole(s, u, role, now) && IsKept(s, u)
  {
    AssigneesHaveRole(s, role, now, u);
    hide Assignees, HasRole;
  }

  lemma OnlyHolderIff(s: Store, userId: Id, now: int)
    requires userId in s.users && s.users[userId].status == Active ==> s.users[userId].deletedAt == None
    ensures IsInUse(s, userId) ==> (IsLastActiveHolder(s, userId, now) <==> IsOnlyHolder(s, userId, now))
  {
    if IsInUse(s, userId) {
      LastActiveHolderIff(s, userId, now);
      hide HasRole, IsGuarded, SystemRoles, ActiveHolders, IsInUse, IsLastActiveHolder;
      forall role
        ensures role in SystemRoles(s, userId, now) && ActiveHolders(s, role, now) == {userId} <==>
                IsGuarded(s, role) && HasRole(s, userId, role, now)
                && forall u :: u != userId && HasRole(s, u, role, now) ==> !IsInUse(s, u)
      {
        AssigneesHaveRole(s, role, now, userId);
        forall u ensures u in ActiveHolders(s, role, now) <==> HasRole(s, u, role, now) && IsInUse(s, u) {
          HoldersHaveRole(s, role, now, u);
        }
      }
    }
  }

  lemma OnlyKeptIff(s: Store, userId: Id, now: int)
    requires IsKept(s, userId)
    ensures IsLastUndeletedHolder(s, userId, now) <==> IsOnlyKept(s, userId, now)
  {
    LastUndeletedHolderIff(s, userId, now);
    hide HasRole, IsGuarded, SystemRoles, UndeletedHolders, IsKept, IsLastUndeletedHolder;
    forall role
      ensures role in SystemRoles(s, userId, now) && UndeletedHolders(s, role, now) == {userId} <==>
              IsGuarded(s, role) && HasRole(s, userId, role, now)
              && forall u :: u != userId && HasRole(s, u, role, now) ==> !IsKept(s, u)
    {
      AssigneesHaveRole(s, role, now, userId);
      forall u ensures u in UndeletedHolders(s, role, now) <==> HasRole(s, u, role, now) && IsKept(s, u) {
        HoldersHaveRole(s, role, now, u);
      }
    }
  }

  /** In every reachable state a suspension or ban meets the guard of roles exactly for the only holder in use. */
  lemma RestrictionIsGuardedIff(
    steps: seq<Step>, actor: Id, userId: Id, next: ManagedStatus, reason: string, until: int, now: int)
    requires actor != userId && next != Active && now < until
    requires userId in After(steps).users && After(steps).users[userId].status == Active
    ensures ChangeStatus(After(steps), actor, userId, next, Some(reason), Some(until), now) == Err(LastRoleHolder)
       <==> IsOnlyHolder(After(steps), userId, now)
  {
    ReachableIsValid(steps);
    var s := After(steps);
    assert LifecycleOk(s.users[userId]);
    OnlyHolderIff(s, userId, now);
    hide Run, Valid, RevokeActive, IsLastActiveHolder, IsOnlyHolder;
  }

  /**
    A deletion is refused for oneself, for somebody unknown, and for the only one not deleted with
    some system role; deleting again changes nothing. It stamps the row, ends a suspension and all
    sessions, and leaves assignments and tokens alone.
   */
  lemma DeletionSucceedsIff(s: Store, actor: Id, userId: Id, now: int)
    ensures var outcome := DeleteUser(s, actor, userId, now);
            && (outcome.Ok? <==>
                actor != userId && userId in s.users && !(IsKept(s, userId) && IsOnlyKept(s, userId, now)))
            && (outcome.Err? ==>
                  outcome.error == if actor == userId then SelfChangeForbidden
                                   else if userId !in s.users then UserNotFound else LastRoleHolder)
            && (outcome.Ok? && !IsKept(s, userId) ==> outcome.value == s)
            && (outcome.Ok? && IsKept(s, userId) ==>
                  && WritesUser(s, outcome.value, userId,
                       s.users[userId].(status := Deleted, deletedAt := Some(now), suspendedUntil := None))
                  && EndsSessions(s, outcome.value, userId, None)
                  && outcome.value.assignments == s.assignments && outcome.value.roles == s.roles
                  && outcome.value.verifications == s.verifications && outcome.value.resets == s.resets)
  {
    if IsKept(s, userId) {
      OnlyKeptIff(s, userId, now);
    }
    hide IsLastUndeletedHolder, IsOnlyKept;
  }

  /**
    Restoring a deleted user gives back the account, active if its address was verified and pending
    if not, two versions on, with no session still good.
   */
  lemma RestoringUndoesDeletion(s: Store, actor: Id, userId: Id, now: int)
    requires DeleteUser(s, actor, userId, now).Ok? && IsKept(s, userId)
    ensures var restored := RestoreUser(DeleteUser(s, actor, userId, now).value, userId);
            && restored.Ok?
            && restored.value.users == s.users[userId := s.users[userId].(
                 status := if s.users[userId].verifiedAt == None then PendingVerification else Active,
                 suspendedUntil := None, deletedAt := None,
                 securityVersion := s.users[userId].securityVersion + 2)]
            && restored.value.bumps == s.bumps + [userId, userId]
            && restored.value.assignments == s.assignments
            && (forall k :: k in restored.value.sessions && restored.value.sessions[k].userId == userId ==>
                  restored.value.sessions[k].status != SessionActive)
  {
    hide IsLastUndeletedHolder;
    assert s.bumps + [userId] + [userId] == s.bumps + [userId, userId];
  }

  /** A restoration succeeds exactly for a known user, and changes nothing for one who is not deleted. */
  lemma RestorationSucceedsIff(s: Store, userId: Id)
    ensures var outcome := RestoreUser(s, userId);
            && (outcome.Ok? <==> userId in s.users)
            && (outcome.Ok? && IsKept(s, userId) ==> outcome.value == s)
            && (outcome.Ok? && !IsKept(s, userId) ==>
                  && outcome.value.sessions == s.sessions
                  && WritesUser(s, outcome.value, userId, s.users[userId].(
                       status := if s.users[userId].verifiedAt == None then PendingVerification else Active,
                       deletedAt := None, suspendedUntil := None)))
  {
  }

  /** An administrator verifies a known user, once; the outstanding tokens go, others' stay. */
  lemma AdminVerificationStores(s: Store, userId: Id, now: int)
    ensures var outcome := AdminVerifyEmail(s, userId, now);
            && (outcome.Ok? <==> userId in s.users)
            && (outcome.Ok? && s.users[userId].verifiedAt != None ==> outcome.value == s)
            && (outcome.Ok? && s.users[userId].verifiedAt == None ==>
                  && WritesUser(s, outcome.value, userId, s.users[userId].(
                       verifiedAt := Some(now),
                       status := if s.users[userId].status == PendingVerification then Active
                                 else s.users[userId].status))
                  && outcome.value.sessions == s.sessions
                  && (forall k :: k in outcome.value.verifications <==>
                        k in s.verifications && s.verifications[k].userId != userId)
                  && (forall k :: k in outcome.value.verifications ==>
                        outcome.value.verifications[k] == s.verifications[k]))
  {
  }

  /** An administrator ends all sessions of a known user other than themselves. */
  lemma AdminRevocationStores(s: Store, actor: Id, userId: Id)
    ensures var outcome := AdminRevokeSessions(s, actor, userId);
            && (outcome.Ok? <==> actor != userId && userId in s.users)
            && (outcome.Ok? ==>
                  EndsSessions(s, outcome.value, userId, None) && WritesUser(s, outcome.value, userId, s.users[userId]))
  {
  }

  /** Signing out of one session reaches that session alone, of its owner if one is named, and only while active. */
  lemma SigningOutOfOne(s: Store, sessionId: Id, owner: Option<Id>)
    ensures RevokeSession(s, sessionId, owner) ==
            if sessionId in s.sessions && s.sessions[sessionId].status == SessionActive
               && owner in {None, Some(s.sessions[sessionId].userId)}
            then s.(sessions := s.sessions[sessionId := s.sessions[sessionId].(status := SessionRevoked)]) else s
  {
  }

  /** Signing out everywhere ends the user's sessions but the spared one, and changes nothing else. */
  lemma SigningOutEverywhere(s: Store, userId: Id, spared: Option<Id>)
    ensures EndsSessions(s, RevokeAll(s, userId, spared), userId, spared)
    ensures RevokeAll(s, userId, spared) == s.(sessions := RevokeAll(s, userId, spared).sessions)
  {
  }

  // ----- Assignments -----

  /** A known role is assigned to a known user, until a time yet to come if any; the user then has it until then. */
  lemma AssignmentSucceedsIff(s: Store, userId: Id, role: Id, until: Option<int>, now: int, later: int)
    ensures var outcome := AssignRole(s, userId, role, until, now);
            && (outcome.Ok? <==>
                userId in s.users && role in s.roles && (until == None || now < until.value))
            && (outcome.Ok? ==>
                  && (HasRole(outcome.value, userId, role, later) <==> until == None || later < until.value)
                  && (forall a :: a in s.assignments && a != Assignment(userId, role) ==>
                        a in outcome.value.assignments && outcome.value.assignments[a] == s.assignments[a])
                  && (forall a :: a in outcome.value.assignments ==>
                        a in s.assignments || a == Assignment(userId, role))
                  && outcome.value == s.(assignments := outcome.value.assignments))
            && (outcome.Err? ==>
                  outcome.error == if until != None && until.value <= now then RoleExpiryInvalid
                                   else if userId !in s.users then UserNotFound else RoleNotFound)
  {
  }

  /** Nobody has the role, or one user alone. */
  ghost predicate AtMostOneHas(s: Store, role: Id, now: int) {
    forall u, v :: HasRole(s, u, role, now) && HasRole(s, v, role, now) ==> u == v
  }

  /**
    An assignment is removed exactly if it is there and its role is not a system role, or it is
    somebody else's and at least two have the role; then it alone is gone.
   */
  lemma RemovalSucceedsIff(s: Store, actor: Id, userId: Id, role: Id, now: int)
    ensures var outcome := RemoveRole(s, actor, userId, role, now);
            && (outcome.Ok? <==>
                && Assignment(userId, role) in s.assignments
                && (IsGuarded(s, role) ==> actor != userId && !AtMostOneHas(s, role, now)))
            && (outcome.Ok? ==>
                  && outcome.value.assignments.Keys == s.assignments.Keys - {Assignment(userId, role)}
                  && (forall a :: a in outcome.value.assignments ==> outcome.value.assignments[a] == s.assignments[a])
                  && outcome.value == s.(assignments := outcome.value.assignments))
            && (outcome.Err? ==>
                  outcome.error == if Assignment(userId, role) !in s.assignments then AssignmentNotFound
                                   else if actor == userId then SelfRemovalForbidden else LastRoleHolder)
  {
    AtMostOneIff(s, role, now);
    hide Assignees, AtMostOneHas;
  }

  lemma AtMostOneIff(s: Store, role: Id, now: int)
    ensures |Assignees(s, role, now)| <= 1 <==> AtMostOneHas(s, role, now)
  {
    hide Assignees, HasRole;
    forall u ensures u in Assignees(s, role, now) <==> HasRole(s, u, role, now) {
      AssigneesHaveRole(s, role, now, u);
    }
    var all := Assignees(s, role, now);
    if all != {} {
      var u :| u in all;
      OneElement(all, u);
      assert AtMostOneHas(s, role, now) ==> all == {u};
    }
  }

  /**
    Bootstrapping succeeds exactly for a user who is active or pending, with a verified address or
    leave to verify it, once the role is there; the user then is verified and has it without end.
   */
  lemma BootstrapSucceedsIff(steps: seq<Step>, userId: Id, verifyEmail: bool, now: int, later: int)
    ensures var s := After(steps);
            var outcome := Bootstrap(s, userId, verifyEmail, now);
            && (outcome.Ok? <==>
                && userId in s.users && s.users[userId].status in {Active, PendingVerification}
                && (s.users[userId].status == Active || verifyEmail) && "super_admin" in s.roles)
            && (outcome.Ok? ==>
                  && HasRole(outcome.value, userId, "super_admin", later)
                  && outcome.value.users == s.users[userId := s.users[userId].(
                       status := Active,
                       verifiedAt := if s.users[userId].verifiedAt == None then Some(now)
                                     else s.users[userId].verifiedAt)]
                  && (forall a :: a in s.assignments && a != Assignment(userId, "super_admin") ==>
                        a in outcome.value.assignments && outcome.value.assignments[a] == s.assignments[a])
                  && outcome.value.sessions == s.sessions && outcome.value.bumps == s.bumps)
            && (outcome.Err? ==>
                  outcome.error ==
                  if userId !in s.users then UserNotFound
                  else if s.users[userId].status == Deleted then DeletedUser
                  else if s.users[userId].status !in {Active, PendingVerification} then IneligibleUser
                  else if s.users[userId].verifiedAt == None && !verifyEmail then VerifiedEmailRequired
                      else RoleMissing)
  {
    ReachableIsValid(steps);
    if userId in After(steps).users {
      assert LifecycleOk(After(steps).users[userId]);
    }
    hide Run, Valid;
  }
}
