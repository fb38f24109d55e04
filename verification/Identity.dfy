/**
  Users, their sessions and tokens, and what each committed transaction does to them. Creating
  a session and changing a password take two transactions, between which anything may happen.
 */
module Identity {
  import opened Text
  import opened Wrappers

  type Id = string

  // ----- Rows -----

  datatype Status = PendingVerification | Active | Suspended | Banned | Disabled | Deleted

  /** A hash verifies exactly its own password; the salt tells apart hashes of one password. */
  datatype PasswordHash = PasswordHash(password: string, salt: string)

  datatype User = User(
    status: Status,
    deletedAt: Option<int>,
    suspendedUntil: Option<int>,
    securityVersion: nat,
    verifiedAt: Option<int>,
    passwordHash: PasswordHash)

  datatype SessionStatus = SessionActive | SessionRevoked | SessionExpired

  /** `readAt` is how many bumps had been committed when the version was read. */
  datatype Session = Session(
    userId: Id, securityVersion: nat, status: SessionStatus, createdAt: int, lastSeenAt: Option<int>, expiresAt: int,
      readAt: nat)

  /** A session between its two transactions: the user was read, the row not yet written. */
  datatype OpenSession = OpenSession(userId: Id, securityVersion: nat, readAt: nat)

  /** A password change between its two transactions. */
  datatype OpenChange = OpenChange(userId: Id, hash: PasswordHash, password: string)

  /** Who holds which role; a role is named by its unique key. */
  datatype Assignment = Assignment(userId: Id, roleId: Id)

  datatype Token = Token(userId: Id, expiresAt: int, consumedAt: Option<int>)

  /**
    The tables, the calls between transactions, and the log of users whose version was bumped. A role
    is mapped to whether it is a system role, an assignment to when it expires.
   */
  datatype Store = Store(
    users: map<Id, User>,
    sessions: map<Id, Session>,
    opening: map<nat, OpenSession>,
    changing: map<nat, OpenChange>,
    verifications: map<string, Token>,
    resets: map<string, Token>,
    roles: map<Id, bool>,
    assignments: map<Assignment, Option<int>>,
    bumps: seq<Id>)

  datatype IdentityError =
    | AccountNotActive | SessionInvalid | SessionWasRevoked | SessionHasExpired
    | InvalidToken | ExpiredToken | InvalidCredentials | WeakPassword | IdentityConflict | PersistenceFailure
    | SelfChangeForbidden | ReasonRequired | ExpiryRequired | ExpiryInvalid | UserNotFound
    | DeletedUser | DisabledUser | StatusUnchanged | TransitionInvalid | LastRoleHolder
    | IneligibleUser | VerifiedEmailRequired | RoleMissing
    | RoleNotFound | AssignmentNotFound | RoleExpiryInvalid | SelfRemovalForbidden

  // ----- Helpers -----

  function RevokeActive(sessions: map<Id, Session>, userId: Id, exclude: Option<Id>): map<Id, Session> {
    map k | k in sessions ::
      if sessions[k].userId == userId && sessions[k].status == SessionActive && exclude != Some(k)
      then sessions[k].(status := SessionRevoked) else sessions[k]
  }

  function ConsumeAll(tokens: map<string, Token>, userId: Id, now: int): map<string, Token> {
    map k | k in tokens ::
      if tokens[k].userId == userId && tokens[k].consumedAt.None? then tokens[k].(consumedAt := Some(now))
          else tokens[k]
  }

  function RemoveAll(tokens: map<string, Token>, userId: Id): map<string, Token> {
    map k | k in tokens && tokens[k].userId != userId :: tokens[k]
  }

  /** A write of a user row that increments its security version. */
  function Bumped(s: Store, userId: Id, user: User): Store {
    s.(users := s.users[userId := user.(securityVersion := user.securityVersion + 1)], bumps := s.bumps + [userId])
  }

  predicate IsActive(user: User) {
    user.status == Active && user.deletedAt.None?
  }

  datatype PasswordPolicy = PasswordPolicy(minLength: nat, maxLength: nat)

  /** Long and short enough, not only white space, and without a null character. */
  predicate Acceptable(password: string, policy: PasswordPolicy) {
    && policy.minLength <= Units(password) <= policy.maxLength
    && (exists i :: 0 <= i < |password| && !IsSpace(password[i]))
    && '\0' !in password
  }

  // ----- Roles -----

  const SUPER_ADMIN: Id := "super_admin"

  predicate IsSystemRole(s: Store, roleId: Id) {
    roleId in s.roles && s.roles[roleId]
  }

  predicate Unexpired(expiresAt: Option<int>, now: int) {
    expiresAt.None? || expiresAt.value > now
  }

  /** Everybody with an unexpired assignment of the role, whatever became of the user. */
  function Assignees(s: Store, roleId: Id, now: int): set<Id> {
    set a | a in s.assignments && a.roleId == roleId && Unexpired(s.assignments[a], now) :: a.userId
  }

  function ActiveHolders(s: Store, roleId: Id, now: int): set<Id> {
    set u | u in Assignees(s, roleId, now) && u in s.users && IsActive(s.users[u])
  }

  function UndeletedHolders(s: Store, roleId: Id, now: int): set<Id> {
    set u | u in Assignees(s, roleId, now) && u in s.users && s.users[u].deletedAt.None? && s.users[u].status != Deleted
  }

  function SystemRoles(s: Store, userId: Id, now: int): set<Id> {
    set a | a in s.assignments && a.userId == userId && Unexpired(s.assignments[a], now) && IsSystemRole(s, a.roleId)
      :: a.roleId
  }

  /** The check before a suspension or ban. */
  predicate IsLastActiveHolder(s: Store, userId: Id, now: int) {
    exists roleId :: roleId in SystemRoles(s, userId, now) && |ActiveHolders(s, roleId, now)| <= 1
  }

  /** The check before a deletion. */
  predicate IsLastUndeletedHolder(s: Store, userId: Id, now: int) {
    exists roleId :: roleId in SystemRoles(s, userId, now) && |UndeletedHolders(s, roleId, now)| <= 1
  }

  function SeedRbac(s: Store): Store {
    s.(roles := s.roles[SUPER_ADMIN := true])
  }

  /** Further roles come from outside. */
  function AddRole(s: Store, roleId: Id, isSystem: bool): Result<Store, IdentityError> {
    if roleId in s.roles then Err(PersistenceFailure) else Ok(s.(roles := s.roles[roleId := isSystem]))
  }

  function AssignRole(
    s: Store, userId: Id, roleId: Id, expiresAt: Option<int>, now: int): Result<Store, IdentityError> {
    if expiresAt.Some? && expiresAt.value <= now then Err(RoleExpiryInvalid)
    else if userId !in s.users then Err(UserNotFound)
    else if roleId !in s.roles then Err(RoleNotFound)
    else Ok(s.(assignments := s.assignments[Assignment(userId, roleId) := expiresAt]))
  }

  function RemoveRole(s: Store, actor: Id, userId: Id, roleId: Id, now: int): Result<Store, IdentityError> {
    if Assignment(userId, roleId) !in s.assignments then Err(AssignmentNotFound)
    else if actor == userId && IsSystemRole(s, roleId) then Err(SelfRemovalForbidden)
    else if IsSystemRole(s, roleId) && |Assignees(s, roleId, now)| <= 1 then Err(LastRoleHolder)
    else Ok(s.(assignments := s.assignments - {Assignment(userId, roleId)}))
  }

  // ----- Registration and verification -----

  function Register(
    s: Store, userId: Id, hash: PasswordHash, policy: PasswordPolicy, token: string, expiresAt: int):
    Result<Store, IdentityError> {
    if !Acceptable(hash.password, policy) then Err(WeakPassword)
    else if userId in s.users || token in s.verifications then Err(PersistenceFailure)
    else
      Ok(s.(users := s.users[userId := User(PendingVerification, None, None, 0, None, hash)],
            verifications := s.verifications[token := Token(userId, expiresAt, None)]))
  }

  function IssueVerification(
    s: Store, userId: Id, token: string, expiresAt: int, now: int): Result<Store, IdentityError> {
    if userId !in s.users then Err(InvalidToken)
    else if token in s.verifications then Err(PersistenceFailure)
    else Ok(s.(verifications := ConsumeAll(s.verifications, userId, now)[token := Token(userId, expiresAt, None)]))
  }

  function ConsumeVerification(s: Store, token: string, now: int): Result<Store, IdentityError> {
    if token !in s.verifications || s.verifications[token].consumedAt.Some? then Err(InvalidToken)
    else if s.verifications[token].expiresAt <= now then Err(ExpiredToken)
    else
      var userId := s.verifications[token].userId;
      if userId !in s.users || s.users[userId].verifiedAt.Some? then Err(InvalidToken)
      else
        var user := s.users[userId];
        var status := if user.status == PendingVerification then Active else user.status;
        Ok(s.(users := s.users[userId := user.(verifiedAt := Some(now), status := status)],
              verifications := ConsumeAll(s.verifications, userId, now)))
  }

  // ----- Sessions -----

  function BeginSession(s: Store, call: nat, userId: Id, securityVersion: nat): Result<Store, IdentityError> {
    if userId !in s.users || !IsActive(s.users[userId]) then Err(AccountNotActive)
    else if s.users[userId].securityVersion != securityVersion then Err(SessionInvalid)
    else if call in s.opening then Err(PersistenceFailure)
    else Ok(s.(opening := s.opening[call := OpenSession(userId, s.users[userId].securityVersion, |s.bumps|)]))
  }

  function FinishSession(s: Store, call: nat, sessionId: Id, now: int, ttlSeconds: int): Result<Store, IdentityError> {
    if call !in s.opening || sessionId in s.sessions then Err(PersistenceFailure)
    else
      var o := s.opening[call];
      Ok(s.(sessions := s.sessions[sessionId :=
              Session(o.userId, o.securityVersion, SessionActive, now, None, now + 1000 * ttlSeconds, o.readAt)],
            opening := s.opening - {call}))
  }

  function IdleSince(session: Session): int {
    if session.lastSeenAt.Some? then session.lastSeenAt.value else session.createdAt
  }

  /** Who the session belongs to, if it is still good. */
  function ValidateSession(s: Store, sessionId: Id, now: int, idleSeconds: int): Result<Id, IdentityError> {
    if sessionId !in s.sessions || s.sessions[sessionId].userId !in s.users then Err(SessionInvalid)
    else
      var session := s.sessions[sessionId];
      var user := s.users[session.userId];
      if session.status == SessionRevoked then Err(SessionWasRevoked)
      else if session.status != SessionActive || session.expiresAt <= now then Err(SessionHasExpired)
      else if !IsActive(user) then Err(AccountNotActive)
      else if session.securityVersion != user.securityVersion then Err(SessionInvalid)
      else if IdleSince(session) + 1000 * idleSeconds <= now then Err(SessionHasExpired)
      else Ok(session.userId)
  }

  function RevokeSession(s: Store, sessionId: Id, owner: Option<Id>): Store {
    if sessionId in s.sessions && s.sessions[sessionId].status == SessionActive
       && (owner.Some? ==> s.sessions[sessionId].userId == owner.value) then
      s.(sessions := s.sessions[sessionId := s.sessions[sessionId].(status := SessionRevoked)])
    else s
  }

  function RevokeAll(s: Store, userId: Id, exclude: Option<Id>): Store {
    s.(sessions := RevokeActive(s.sessions, userId, exclude))
  }

  function Touch(s: Store, sessionId: Id, now: int): Store {
    if sessionId in s.sessions && s.sessions[sessionId].status == SessionActive then
      s.(sessions := s.sessions[sessionId := s.sessions[sessionId].(lastSeenAt := Some(now))])
    else s
  }

  // ----- Passwords -----

  function BeginChange(
    s: Store, call: nat, userId: Id, current: string, next: string, policy: PasswordPolicy):
    Result<Store, IdentityError> {
    if !Acceptable(next, policy) then Err(WeakPassword)
    else if userId !in s.users || s.users[userId].passwordHash.password != current then Err(InvalidCredentials)
    else if s.users[userId].passwordHash.password == next then Err(WeakPassword)
    else if call in s.changing then Err(PersistenceFailure)
    else Ok(s.(changing := s.changing[call := OpenChange(userId, s.users[userId].passwordHash, next)]))
  }

  function FinishChange(s: Store, call: nat, salt: string, exclude: Option<Id>): Result<Store, IdentityError> {
    if call !in s.changing then Err(PersistenceFailure)
    else
      var c := s.changing[call];
      if c.userId !in s.users || s.users[c.userId].passwordHash != c.hash then Err(IdentityConflict)
      else
        var changed := Bumped(s, c.userId, s.users[c.userId].(passwordHash := PasswordHash(c.password, salt)));
        Ok(changed.(sessions := RevokeActive(s.sessions, c.userId, exclude), changing := s.changing - {call}))
  }

  function IssueReset(s: Store, userId: Id, token: string, expiresAt: int, now: int): Result<Store, IdentityError> {
    if userId !in s.users || token in s.resets then Err(PersistenceFailure)
    else Ok(s.(resets := ConsumeAll(s.resets, userId, now)[token := Token(userId, expiresAt, None)]))
  }

  function ConsumeReset(
    s: Store, token: string, hash: PasswordHash, policy: PasswordPolicy, now: int): Result<Store, IdentityError> {
    if !Acceptable(hash.password, policy) then Err(WeakPassword)
    else if token !in s.resets || s.resets[token].consumedAt.Some? then Err(InvalidToken)
    else if s.resets[token].expiresAt <= now then Err(ExpiredToken)
    else
      var userId := s.resets[token].userId;
      if userId !in s.users then Err(PersistenceFailure)
      else
        var reset := Bumped(s, userId, s.users[userId].(passwordHash := hash));
        Ok(reset.(resets := ConsumeAll(s.resets, userId, now), sessions := RevokeActive(s.sessions, userId, None)))
  }

  // ----- Administration -----

  function AllowedTransitions(status: Status): set<Status> {
    match status
    case Active => {Suspended, Banned}
    case Suspended => {Active, Banned}
    case Banned => {Active}
    case _ => {}
  }

  function TransitionError(user: User, next: Status): Option<IdentityError> {
    if user.deletedAt.Some? || user.status == Deleted then Some(DeletedUser)
    else if user.status == Disabled then Some(DisabledUser)
    else if user.status == next then Some(StatusUnchanged)
    else if next !in AllowedTransitions(user.status) then Some(TransitionInvalid)
    else None
  }

  /** What is checked before the transaction: no change of oneself, a reason for a restriction, an end in the future. */
  function StatusRequestError(
    actor: Id, userId: Id, next: ManagedStatus, reason: Option<string>, until: Option<int>,
      now: int): Option<IdentityError>
  {
    if actor == userId then Some(SelfChangeForbidden)
    else if next != Active && reason.None? then Some(ReasonRequired)
    else if next == Suspended && until.None? then Some(ExpiryRequired)
    else if next == Suspended && until.value <= now then Some(ExpiryInvalid)
    else None
  }

  function StatusChanged(
    s: Store, userId: Id, next: ManagedStatus, until: Option<int>, now: int): Result<Store, IdentityError> {
    if userId !in s.users then Err(UserNotFound)
    else if TransitionError(s.users[userId], next).Some? then Err(TransitionError(s.users[userId], next).value)
    else if next != Active && s.users[userId].status == Active && IsLastActiveHolder(s, userId, now)
        then Err(LastRoleHolder)
    else
      var changed :=
          Bumped(s, userId,
            s.users[userId].(status := next, suspendedUntil := if next == Suspended then until else None));
      Ok(if next != Active then changed.(sessions := RevokeActive(s.sessions, userId, None)) else changed)
  }

  function ChangeStatus(
    s: Store, actor: Id, userId: Id, next: ManagedStatus, reason: Option<string>, until: Option<int>, now: int):
    Result<Store, IdentityError> {
    var refused := StatusRequestError(actor, userId, next, reason, until, now);
    if refused.Some? then Err(refused.value) else StatusChanged(s, userId, next, until, now)
  }

  function AdminVerifyEmail(s: Store, userId: Id, now: int): Result<Store, IdentityError> {
    if userId !in s.users then Err(UserNotFound)
    else
      var user := s.users[userId];
      if user.verifiedAt.Some? then Ok(s)
      else
        var status := if user.status == PendingVerification then Active else user.status;
        Ok(Bumped(s, userId, user.(verifiedAt := Some(now), status := status))
           .(verifications := RemoveAll(s.verifications, userId)))
  }

  function DeleteUser(s: Store, actor: Id, userId: Id, now: int): Result<Store, IdentityError> {
    if actor == userId then Err(SelfChangeForbidden)
    else if userId !in s.users then Err(UserNotFound)
    else
      var user := s.users[userId];
      if user.deletedAt.Some? || user.status == Deleted then Ok(s)
      else if IsLastUndeletedHolder(s, userId, now) then Err(LastRoleHolder)
      else
        Ok(Bumped(s, userId, user.(status := Deleted, deletedAt := Some(now), suspendedUntil := None))
           .(sessions := RevokeActive(s.sessions, userId, None)))
  }

  function RestoreUser(s: Store, userId: Id): Result<Store, IdentityError> {
    if userId !in s.users then Err(UserNotFound)
    else
      var user := s.users[userId];
      if user.deletedAt.None? && user.status != Deleted then Ok(s)
      else
        var status := if user.verifiedAt.None? then PendingVerification else Active;
        Ok(Bumped(s, userId, user.(status := status, deletedAt := None, suspendedUntil := None)))
  }

  function AdminRevokeSessions(s: Store, actor: Id, userId: Id): Result<Store, IdentityError> {
    if actor == userId then Err(SelfChangeForbidden)
    else if userId !in s.users then Err(UserNotFound)
    else Ok(Bumped(s, userId, s.users[userId]).(sessions := RevokeActive(s.sessions, userId, None)))
  }

  function RecoverSuspension(s: Store, userId: Id, now: int): Store {
    if userId in s.users && s.users[userId].status == Suspended
       && s.users[userId].suspendedUntil.Some? && s.users[userId].suspendedUntil.value <= now then
      s.(users := s.users[userId := s.users[userId].(status := Active, suspendedUntil := None)])
    else s
  }

  function Bootstrap(s: Store, userId: Id, verifyEmail: bool, now: int): Result<Store, IdentityError> {
    if userId !in s.users then Err(UserNotFound)
    else
      var user := s.users[userId];
      if user.deletedAt.Some? || user.status == Deleted then Err(DeletedUser)
      else if user.status != Active && user.status != PendingVerification then Err(IneligibleUser)
      else if user.verifiedAt.None? && !verifyEmail then Err(VerifiedEmailRequired)
      else if SUPER_ADMIN !in s.roles then Err(RoleMissing)
      else
        var status := if user.status == PendingVerification then Active else user.status;
        var verified := if user.verifiedAt.Some? then user else user.(verifiedAt := Some(now), status := status);
        Ok(s.(users := s.users[userId := verified],
              assignments := s.assignments[Assignment(userId, SUPER_ADMIN) := None]))
  }

  // ----- Steps and runs -----

  datatype Step =
    | RegisterStep(userId: Id, hash: PasswordHash, policy: PasswordPolicy, token: string, expiresAt: int)
    | IssueVerificationStep(userId: Id, token: string, expiresAt: int, now: int)
    | ConsumeVerificationStep(token: string, now: int)
    | BeginSessionStep(call: nat, userId: Id, securityVersion: nat)
    | FinishSessionStep(call: nat, sessionId: Id, now: int, ttlSeconds: int)
    | RevokeSessionStep(sessionId: Id, owner: Option<Id>)
    | RevokeAllStep(userId: Id, exclude: Option<Id>)
    | TouchStep(sessionId: Id, now: int)
    | BeginChangeStep(call: nat, userId: Id, current: string, next: string, policy: PasswordPolicy)
    | FinishChangeStep(call: nat, salt: string, exclude: Option<Id>)
    | IssueResetStep(userId: Id, token: string, expiresAt: int, now: int)
    | ConsumeResetStep(token: string, hash: PasswordHash, policy: PasswordPolicy, now: int)
    | ChangeStatusStep(
        actor: Id, userId: Id, status: ManagedStatus, reason: Option<string>, until: Option<int>, now: int)
    | AdminVerifyEmailStep(userId: Id, now: int)
    | DeleteUserStep(actor: Id, userId: Id, now: int)
    | RestoreUserStep(userId: Id)
    | AdminRevokeSessionsStep(actor: Id, userId: Id)
    | RecoverSuspensionStep(userId: Id, now: int)
    | BootstrapStep(userId: Id, verifyEmail: bool, now: int)
    | SeedRbacStep
    | AddRoleStep(roleId: Id, isSystem: bool)
    | AssignRoleStep(userId: Id, roleId: Id, until: Option<int>, now: int)
    | RemoveRoleStep(actor: Id, userId: Id, roleId: Id, now: int)

  /** The statuses an administrator may ask for. */
  type ManagedStatus = s: Status | s in {Active, Suspended, Banned} witness Active

  function Outcome(s: Store, step: Step): Result<Store, IdentityError> {
    match step
    case RegisterStep(userId, hash, policy, token, expiresAt) => Register(s, userId, hash, policy, token, expiresAt)
    case IssueVerificationStep(userId, token, expiresAt, now) => IssueVerification(s, userId, token, expiresAt, now)
    case ConsumeVerificationStep(token, now) => ConsumeVerification(s, token, now)
    case BeginSessionStep(call, userId, version) => BeginSession(s, call, userId, version)
    case FinishSessionStep(call, sessionId, now, ttl) => FinishSession(s, call, sessionId, now, ttl)
    case RevokeSessionStep(sessionId, owner) => Ok(RevokeSession(s, sessionId, owner))
    case RevokeAllStep(userId, exclude) => Ok(RevokeAll(s, userId, exclude))
    case TouchStep(sessionId, now) => Ok(Touch(s, sessionId, now))
    case BeginChangeStep(call, userId, current, next, policy) => BeginChange(s, call, userId, current, next, policy)
    case FinishChangeStep(call, salt, exclude) => FinishChange(s, call, salt, exclude)
    case IssueResetStep(userId, token, expiresAt, now) => IssueReset(s, userId, token, expiresAt, now)
    case ConsumeResetStep(token, hash, policy, now) => ConsumeReset(s, token, hash, policy, now)
    case ChangeStatusStep(actor, userId, status, reason, until, now) =>
      ChangeStatus(s, actor, userId, status, reason, until, now)
    case AdminVerifyEmailStep(userId, now) => AdminVerifyEmail(s, userId, now)
    case DeleteUserStep(actor, userId, now) => DeleteUser(s, actor, userId, now)
    case RestoreUserStep(userId) => RestoreUser(s, userId)
    case AdminRevokeSessionsStep(actor, userId) => AdminRevokeSessions(s, actor, userId)
    case RecoverSuspensionStep(userId, now) => Ok(RecoverSuspension(s, userId, now))
    case BootstrapStep(userId, verifyEmail, now) => Bootstrap(s, userId, verifyEmail, now)
    case SeedRbacStep => Ok(SeedRbac(s))
    case AddRoleStep(roleId, isSystem) => AddRole(s, roleId, isSystem)
    case AssignRoleStep(userId, roleId, expiresAt, now) => AssignRole(s, userId, roleId, expiresAt, now)
    case RemoveRoleStep(actor, userId, roleId, now) => RemoveRole(s, actor, userId, roleId, now)
  }

  /** A transaction commits or changes nothing. */
  function Next(s: Store, step: Step): Store {
    var outcome := Outcome(s, step);
    if outcome.Ok? then outcome.value else s
  }

  function Run(s: Store, steps: seq<Step>): Store
    decreases |steps|
  {
    if steps == [] then s else Run(Next(s, steps[0]), steps[1..])
  }

  function Initial(): Store {
    Store(map[], map[], map[], map[], map[], map[], map[], map[], [])
  }

  // ----- Invariants -----

  function Count(bumps: seq<Id>, userId: Id): nat {
    if bumps == [] then 0
    else Count(bumps[..|bumps| - 1], userId) + if bumps[|bumps| - 1] == userId then 1 else 0
  }

  /** A version is the number of the user's bumps so far. */
  predicate VersionIs(bumps: seq<Id>, at: nat, userId: Id, version: nat) {
    at <= |bumps| && version == Count(bumps[..at], userId)
  }

  /** Deleted exactly when stamped so; never usable or restricted without a verified address. */
  predicate LifecycleOk(user: User) {
    && (user.deletedAt.Some? <==> user.status == Deleted)
    && (user.suspendedUntil.Some? <==> user.status == Suspended)
    && (user.status in {Active, Suspended, Banned} ==> user.verifiedAt.Some?)
    && (user.status == PendingVerification ==> user.verifiedAt.None?)
    && user.status != Disabled
  }

  predicate UsersValid(s: Store) {
    forall u :: u in s.users ==> LifecycleOk(s.users[u]) && VersionIs(s.bumps, |s.bumps|, u, s.users[u].securityVersion)
  }

  predicate SessionsValid(s: Store) {
    forall k :: k in s.sessions ==>
      && s.sessions[k].userId in s.users
      && VersionIs(s.bumps, s.sessions[k].readAt, s.sessions[k].userId, s.sessions[k].securityVersion)
  }

  predicate OpeningValid(s: Store) {
    forall c :: c in s.opening ==>
      && s.opening[c].userId in s.users
      && VersionIs(s.bumps, s.opening[c].readAt, s.opening[c].userId, s.opening[c].securityVersion)
  }

  /** Only registered users were ever bumped. */
  predicate BumpsKnown(s: Store) {
    forall i :: 0 <= i < |s.bumps| ==> s.bumps[i] in s.users
  }

  predicate Valid(s: Store) {
    UsersValid(s) && SessionsValid(s) && OpeningValid(s) && BumpsKnown(s)
  }

  lemma {:induction false} NeverBumped(bumps: seq<Id>, userId: Id)
    requires userId !in bumps
    ensures Count(bumps, userId) == 0
  {
    if bumps == [] {
    } else {
      assert bumps[|bumps| - 1] in bumps;
      assert forall u :: u in bumps[..|bumps| - 1] ==> u in bumps;
      NeverBumped(bumps[..|bumps| - 1], userId);
    }
  }

  lemma CountAfterBump(bumps: seq<Id>, bumped: Id, userId: Id)
    ensures Count(bumps + [bumped], userId) == Count(bumps, userId) + if bumped == userId then 1 else 0
  {
    assert (bumps + [bumped])[..|bumps|] == bumps;
  }

  /** A version once read stays what the log says of that moment. */
  lemma VersionStays(bumps: seq<Id>, bumped: Id, at: nat, userId: Id, version: nat)
    requires VersionIs(bumps, at, userId, version)
    ensures VersionIs(bumps + [bumped], at, userId, version)
  {
    assert (bumps + [bumped])[..at] == bumps[..at];
  }

  /** The sessions are those of before, at most with another status or last use. */
  predicate SessionsKept(before: map<Id, Session>, after: map<Id, Session>) {
    forall k :: k in after ==>
      && k in before
      && after[k].userId == before[k].userId
      && after[k].securityVersion == before[k].securityVersion
      && after[k].readAt == before[k].readAt
  }

  lemma RevokedAreKept(sessions: map<Id, Session>, userId: Id, exclude: Option<Id>)
    ensures SessionsKept(sessions, RevokeActive(sessions, userId, exclude)) && SessionsKept(sessions, sessions)
  {
  }

  /** An allowed change of status leads from one sound user to another. */
  lemma TransitionKeepsLifecycle(user: User, next: ManagedStatus, until: Option<int>)
    requires LifecycleOk(user) && TransitionError(user, next).None? && (next == Suspended ==> until.Some?)
    ensures LifecycleOk(user.(status := next, suspendedUntil := if next == Suspended then until else None))
  {
  }

  lemma BumpKeepsValid(s: Store, t: Store, userId: Id)
    requires Valid(s) && userId in s.users
    requires t.bumps == s.bumps + [userId] && t.users.Keys == s.users.Keys
    requires forall u :: u in s.users && u != userId ==> t.users[u] == s.users[u]
    requires LifecycleOk(t.users[userId]) && t.users[userId].securityVersion == s.users[userId].securityVersion + 1
    requires SessionsKept(s.sessions, t.sessions) && t.opening == s.opening
    ensures Valid(t)
  {
    hide LifecycleOk;
    forall u | u in t.users
        ensures LifecycleOk(t.users[u]) && VersionIs(t.bumps, |t.bumps|, u, t.users[u].securityVersion) {
      CountAfterBump(s.bumps, userId, u);
      assert t.bumps[..|t.bumps|] == t.bumps && s.bumps[..|s.bumps|] == s.bumps;
      assert VersionIs(s.bumps, |s.bumps|, u, s.users[u].securityVersion);
    }
    hide VersionIs;
    forall k | k in t.sessions
      ensures t.sessions[k].userId in t.users
           && VersionIs(t.bumps, t.sessions[k].readAt, t.sessions[k].userId, t.sessions[k].securityVersion)
    {
      VersionStays(s.bumps, userId, s.sessions[k].readAt, s.sessions[k].userId, s.sessions[k].securityVersion);
    }
    forall c | c in t.opening
      ensures t.opening[c].userId in t.users
           && VersionIs(t.bumps, t.opening[c].readAt, t.opening[c].userId, t.opening[c].securityVersion)
    {
      VersionStays(s.bumps, userId, s.opening[c].readAt, s.opening[c].userId, s.opening[c].securityVersion);
    }
  }

  lemma WriteKeepsValid(s: Store, t: Store)
    requires Valid(s) && t.bumps == s.bumps
    requires s.users.Keys <= t.users.Keys
    requires forall u :: u in t.users ==> LifecycleOk(t.users[u])
    requires forall u :: u in t.users ==> t.users[u].securityVersion == if u in s.users then s.users[u].securityVersion
             else 0
    requires SessionsKept(s.sessions, t.sessions) && t.opening == s.opening
    ensures Valid(t)
  {
    hide LifecycleOk;
    forall u | u in t.users ensures VersionIs(t.bumps, |t.bumps|, u, t.users[u].securityVersion) {
      assert t.bumps[..|t.bumps|] == t.bumps;
      if u !in s.users {
        NeverBumped(s.bumps, u);
      } else {
        assert VersionIs(s.bumps, |s.bumps|, u, s.users[u].securityVersion);
      }
    }
  }

  lemma SessionStepsKeepValid(s: Store, step: Step)
    requires Valid(s)
    requires step.BeginSessionStep? || step.FinishSessionStep? || step.RevokeSessionStep? || step.RevokeAllStep?
             || step.TouchStep?
    ensures Valid(Next(s, step))
  {
    hide LifecycleOk, Count;
    if step.BeginSessionStep? && step.userId in s.users {
      assert VersionIs(s.bumps, |s.bumps|, step.userId, s.users[step.userId].securityVersion);
    }
  }

  lemma OtherTablesKeepValid(s: Store, t: Store)
    requires Valid(s) && t.users == s.users && t.sessions == s.sessions && t.opening == s.opening && t.bumps == s.bumps
    ensures Valid(t)
  {
  }

  lemma FinishChangeKeepsValid(s: Store, call: nat, salt: string, exclude: Option<Id>)
    requires Valid(s) && FinishChange(s, call, salt, exclude).Ok?
    ensures Valid(FinishChange(s, call, salt, exclude).value)
  {
    ValidParts(s);
    hide VersionIs, Count, Valid, RevokeActive, ConsumeAll, SessionsKept;
    RevokedAreKept(s.sessions, s.changing[call].userId, exclude);
    BumpKeepsValid(s, FinishChange(s, call, salt, exclude).value, s.changing[call].userId);
  }

  lemma ConsumeResetKeepsValid(s: Store, token: string, hash: PasswordHash, policy: PasswordPolicy, now: int)
    requires Valid(s) && ConsumeReset(s, token, hash, policy, now).Ok?
    ensures Valid(ConsumeReset(s, token, hash, policy, now).value)
  {
    ValidParts(s);
    hide VersionIs, Count, Valid, RevokeActive, ConsumeAll, SessionsKept, Acceptable;
    RevokedAreKept(s.sessions, s.resets[token].userId, None);
    BumpKeepsValid(s, ConsumeReset(s, token, hash, policy, now).value, s.resets[token].userId);
  }

  lemma ValidParts(s: Store)
    requires Valid(s)
    ensures forall u :: u in s.users ==> LifecycleOk(s.users[u])
  {
  }

  lemma AddressStepsKeepValid(s: Store, step: Step)
    requires Valid(s)
    requires step.RegisterStep? || step.IssueVerificationStep? || step.ConsumeVerificationStep?
    ensures Valid(Next(s, step))
  {
    ValidParts(s);
    hide VersionIs, Count, Valid, ConsumeAll, SessionsKept, RevokeActive, Acceptable;
    RevokedAreKept(s.sessions, "", None);
    if Next(s, step) != s {
      WriteKeepsValid(s, Next(s, step));
    }
  }

  lemma ActivationsKeepValid(s: Store, step: Step)
    requires Valid(s) && (step.BootstrapStep? || step.RecoverSuspensionStep?)
    ensures Valid(Next(s, step))
  {
    ValidParts(s);
    hide VersionIs, Count, Valid, SessionsKept, RevokeActive;
    RevokedAreKept(s.sessions, "", None);
    if Next(s, step) != s {
      WriteKeepsValid(s, Next(s, step));
    }
  }

  lemma StatusChangeKeepsValid(
    s: Store, actor: Id, userId: Id, next: ManagedStatus, reason: Option<string>, until: Option<int>, now: int)
    requires Valid(s) && ChangeStatus(s, actor, userId, next, reason, until, now).Ok?
    ensures Valid(ChangeStatus(s, actor, userId, next, reason, until, now).value)
  {
    ValidParts(s);
    hide VersionIs, Count, Valid, LifecycleOk, TransitionError, RevokeActive, SessionsKept, IsLastActiveHolder;
    RevokedAreKept(s.sessions, userId, None);
    TransitionKeepsLifecycle(s.users[userId], next, until);
    BumpKeepsValid(s, ChangeStatus(s, actor, userId, next, reason, until, now).value, userId);
  }

  lemma DeletionKeepsValid(s: Store, step: Step)
    requires Valid(s) && (step.DeleteUserStep? || step.RestoreUserStep?)
    ensures Valid(Next(s, step))
  {
    ValidParts(s);
    hide VersionIs, Count, Valid, RevokeActive, RemoveAll, SessionsKept, IsLastUndeletedHolder;
    RevokedAreKept(s.sessions, step.userId, None);
    if Next(s, step) != s {
      BumpKeepsValid(s, Next(s, step), step.userId);
    }
  }

  lemma AccessKeepsValid(s: Store, step: Step)
    requires Valid(s) && (step.AdminVerifyEmailStep? || step.AdminRevokeSessionsStep?)
    ensures Valid(Next(s, step))
  {
    ValidParts(s);
    hide VersionIs, Count, Valid, RevokeActive, RemoveAll, SessionsKept;
    RevokedAreKept(s.sessions, step.userId, None);
    if Next(s, step) != s {
      BumpKeepsValid(s, Next(s, step), step.userId);
    }
  }

  /** Passwords, tokens and roles are not what validity is about. */
  lemma OtherStepsKeepValid(s: Store, step: Step)
    requires Valid(s)
    requires step.BeginChangeStep? || step.IssueResetStep? || step.SeedRbacStep? || step.AddRoleStep?
             || step.AssignRoleStep? || step.RemoveRoleStep?
    ensures Valid(Next(s, step))
  {
    hide Valid, Assignees, Acceptable, ConsumeAll;
    OtherTablesKeepValid(s, Next(s, step));
  }

  lemma StepKeepsValid(s: Store, step: Step)
    requires Valid(s)
    ensures Valid(Next(s, step))
  {
    hide Valid, FinishChange, ConsumeReset, ChangeStatus, DeleteUser, RestoreUser, AdminVerifyEmail,
         AdminRevokeSessions, Bootstrap, BeginChange, IssueReset, AssignRole, RemoveRole, Register, ConsumeVerification,
         IssueVerification, BeginSession, FinishSession;
    match step {
      case BeginSessionStep(_, _, _) => SessionStepsKeepValid(s, step);
      case FinishSessionStep(_, _, _, _) => SessionStepsKeepValid(s, step);
      case RevokeSessionStep(_, _) => SessionStepsKeepValid(s, step);
      case RevokeAllStep(_, _) => SessionStepsKeepValid(s, step);
      case TouchStep(_, _) => SessionStepsKeepValid(s, step);
      case BeginChangeStep(_, _, _, _, _) => OtherStepsKeepValid(s, step);
      case FinishChangeStep(call, salt, exclude) =>
        if FinishChange(s, call, salt, exclude).Ok? {
          FinishChangeKeepsValid(s, call, salt, exclude);
        }
      case IssueResetStep(_, _, _, _) => OtherStepsKeepValid(s, step);
      case ConsumeResetStep(token, hash, policy, now) =>
        if ConsumeReset(s, token, hash, policy, now).Ok? {
          ConsumeResetKeepsValid(s, token, hash, policy, now);
        }
      case RegisterStep(_, _, _, _, _) => AddressStepsKeepValid(s, step);
      case IssueVerificationStep(_, _, _, _) => AddressStepsKeepValid(s, step);
      case ConsumeVerificationStep(_, _) => AddressStepsKeepValid(s, step);
      case BootstrapStep(_, _, _) => ActivationsKeepValid(s, step);
      case RecoverSuspensionStep(_, _) => ActivationsKeepValid(s, step);
      case ChangeStatusStep(actor, userId, next, reason, until, now) =>
        if ChangeStatus(s, actor, userId, next, reason, until, now).Ok? {
          StatusChangeKeepsValid(s, actor, userId, next, reason, until, now);
        }
      case DeleteUserStep(_, _, _) => DeletionKeepsValid(s, step);
      case RestoreUserStep(_) => DeletionKeepsValid(s, step);
      case AdminVerifyEmailStep(_, _) => AccessKeepsValid(s, step);
      case AdminRevokeSessionsStep(_, _) => AccessKeepsValid(s, step);
      case SeedRbacStep => OtherStepsKeepValid(s, step);
      case AddRoleStep(_, _) => OtherStepsKeepValid(s, step);
      case AssignRoleStep(_, _, _, _) => OtherStepsKeepValid(s, step);
      case RemoveRoleStep(_, _, _, _) => OtherStepsKeepValid(s, step);
    }
  }
}
