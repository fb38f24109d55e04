/**
  The authenticator factor, its recovery codes and rotation, and login challenges: what each
  committed transaction does, with a log of the codes issued and the logins confirmed.
 */
module Mfa {
  import opened Wrappers
  import opened Rows

  type Id = string

  const CHALLENGE_TTL := 300_000
  const MAX_ATTEMPTS := 5
  const ROTATION_TTL := 600_000
  const RECENT := 600_000

  /** Whether the account is active and not deleted, and its security version. */
  datatype Account = Account(active: bool, securityVersion: nat)

  datatype Session = Session(userId: Id, active: bool, expiresAt: int, mfaVerifiedAt: Option<int>)

  datatype Factor = Factor(secret: string, enabled: bool)

  datatype Rotation = Rotation(secret: string, expiresAt: int)

  datatype Challenge = Challenge(userId: Id, securityVersion: nat, expiresAt: int, consumed: bool, attempts: nat)

  /** Hashes of the recovery codes of one factor, and whether each is consumed. */
  type Codes = map<string, bool>

  /** Ten codes are issued at a time. */
  type RecoveryHashes = h: seq<string> | |h| == 10 witness seq(10, _ => "")

  /** What was committed: codes issued to a user, a login confirmed with the authenticator or with a recovery code. */
  datatype Event = CodesIssued(userId: Id) | LoginConfirmed(challenge: string, userId: Id, recoveryCode: Option<string>)

  /** A user has at most one factor, and one rotation of it; challenges are found by their token. */
  datatype Store = Store(
    accounts: map<Id, Account>,
    sessions: map<Id, Session>,
    factors: map<Id, Factor>,
    codes: map<Id, Codes>,
    rotations: map<Id, Rotation>,
    challenges: map<string, Challenge>,
    log: seq<Event>)

  datatype MfaError =
    | AccountNotActive | AlreadyEnabled | NotEnrolled | InvalidCode | SessionInvalid
    | RecentVerificationRequired | RotationNotPending | RotationExpired | PersistenceFailure

  /** Whether the code someone typed verifies now against a given secret. */
  type Verifies = string -> bool

  predicate IsSixDigits(code: string) {
    |code| == 6 && forall i :: 0 <= i < 6 ==> '0' <= code[i] <= '9'
  }

  predicate IsEnabled(s: Store, userId: Id) {
    userId in s.factors && s.factors[userId].enabled
  }

  predicate IsActiveAccount(s: Store, userId: Id) {
    userId in s.accounts && s.accounts[userId].active
  }

  /** The session is the user's, good, and was verified by a second factor recently. */
  predicate Assured(s: Store, userId: Id, sessionId: Id, now: int) {
    sessionId in s.sessions &&
    var session := s.sessions[sessionId];
    session.userId == userId && session.active && session.expiresAt > now
    && session.mfaVerifiedAt.Some? && session.mfaVerifiedAt.value >= now - RECENT
  }

  function FreshCodes(hashes: seq<string>): Codes {
    map h | h in hashes :: false
  }

  lemma OneMoreCode(hashes: seq<string>, hash: string)
    ensures FreshCodes(hashes + [hash]) == FreshCodes(hashes)[hash := false]
  {
  }

  /** The current session becomes verified, the user's other sessions are revoked. */
  function Secured(sessions: map<Id, Session>, userId: Id, currentSessionId: Id, now: int): map<Id, Session> {
    map k | k in sessions ::
      if sessions[k].userId != userId || !sessions[k].active then sessions[k]
      else if k == currentSessionId then sessions[k].(mfaVerifiedAt := Some(now))
      else sessions[k].(active := false)
  }

  predicate OwnsActiveSession(s: Store, userId: Id, sessionId: Id) {
    sessionId in s.sessions && s.sessions[sessionId].userId == userId && s.sessions[sessionId].active
  }

  // ----- Enrolment -----

  function StartEnrollment(s: Store, userId: Id, secret: string): Result<Store, MfaError> {
    if !IsActiveAccount(s, userId) then Err(AccountNotActive)
    else if IsEnabled(s, userId) then Err(AlreadyEnabled)
    else Ok(s.(factors := s.factors[userId := Factor(secret, false)], codes := s.codes - {userId}))
  }

  /** Issuing ten codes: the old ones go, hashes are unique, and the sessions are secured. */
  function IssueCodes(
    s: Store, userId: Id, secret: string, hashes: RecoveryHashes, sessionId: Id, now: int): Result<Store, MfaError> {
    if !Distinct(hashes) then Err(PersistenceFailure)
    else if !OwnsActiveSession(s, userId, sessionId) then Err(SessionInvalid)
    else
      Ok(s.(factors := s.factors[userId := Factor(secret, true)],
            codes := s.codes[userId := FreshCodes(hashes)],
            sessions := Secured(s.sessions, userId, sessionId, now),
            log := s.log + [CodesIssued(userId)]))
  }

  function ConfirmEnrollment(
    s: Store, userId: Id, sessionId: Id, code: string, verifies: Verifies, hashes: RecoveryHashes,
      now: int): Result<Store, MfaError>
  {
    if !IsSixDigits(code) then Err(InvalidCode)
    else if userId !in s.factors then Err(NotEnrolled)
    else if s.factors[userId].enabled then Err(AlreadyEnabled)
    else if !verifies(s.factors[userId].secret) then Err(InvalidCode)
    else IssueCodes(s, userId, s.factors[userId].secret, hashes, sessionId, now)
  }

  // ----- Rotation -----

  function StartRotation(s: Store, userId: Id, sessionId: Id, secret: string, now: int): Result<Store, MfaError> {
    if !IsActiveAccount(s, userId) then Err(AccountNotActive)
    else if !IsEnabled(s, userId) then Err(NotEnrolled)
    else if !Assured(s, userId, sessionId, now) then Err(RecentVerificationRequired)
    else Ok(s.(rotations := s.rotations[userId := Rotation(secret, now + ROTATION_TTL)]))
  }

  function ConfirmRotation(
    s: Store, userId: Id, sessionId: Id, code: string, verifies: Verifies, hashes: RecoveryHashes,
      now: int): Result<Store, MfaError>
  {
    if !IsSixDigits(code) then Err(InvalidCode)
    else if !IsEnabled(s, userId) then Err(NotEnrolled)
    else if !Assured(s, userId, sessionId, now) then Err(RecentVerificationRequired)
    else if userId !in s.rotations then Err(RotationNotPending)
    else if s.rotations[userId].expiresAt <= now then Err(RotationExpired)
    else if !verifies(s.rotations[userId].secret) then Err(InvalidCode)
    else IssueCodes(s.(rotations := s.rotations - {userId}), userId, s.rotations[userId].secret, hashes, sessionId, now)
  }

  function CancelRotation(s: Store, userId: Id, sessionId: Id, now: int): Result<Store, MfaError> {
    if !IsEnabled(s, userId) then Err(NotEnrolled)
    else if !Assured(s, userId, sessionId, now) then Err(RecentVerificationRequired)
    else Ok(s.(rotations := s.rotations - {userId}))
  }

  // ----- Login challenges -----

  /** No challenge is created for a user without an enabled factor. */
  function BeginLogin(s: Store, userId: Id, securityVersion: nat, token: string, now: int): Result<Store, MfaError> {
    if !IsActiveAccount(s, userId) then Err(AccountNotActive)
    else if s.accounts[userId].securityVersion != securityVersion then Err(SessionInvalid)
    else if !IsEnabled(s, userId) then Ok(s)
    else if token in s.challenges then Err(PersistenceFailure)
    else Ok(s.(challenges := s.challenges[token := Challenge(userId, securityVersion, now + CHALLENGE_TTL, false, 0)]))
  }

  predicate CodeIsAvailable(s: Store, userId: Id, hash: string) {
    userId in s.codes && hash in s.codes[userId] && !s.codes[userId][hash]
  }

  function CodeConsumed(s: Store, userId: Id, hash: string): Store
    requires userId in s.codes && hash in s.codes[userId]
  {
    s.(codes := s.codes[userId := s.codes[userId][hash := true]])
  }

  function ChallengeConfirmed(s: Store, token: string, recoveryCode: Option<string>): Store
    requires token in s.challenges
  {
    s.(challenges := s.challenges[token := s.challenges[token].(consumed := true)],
       log := s.log + [LoginConfirmed(token, s.challenges[token].userId, recoveryCode)])
  }

  /** `hash` is the hash of the code seen as a recovery code. */
  function ConfirmLogin(
    s: Store, token: string, code: string, verifies: Verifies, hash: string, now: int): Result<Store, MfaError> {
    if token !in s.challenges || s.challenges[token].consumed || s.challenges[token].expiresAt <= now
       || s.challenges[token].attempts >= MAX_ATTEMPTS then Err(InvalidCode)
    else
      var c := s.challenges[token];
      if c.userId !in s.accounts then Err(InvalidCode)
      else if !s.accounts[c.userId].active then Err(AccountNotActive)
      else if s.accounts[c.userId].securityVersion != c.securityVersion then Err(InvalidCode)
      else if !IsEnabled(s, c.userId) then Err(InvalidCode)
      else if IsSixDigits(code) && verifies(s.factors[c.userId].secret) then Ok(ChallengeConfirmed(s, token, None))
      else if CodeIsAvailable(s, c.userId, hash)
          then Ok(ChallengeConfirmed(CodeConsumed(s, c.userId, hash), token, Some(hash)))
      else Err(InvalidCode)
  }

  // ----- Steps and runs -----

  datatype Step =
    | StartEnrollmentStep(userId: Id, secret: string)
    | ConfirmEnrollmentStep(userId: Id, sessionId: Id, code: string, verifies: Verifies, hashes: RecoveryHashes,
      now: int)
    | StartRotationStep(userId: Id, sessionId: Id, secret: string, now: int)
    | ConfirmRotationStep(userId: Id, sessionId: Id, code: string, verifies: Verifies, hashes: RecoveryHashes, now: int)
    | CancelRotationStep(userId: Id, sessionId: Id, now: int)
    | BeginLoginStep(userId: Id, securityVersion: nat, token: string, now: int)
    | ConfirmLoginStep(token: string, code: string, verifies: Verifies, hash: string, now: int)
    | SetAccountStep(userId: Id, account: Account)
    | SetSessionStep(sessionId: Id, session: Session)

  function Outcome(s: Store, step: Step): Result<Store, MfaError> {
    match step
    case StartEnrollmentStep(userId, secret) => StartEnrollment(s, userId, secret)
    case ConfirmEnrollmentStep(userId, sessionId, code, verifies, hashes, now) =>
        ConfirmEnrollment(s, userId, sessionId, code, verifies, hashes, now)
    case StartRotationStep(userId, sessionId, secret, now) => StartRotation(s, userId, sessionId, secret, now)
    case ConfirmRotationStep(userId, sessionId, code, verifies, hashes, now) =>
        ConfirmRotation(s, userId, sessionId, code, verifies, hashes, now)
    case CancelRotationStep(userId, sessionId, now) => CancelRotation(s, userId, sessionId, now)
    case BeginLoginStep(userId, version, token, now) => BeginLogin(s, userId, version, token, now)
    case ConfirmLoginStep(token, code, verifies, hash, now) => ConfirmLogin(s, token, code, verifies, hash, now)
    case SetAccountStep(userId, account) => Ok(s.(accounts := s.accounts[userId := account]))
    case SetSessionStep(sessionId, session) => Ok(s.(sessions := s.sessions[sessionId := session]))
  }

  /** A transaction commits or changes nothing. */
  function Next(s: Store, step: Step): Store {
    var outcome := Outcome(s, step);
    if outcome.Ok? then outcome.value else s
  }

  function Run(s: Store, steps: seq<Step>): Store
    decreases |steps|
  {
    if steps == [] then s else Run(Next(s, steps[0]), steps[1..])
  }

  function Initial(): Store {
    Store(map[], map[], map[], map[], map[], map[], [])
  }

  // ----- Reading the log -----

  /** The recovery codes a user logged in with since codes were last issued. */
  function CodesUsed(log: seq<Event>, userId: Id): seq<string> {
    if log == [] then []
    else
      var before := CodesUsed(log[..|log| - 1], userId);
      match log[|log| - 1]
      case CodesIssued(u) => if u == userId then [] else before
      case LoginConfirmed(_, u, code) => if u == userId && code.Some? then before + [code.value] else before
  }

  /** The challenges confirmed, in order. */
  function Confirmed(log: seq<Event>): seq<string> {
    if log == [] then []
    else
      var before := Confirmed(log[..|log| - 1]);
      match log[|log| - 1]
      case CodesIssued(_) => before
      case LoginConfirmed(token, _, _) => before + [token]
  }

  // ----- Invariants -----

  function Consumed(codes: Codes): set<string> {
    set h | h in codes && codes[h]
  }

  function Unused(codes: Codes): set<string> {
    set h | h in codes && !codes[h]
  }

  function Elements(xs: seq<string>): set<string> {
    set x | x in xs
  }

  /** An enabled factor has ten codes, consumed exactly by the recovery logins since they were issued. */
  ghost predicate CodesValid(s: Store, userId: Id) {
    IsEnabled(s, userId) ==>
      && userId in s.codes
      && |s.codes[userId]| == 10
      && Consumed(s.codes[userId]) == Elements(CodesUsed(s.log, userId))
      && Distinct(CodesUsed(s.log, userId))
  }

  /** A challenge is consumed exactly when it was confirmed, which happens once. */
  ghost predicate ChallengesValid(s: Store) {
    && Distinct(Confirmed(s.log))
    && (forall t :: t in Confirmed(s.log) <==> t in s.challenges && s.challenges[t].consumed)
    && (forall t :: t in s.challenges ==> s.challenges[t].attempts == 0)
  }

  ghost predicate Valid(s: Store) {
    ChallengesValid(s) && forall u: Id :: CodesValid(s, u)
  }

  lemma LogAfterIssue(log: seq<Event>, issued: Id, userId: Id)
    ensures CodesUsed(log + [CodesIssued(issued)], userId) == if issued == userId then [] else CodesUsed(log, userId)
    ensures Confirmed(log + [CodesIssued(issued)]) == Confirmed(log)
  {
    assert (log + [CodesIssued(issued)])[..|log|] == log;
  }

  lemma LogAfterLogin(log: seq<Event>, token: string, owner: Id, code: Option<string>, userId: Id)
    ensures CodesUsed(log + [LoginConfirmed(token, owner, code)], userId)
         == if owner == userId && code.Some? then CodesUsed(log, userId) + [code.value] else CodesUsed(log, userId)
    ensures Confirmed(log + [LoginConfirmed(token, owner, code)]) == Confirmed(log) + [token]
  {
    assert (log + [LoginConfirmed(token, owner, code)])[..|log|] == log;
  }

  lemma {:induction false} DistinctCardinality(xs: seq<string>)
    requires Distinct(xs)
    ensures |Elements(xs)| == |xs|
  {
    if xs == [] {
      assert Elements(xs) == {};
    } else {
      var n := |xs| - 1;
      assert Distinct(xs[..n]);
      DistinctCardinality(xs[..n]);
      assert xs[n] !in xs[..n];
      assert Elements(xs) == Elements(xs[..n]) + {xs[n]};
    }
  }

  lemma FreshCodesCount(hashes: RecoveryHashes)
    requires Distinct(hashes)
    ensures |FreshCodes(hashes)| == 10 && Consumed(FreshCodes(hashes)) == {}
  {
    DistinctCardinality(hashes);
    assert FreshCodes(hashes).Keys == Elements(hashes);
  }

  lemma IssuingKeepsValid(s: Store, userId: Id, secret: string, hashes: RecoveryHashes, sessionId: Id, now: int)
    requires Valid(s) && IssueCodes(s, userId, secret, hashes, sessionId, now).Ok?
    ensures Valid(IssueCodes(s, userId, secret, hashes, sessionId, now).value)
  {
    hide CodesUsed, Confirmed, Secured, FreshCodes;
    var t := IssueCodes(s, userId, secret, hashes, sessionId, now).value;
    FreshCodesCount(hashes);
    LogAfterIssue(s.log, userId, userId);
    forall u: Id ensures CodesValid(t, u) {
      LogAfterIssue(s.log, userId, u);
      assert CodesValid(s, u);
    }
  }

  lemma LoginKeepsValid(s: Store, token: string, code: string, verifies: Verifies, hash: string, now: int)
    requires Valid(s) && ConfirmLogin(s, token, code, verifies, hash, now).Ok?
    ensures Valid(ConfirmLogin(s, token, code, verifies, hash, now).value)
  {
    hide CodesUsed, Confirmed;
    var t := ConfirmLogin(s, token, code, verifies, hash, now).value;
    var owner := s.challenges[token].userId;
    var used := if IsSixDigits(code) && verifies(s.factors[owner].secret) then None else Some(hash);
    LogAfterLogin(s.log, token, owner, used, owner);
    assert token !in Confirmed(s.log);
    assert CodesValid(s, owner);
    forall u: Id ensures CodesValid(t, u) {
      LogAfterLogin(s.log, token, owner, used, u);
      assert CodesValid(s, u);
      if u == owner && used.Some? {
        CodeJoinsConsumed(s.codes[u], CodesUsed(s.log, u), hash);
      }
    }
  }

  /** Consuming an unused code adds it to the codes consumed. */
  lemma CodeJoinsConsumed(codes: Codes, used: seq<string>, hash: string)
    requires hash in codes && !codes[hash] && Consumed(codes) == Elements(used) && Distinct(used)
    ensures Consumed(codes[hash := true]) == Elements(used + [hash]) && Distinct(used + [hash])
    ensures |codes[hash := true]| == |codes|
  {
    assert hash !in Consumed(codes);
    assert codes[hash := true].Keys == codes.Keys;
    assert Elements(used + [hash]) == Elements(used) + {hash};
    assert Consumed(codes[hash := true]) == Consumed(codes) + {hash};
  }

  lemma StepKeepsValid(s: Store, step: Step)
    requires Valid(s)
    ensures Valid(Next(s, step))
  {
    hide CodesUsed, Confirmed, IssueCodes, ConfirmLogin, Consumed, Elements;
    var t := Next(s, step);
    match step {
      case ConfirmEnrollmentStep(userId, sessionId, code, verifies, hashes, now) =>
        if Outcome(s, step).Ok? {
          IssuingKeepsValid(s, userId, s.factors[userId].secret, hashes, sessionId, now);
        }
      case ConfirmRotationStep(userId, sessionId, code, verifies, hashes, now) =>
        if Outcome(s, step).Ok? {
          var without := s.(rotations := s.rotations - {userId});
          OtherTablesKeepValid(s, without);
          IssuingKeepsValid(without, userId, s.rotations[userId].secret, hashes, sessionId, now);
        }
      case ConfirmLoginStep(token, code, verifies, hash, now) =>
        if Outcome(s, step).Ok? {
          LoginKeepsValid(s, token, code, verifies, hash, now);
        }
      case StartEnrollmentStep(userId, secret) =>
        forall u: Id ensures CodesValid(t, u) {
          assert CodesValid(s, u);
        }
      case BeginLoginStep(_, _, _, _) =>
        forall u: Id ensures CodesValid(t, u) {
          assert CodesValid(s, u);
        }
      case _ => OtherTablesKeepValid(s, t);
    }
  }

  lemma OtherTablesKeepValid(s: Store, t: Store)
    requires Valid(s) && t.factors == s.factors && t.codes == s.codes && t.challenges == s.challenges && t.log == s.log
    ensures Valid(t)
  {
    forall u: Id ensures CodesValid(t, u) {
      assert CodesValid(s, u);
    }
  }

  lemma {:induction false} RunKeepsValid(s: Store, steps: seq<Step>)
    requires Valid(s)
    ensures Valid(Run(s, steps))
    decreases |steps|
  {
    hide Next, Valid;
    if steps == [] {
    } else {
      StepKeepsValid(s, steps[0]);
      RunKeepsValid(Next(s, steps[0]), steps[1..]);
    }
  }

  lemma ReachableIsValid(steps: seq<Step>)
    ensures Valid(Run(Initial(), steps))
  {
    RunKeepsValid(Initial(), steps);
  }

  // ----- What holds after every run -----

  /** How often a login was confirmed with this code since codes were last issued. */
  function TimesUsed(log: seq<Event>, userId: Id, hash: string): nat {
    multiset(CodesUsed(log, userId))[hash]
  }

  /**
    A recovery code of an enabled factor is consumed exactly when one login was confirmed with it,
    and no code was used twice.
   */
  lemma CodeConsumedByOneLogin(steps: seq<Step>, userId: Id, hash: string)
    requires IsEnabled(Run(Initial(), steps), userId)
    ensures var s := Run(Initial(), steps);
            && userId in s.codes
            && (hash in s.codes[userId] && s.codes[userId][hash] <==> TimesUsed(s.log, userId, hash) == 1)
            && TimesUsed(s.log, userId, hash) <= 1
  {
    ReachableIsValid(steps);
    hide Run, CodesUsed;
    var s := Run(Initial(), steps);
    assert CodesValid(s, userId);
    TimesInDistinct(CodesUsed(s.log, userId), hash);
    assert hash in Consumed(s.codes[userId]) <==> hash in Elements(CodesUsed(s.log, userId));
  }

  lemma {:induction false} TimesInDistinct(xs: seq<string>, x: string)
    requires Distinct(xs)
    ensures multiset(xs)[x] == if x in xs then 1 else 0
  {
    if xs == [] {
    } else {
      var n := |xs| - 1;
      assert Distinct(xs[..n]);
      TimesInDistinct(xs[..n], x);
      assert xs == xs[..n] + [xs[n]] && xs[n] !in xs[..n];
    }
  }

  /** Unused codes are ten minus the recovery logins since codes were last issued. */
  lemma UnusedCodesCountDown(steps: seq<Step>, userId: Id)
    requires IsEnabled(Run(Initial(), steps), userId)
    ensures var s := Run(Initial(), steps);
            userId in s.codes && |Unused(s.codes[userId])| == 10 - |CodesUsed(s.log, userId)|
  {
    ReachableIsValid(steps);
    hide Run, CodesUsed;
    var s := Run(Initial(), steps);
    assert CodesValid(s, userId);
    var codes := s.codes[userId];
    DistinctCardinality(CodesUsed(s.log, userId));
    assert codes.Keys == Consumed(codes) + Unused(codes) && Consumed(codes) !! Unused(codes);
    assert |codes.Keys| == |Consumed(codes)| + |Unused(codes)|;
  }

  /** Every challenge is confirmed at most once, and is consumed exactly when it was. */
  lemma ChallengesAreConfirmedOnce(steps: seq<Step>, i: nat, j: nat)
    requires i < j < |Confirmed(Run(Initial(), steps).log)|
    ensures var s := Run(Initial(), steps);
            && Confirmed(s.log)[i] != Confirmed(s.log)[j]
            && Confirmed(s.log)[i] in s.challenges && s.challenges[Confirmed(s.log)[i]].consumed
  {
    ReachableIsValid(steps);
    hide Run, CodesUsed, Confirmed;
  }

  /** A failed attempt is counted in the transaction its error rolls back, so no count is ever seen. */
  lemma AttemptsAreRolledBack(steps: seq<Step>, token: string)
    requires token in Run(Initial(), steps).challenges
    ensures Run(Initial(), steps).challenges[token].attempts == 0
  {
    ReachableIsValid(steps);
    hide Run, CodesUsed, Confirmed;
  }

  /** A confirmed challenge is refused for ever after. */
  lemma ConfirmedChallengeIsRefused(
    steps: seq<Step>, more: seq<Step>, token: string, code: string, verifies: Verifies, hash: string, now: int)
    requires token in Confirmed(Run(Initial(), steps).log)
    ensures ConfirmLogin(Run(Run(Initial(), steps), more), token, code, verifies, hash, now) == Err(InvalidCode)
  {
    ReachableIsValid(steps);
    RunKeepsConsumed(Run(Initial(), steps), more, token);
    hide Run, Confirmed, CodesUsed;
  }

  lemma {:induction false} RunKeepsConsumed(s: Store, steps: seq<Step>, token: string)
    requires token in s.challenges && s.challenges[token].consumed
    ensures token in Run(s, steps).challenges && Run(s, steps).challenges[token].consumed
    decreases |steps|
  {
    if steps == [] {
    } else {
      StepKeepsConsumed(s, steps[0], token);
      hide Next;
      RunKeepsConsumed(Next(s, steps[0]), steps[1..], token);
    }
  }

  lemma StepKeepsConsumed(s: Store, step: Step, token: string)
    requires token in s.challenges && s.challenges[token].consumed
    ensures token in Next(s, step).challenges && Next(s, step).challenges[token].consumed
  {
    hide Secured, FreshCodes, Assured;
  }

  /** Starting or cancelling a rotation changes neither any secret nor any code. */
  lemma PendingRotationChangesNothing(s: Store, step: Step)
    requires step.StartRotationStep? || step.CancelRotationStep?
    ensures Next(s, step).factors == s.factors && Next(s, step).codes == s.codes && Next(s, step).log == s.log
    ensures Next(s, step).sessions == s.sessions && Next(s, step).challenges == s.challenges
  {
    hide Assured;
  }

  /**
    An enabled secret changes only when a rotation of that user is confirmed: to the candidate
    whose code verified, together with ten new codes.
   */
  lemma SecretChangesOnlyByRotation(s: Store, step: Step, userId: Id)
    requires IsEnabled(s, userId)
    ensures IsEnabled(Next(s, step), userId)
    ensures Next(s, step).factors[userId] != s.factors[userId] ==>
              && step.ConfirmRotationStep? && step.userId == userId
              && userId in s.rotations && IsSixDigits(step.code) && step.verifies(s.rotations[userId].secret)
              && Next(s, step).factors[userId].secret == s.rotations[userId].secret
              && Next(s, step).codes[userId] == FreshCodes(step.hashes)
              && userId !in Next(s, step).rotations
  {
    hide Secured, FreshCodes;
  }

  /**
    Enrolment and rotation leave the user one active session: the current one, verified now; other
    users' sessions stay.
   */
  lemma IssuingSecuresSessions(s: Store, step: Step)
    requires (step.ConfirmEnrollmentStep? || step.ConfirmRotationStep?) && Outcome(s, step).Ok?
    ensures var t := Next(s, step);
            && t.sessions.Keys == s.sessions.Keys
            && step.sessionId in t.sessions && t.sessions[step.sessionId].mfaVerifiedAt == Some(step.now)
              && t.sessions[step.sessionId].active
            && (forall k :: k in t.sessions && t.sessions[k].userId == step.userId && t.sessions[k].active ==>
              k == step.sessionId)
            && (forall k :: k in s.sessions && s.sessions[k].userId != step.userId ==> t.sessions[k] == s.sessions[k])
  {
    hide FreshCodes, Assured;
  }

  /** Whatever begins, confirms or cancels a rotation was done from a session verified within the last ten minutes. */
  lemma RotationNeedsAssurance(s: Store, step: Step)
    requires step.StartRotationStep? || step.ConfirmRotationStep? || step.CancelRotationStep?
    requires Next(s, step) != s
    ensures && step.sessionId in s.sessions && s.sessions[step.sessionId].userId == step.userId
            && s.sessions[step.sessionId].active
            && s.sessions[step.sessionId].mfaVerifiedAt.Some?
            && step.now - s.sessions[step.sessionId].mfaVerifiedAt.value <= 600_000
  {
    hide Secured, FreshCodes;
  }

  /**
    A login is confirmed only for the security version its challenge was begun with, by the enabled
    authenticator or by a code unused until then.
   */
  lemma ConfirmedLoginWasEntitled(steps: seq<Step>, step: Step)
    requires step.ConfirmLoginStep? && Outcome(Run(Initial(), steps), step).Ok?
    ensures var s := Run(Initial(), steps);
            var c := s.challenges[step.token];
            var t := Next(s, step);
            && step.token !in Confirmed(s.log) && step.now < c.expiresAt
            && c.userId in s.accounts && s.accounts[c.userId] == Account(true, c.securityVersion)
            && IsEnabled(s, c.userId) && c.userId in s.codes && c.userId in t.codes
            && (if IsSixDigits(step.code) && step.verifies(s.factors[c.userId].secret) then t.codes == s.codes
                else
                  step.hash in Unused(s.codes[c.userId])
                  && Unused(t.codes[c.userId]) == Unused(s.codes[c.userId]) - {step.hash})
            && (forall u :: u in s.codes && u != c.userId ==> u in t.codes && t.codes[u] == s.codes[u])
  {
    ReachableIsValid(steps);
    var s := Run(Initial(), steps);
    assert CodesValid(s, s.challenges[step.token].userId);
    hide Run, CodesUsed, Confirmed, Consumed, Elements;
  }

  /** The same secret and the same codes, of which those consumed stay consumed. */
  predicate FactorSurvives(s: Store, t: Store, userId: Id) {
    && IsEnabled(s, userId) && IsEnabled(t, userId) && t.factors[userId] == s.factors[userId]
    && userId in s.codes && userId in t.codes && t.codes[userId].Keys == s.codes[userId].Keys
    && forall h :: h in s.codes[userId] && s.codes[userId][h] ==> t.codes[userId][h]
  }

  lemma StepKeepsFactor(s: Store, step: Step, userId: Id)
    requires IsEnabled(s, userId) && userId in s.codes && !(step.ConfirmRotationStep? && step.userId == userId)
    ensures FactorSurvives(s, Next(s, step), userId)
  {
    hide Secured, FreshCodes, Assured;
  }

  /**
    Over every run without a confirmed rotation of the user, starts and cancellations included,
    secret and codes survive.
   */
  lemma {:induction false} FactorSurvivesRuns(s: Store, steps: seq<Step>, userId: Id)
    requires IsEnabled(s, userId) && userId in s.codes
    requires forall i :: 0 <= i < |steps| ==> !(steps[i].ConfirmRotationStep? && steps[i].userId == userId)
    ensures FactorSurvives(s, Run(s, steps), userId)
    decreases |steps|
  {
    if steps == [] {
    } else {
      StepKeepsFactor(s, steps[0], userId);
      hide Next;
      FactorSurvivesRuns(Next(s, steps[0]), steps[1..], userId);
    }
  }
}
