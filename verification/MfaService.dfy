/** The MFA service as it runs: ordered row updates inside a transaction that is rolled back on any error. */
module MfaService {
  import opened Wrappers
  import opened Rows
  import opened Mfa

  class MfaTables {
    var accounts: map<Id, Account>
    var sessions: map<Id, Session>
    var factors: map<Id, Factor>
    var codes: map<Id, Codes>
    var rotations: map<Id, Rotation>
    var challenges: map<string, Challenge>
    var log: seq<Event>

    function State(): Store
      reads this
    {
      Store(accounts, sessions, factors, codes, rotations, challenges, log)
    }

    /** What a finished transaction did and answered. */
    ghost predicate Did(before: Store, step: Step, failure: Option<MfaError>)
      reads this
    {
      && State() == Next(before, step)
      && failure == if Outcome(before, step).Ok? then None else Some(Outcome(before, step).error)
    }

    constructor ()
      ensures State() == Initial()
    {
      accounts, sessions, factors, codes, rotations, challenges, log := map[], map[], map[], map[], map[], map[], [];
    }

    method Rollback(saved: Store)
      modifies this
      ensures State() == saved
    {
      accounts, sessions, factors, codes := saved.accounts, saved.sessions, saved.factors, saved.codes;
      rotations, challenges, log := saved.rotations, saved.challenges, saved.log;
    }

    // ----- Enrolment -----

    method StartTotpEnrollment(userId: Id, secret: string) returns (failure: Option<MfaError>)
      modifies this`factors, this`codes
      ensures Did(old(State()), StartEnrollmentStep(userId, secret), failure)
    {
      if userId !in accounts || !accounts[userId].active {
        return Some(AccountNotActive);
      }
      if userId in factors && factors[userId].enabled {
        return Some(AlreadyEnabled);
      }
      factors := factors[userId := Factor(secret, false)];
      codes := codes - {userId};
      failure := None;
    }

    /** Deletes the user's codes and creates the new ones; a repeated hash violates their uniqueness. */
    method ReplaceCodes(userId: Id, hashes: RecoveryHashes) returns (failure: Option<MfaError>)
      modifies this`codes
      ensures failure == if Distinct(hashes) then None else Some(PersistenceFailure)
      ensures failure.None? ==> codes == old(codes)[userId := FreshCodes(hashes)]
    {
      codes := codes[userId := map[]];
      var i := 0;
      while i < |hashes|
        invariant 0 <= i <= |hashes|
        invariant userId in codes && codes == old(codes)[userId := codes[userId]]
        invariant codes[userId] == FreshCodes(hashes[..i])
        invariant Distinct(hashes[..i])
      {
        if hashes[i] in codes[userId] {
          return Some(PersistenceFailure);
        }
        assert hashes[..i + 1] == hashes[..i] + [hashes[i]];
        OneMoreCode(hashes[..i], hashes[i]);
        codes := codes[userId := codes[userId][hashes[i] := false]];
        i := i + 1;
      }
      assert hashes[..i] == hashes;
      failure := None;
    }

    /** Marks the current session verified, which must be the user's and active, and revokes the others. */
    method SecureSessions(userId: Id, currentSessionId: Id, now: int) returns (failure: Option<MfaError>)
      modifies this`sessions
      ensures failure == if OwnsActiveSession(old(State()), userId, currentSessionId) then None
              else Some(SessionInvalid)
      ensures failure.None? ==> sessions == Secured(old(sessions), userId, currentSessionId, now)
    {
      if currentSessionId !in sessions || sessions[currentSessionId].userId != userId
          || !sessions[currentSessionId].active {
        return Some(SessionInvalid);
      }
      sessions := sessions[currentSessionId := sessions[currentSessionId].(mfaVerifiedAt := Some(now))];
      sessions := map k | k in sessions ::
        if sessions[k].userId == userId && k != currentSessionId && sessions[k].active
            then sessions[k].(active := false) else sessions[k];
      failure := None;
    }

    method EnableWithCodes(
      userId: Id, secret: string, hashes: RecoveryHashes, sessionId: Id, now: int) returns (failure: Option<MfaError>)
      modifies this
      ensures var outcome := IssueCodes(old(State()), userId, secret, hashes, sessionId, now);
              if outcome.Ok? then State() == outcome.value && failure.None? else failure == Some(outcome.error)
    {
      factors := factors[userId := Factor(secret, true)];
      failure := ReplaceCodes(userId, hashes);
      if failure.Some? {
        return;
      }
      failure := SecureSessions(userId, sessionId, now);
      if failure.None? {
        log := log + [CodesIssued(userId)];
      }
    }

    method ConfirmTotpEnrollment(
      userId: Id, sessionId: Id, code: string, verifies: Verifies, hashes: RecoveryHashes, now: int)
      returns (failure: Option<MfaError>)
      modifies this
      ensures Did(old(State()), ConfirmEnrollmentStep(userId, sessionId, code, verifies, hashes, now), failure)
    {
      hide IssueCodes;
      if !IsSixDigits(code) {
        return Some(InvalidCode);
      }
      var saved := State();
      if userId !in factors {
        return Some(NotEnrolled);
      }
      if factors[userId].enabled {
        return Some(AlreadyEnabled);
      }
      if !verifies(factors[userId].secret) {
        return Some(InvalidCode);
      }
      failure := EnableWithCodes(userId, factors[userId].secret, hashes, sessionId, now);
      if failure.Some? {
        Rollback(saved);
      }
    }

    // ----- Rotation -----

    method StartTotpRotation(userId: Id, sessionId: Id, secret: string, now: int) returns (failure: Option<MfaError>)
      modifies this`rotations
      ensures Did(old(State()), StartRotationStep(userId, sessionId, secret, now), failure)
    {
      if userId !in accounts || !accounts[userId].active {
        return Some(AccountNotActive);
      }
      if userId !in factors || !factors[userId].enabled {
        return Some(NotEnrolled);
      }
      if !Assured(State(), userId, sessionId, now) {
        return Some(RecentVerificationRequired);
      }
      rotations := rotations[userId := Rotation(secret, now + ROTATION_TTL)];
      failure := None;
    }

    method ConfirmTotpRotation(
      userId: Id, sessionId: Id, code: string, verifies: Verifies, hashes: RecoveryHashes, now: int)
      returns (failure: Option<MfaError>)
      modifies this
      ensures Did(old(State()), ConfirmRotationStep(userId, sessionId, code, verifies, hashes, now), failure)
    {
      hide IssueCodes, Assured;
      if !IsSixDigits(code) {
        return Some(InvalidCode);
      }
      var saved := State();
      if userId !in factors || !factors[userId].enabled {
        return Some(NotEnrolled);
      }
      if !Assured(State(), userId, sessionId, now) {
        return Some(RecentVerificationRequired);
      }
      if userId !in rotations {
        return Some(RotationNotPending);
      }
      var pending := rotations[userId];
      if pending.expiresAt <= now {
        return Some(RotationExpired);
      }
      if !verifies(pending.secret) {
        return Some(InvalidCode);
      }
      rotations := rotations - {userId};
      failure := EnableWithCodes(userId, pending.secret, hashes, sessionId, now);
      if failure.Some? {
        Rollback(saved);
      }
    }

    method CancelTotpRotation(userId: Id, sessionId: Id, now: int) returns (failure: Option<MfaError>)
      modifies this`rotations
      ensures Did(old(State()), CancelRotationStep(userId, sessionId, now), failure)
    {
      if userId !in factors || !factors[userId].enabled {
        return Some(NotEnrolled);
      }
      if !Assured(State(), userId, sessionId, now) {
        return Some(RecentVerificationRequired);
      }
      rotations := rotations - {userId};
      failure := None;
    }

    // ----- Login challenges -----

    method BeginLoginChallenge(
      userId: Id, securityVersion: nat, token: string, now: int) returns (required: bool, failure: Option<MfaError>)
      modifies this`challenges
      ensures Did(old(State()), BeginLoginStep(userId, securityVersion, token, now), failure)
      ensures failure.None? ==> (required <==> IsEnabled(old(State()), userId))
    {
      required := false;
      if userId !in accounts || !accounts[userId].active {
        return required, Some(AccountNotActive);
      }
      if accounts[userId].securityVersion != securityVersion {
        return required, Some(SessionInvalid);
      }
      if userId !in factors || !factors[userId].enabled {
        return required, None;
      }
      if token in challenges {
        return required, Some(PersistenceFailure);
      }
      challenges := challenges[token := Challenge(userId, securityVersion, now + CHALLENGE_TTL, false, 0)];
      required, failure := true, None;
    }

    /** Consumes an unused code of an enabled factor. */
    method ConsumeRecoveryCode(userId: Id, hash: string) returns (consumed: bool)
      modifies this`codes
      ensures consumed <==> IsEnabled(old(State()), userId) && CodeIsAvailable(old(State()), userId, hash)
      ensures State() == if consumed then CodeConsumed(old(State()), userId, hash) else old(State())
    {
      consumed := userId in factors && factors[userId].enabled && userId in codes && hash in codes[userId]
        && !codes[userId][hash];
      if consumed {
        codes := codes[userId := codes[userId][hash := true]];
      }
    }

    /** The failed attempt is counted, and the count rolled back with everything else. */
    method ConfirmLoginChallenge(
      token: string, code: string, verifies: Verifies, hash: string, now: int) returns (failure: Option<MfaError>)
      modifies this
      ensures Did(old(State()), ConfirmLoginStep(token, code, verifies, hash, now), failure)
    {
      var saved := State();
      if token !in challenges || challenges[token].consumed || challenges[token].expiresAt <= now
         || challenges[token].attempts >= MAX_ATTEMPTS {
        return Some(InvalidCode);
      }
      var userId := challenges[token].userId;
      if userId !in accounts {
        return Some(InvalidCode);
      }
      if !accounts[userId].active {
        return Some(AccountNotActive);
      }
      if accounts[userId].securityVersion != challenges[token].securityVersion {
        return Some(InvalidCode);
      }
      if userId !in factors || !factors[userId].enabled {
        return Some(InvalidCode);
      }
      var totpValid := IsSixDigits(code) && verifies(factors[userId].secret);
      var recoveryValid := false;
      if !totpValid {
        recoveryValid := ConsumeRecoveryCode(userId, hash);
      }
      if !totpValid && !recoveryValid {
        challenges := challenges[token := challenges[token].(attempts := challenges[token].attempts + 1)];
        Rollback(saved);
        return Some(InvalidCode);
      }
      challenges := challenges[token := challenges[token].(consumed := true)];
      log := log + [LoginConfirmed(token, userId, if totpValid then None else Some(hash))];
      failure := None;
    }
  }
}
