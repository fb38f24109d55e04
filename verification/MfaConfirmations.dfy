/**
  When logins, rotations and enrolments of the authenticator are confirmed, said on the stored rows,
  and what a confirmation then stores.
 */
module MfaConfirmations {
  import opened Wrappers
  import opened Rows
  import opened Mfa

  /** Six characters, each one of the ten digits. */
  predicate AreSixDigits(code: string) {
    |code| == 6 && forall c :: c in code ==> c in "0123456789"
  }

  lemma SixDigits(code: string)
    ensures AreSixDigits(code) <==> IsSixDigits(code)
  {
    assert forall i :: 0 <= i < |code| ==> code[i] in code;
    forall c | c in code ensures c in "0123456789" <==> '0' <= c <= '9' {
      DigitIff(c);
    }
  }

  lemma DigitIff(c: char)
    ensures c in "0123456789" <==> '0' <= c <= '9'
  {
    var i := c as int - '0' as int;
    assert '0' <= c <= '9' ==> "0123456789"[i] == c;
  }

  /** The code is the six digits the authenticator shows for the user's enabled secret. */
  predicate ShowsCode(s: Store, userId: Id, code: string, verifies: Verifies) {
    && userId in s.factors && verifies(s.factors[userId].secret)
    && AreSixDigits(code)
  }

  predicate HasUnusedCode(s: Store, userId: Id, hash: string) {
    userId in s.codes && hash in s.codes[userId] && s.codes[userId][hash] == false
  }

  /**
    The challenge was begun, not confirmed, and has time left; its user is active at its version
    with an enabled factor.
   */
  predicate CanLogIn(s: Store, token: string, now: int) {
    && token in s.challenges && token !in Confirmed(s.log) && now < s.challenges[token].expiresAt
    && var c := s.challenges[token];
    && c.userId in s.accounts && s.accounts[c.userId].active && s.accounts[c.userId].securityVersion
      == c.securityVersion
    && c.userId in s.factors && s.factors[c.userId].enabled
  }

  /**
    In every reachable state a login is confirmed if and only if its challenge can still be used and
    the code is the authenticator's or an unused recovery code, whatever its letters; it is refused
    for the account only when the challenge is live and the account is not.
   */
  lemma LoginIsConfirmedIff(
    steps: seq<Step>, token: string, code: string, verifies: Verifies, hash: string, now: int)
    ensures var s := Run(Initial(), steps);
            var outcome := ConfirmLogin(s, token, code, verifies, hash, now);
            && (outcome.Ok? <==>
                && CanLogIn(s, token, now)
                && (ShowsCode(s, s.challenges[token].userId, code, verifies)
                    || HasUnusedCode(s, s.challenges[token].userId, hash)))
            && (outcome.Ok? ==>
              LogsIn(s, outcome.value, token, ShowsCode(s, s.challenges[token].userId, code, verifies), hash))
            && (outcome.Err? ==>
                  outcome.error ==
                  if token in s.challenges && token !in Confirmed(s.log) && now < s.challenges[token].expiresAt
                     && s.challenges[token].userId in s.accounts && !s.accounts[s.challenges[token].userId].active
                  then AccountNotActive else InvalidCode)
  {
    ReachableIsValid(steps);
    hide Run, Confirmed, CodesUsed, CodesValid;
    var s := Run(Initial(), steps);
    assert token in Confirmed(s.log) <==> token in s.challenges && s.challenges[token].consumed;
    SixDigits(code);
  }

  /**
    A confirmed login uses up its challenge and, without the authenticator, one recovery code;
    nothing else changes.
   */
  predicate LogsIn(s: Store, t: Store, token: string, byAuthenticator: bool, hash: string)
    requires token in s.challenges
  {
    var userId := s.challenges[token].userId;
    && t.accounts == s.accounts && t.sessions == s.sessions && t.factors == s.factors && t.rotations == s.rotations
    && t.challenges == s.challenges[token := s.challenges[token].(consumed := true)]
    && t.log == s.log + [LoginConfirmed(token, userId, if byAuthenticator then None else Some(hash))]
    && if byAuthenticator then t.codes == s.codes
       else userId in s.codes && t.codes == s.codes[userId := s.codes[userId][hash := true]]
  }

  /** Challenges keep their user, version and end. */
  predicate KeepsChallenges(s: Store, t: Store) {
    forall k :: k in s.challenges ==>
      && k in t.challenges && t.challenges[k].userId == s.challenges[k].userId
      && t.challenges[k].securityVersion == s.challenges[k].securityVersion
      && t.challenges[k].expiresAt == s.challenges[k].expiresAt
  }

  lemma StepKeepsChallenges(s: Store, step: Step)
    ensures KeepsChallenges(s, Next(s, step))
  {
    hide Secured, FreshCodes, Assured;
  }

  lemma {:induction false} RunKeepsChallenges(s: Store, steps: seq<Step>)
    ensures KeepsChallenges(s, Run(s, steps))
    decreases |steps|
  {
    hide Next;
    if steps == [] {
    } else {
      StepKeepsChallenges(s, steps[0]);
      RunKeepsChallenges(Next(s, steps[0]), steps[1..]);
    }
  }

  /**
    A challenge begins exactly for an active account at the version asked for, with an enabled
    factor, under a new token; it can be used for five minutes and no longer, whatever comes after.
   */
  lemma ChallengesLastFiveMinutes(
    s: Store, userId: Id, version: nat, token: string, now: int, more: seq<Step>, code: string, verifies: Verifies,
    hash: string, later: int)
    requires token !in s.challenges
    ensures var t := Run(Next(s, BeginLoginStep(userId, version, token, now)), more);
            var begun := token in Next(s, BeginLoginStep(userId, version, token, now)).challenges;
            && (begun <==>
                && userId in s.accounts && s.accounts[userId].active && s.accounts[userId].securityVersion == version
                && userId in s.factors && s.factors[userId].enabled)
            && (begun ==>
                  && token in t.challenges && t.challenges[token].userId == userId
                  && t.challenges[token].securityVersion == version && t.challenges[token].expiresAt == now + 300_000)
            && (begun && later >= now + 300_000 ==>
                  ConfirmLogin(t, token, code, verifies, hash, later) == Err(InvalidCode))
  {
    RunKeepsChallenges(Next(s, BeginLoginStep(userId, version, token, now)), more);
    hide Run;
  }

  /** The session was verified by a second factor within the last ten minutes and is the user's, active and not over. */
  predicate WasJustVerified(s: Store, userId: Id, sessionId: Id, now: int) {
    && sessionId in s.sessions && s.sessions[sessionId].userId == userId && s.sessions[sessionId].active
    && now < s.sessions[sessionId].expiresAt
    && s.sessions[sessionId].mfaVerifiedAt.Some? && now - s.sessions[sessionId].mfaVerifiedAt.value <= 600_000
  }

  /** Steps that touch the user's rotation or factor. */
  predicate ChangesFactor(step: Step, userId: Id) {
    || (step.StartEnrollmentStep? && step.userId == userId)
    || (step.ConfirmEnrollmentStep? && step.userId == userId)
    || (step.StartRotationStep? && step.userId == userId)
    || (step.ConfirmRotationStep? && step.userId == userId)
    || (step.CancelRotationStep? && step.userId == userId)
  }

  /** The user's factor and pending rotation are what they were. */
  predicate KeepsFactor(s: Store, t: Store, userId: Id) {
    && (userId in t.factors <==> userId in s.factors)
      && (userId in s.factors ==> t.factors[userId] == s.factors[userId])
    && (userId in t.rotations <==> userId in s.rotations)
    && (userId in s.rotations ==> t.rotations[userId] == s.rotations[userId])
  }

  lemma OtherStepKeepsFactor(s: Store, step: Step, userId: Id)
    requires !ChangesFactor(step, userId)
    ensures KeepsFactor(s, Next(s, step), userId)
  {
    hide Secured, FreshCodes, Assured;
  }

  lemma {:induction false} OthersKeepFactor(s: Store, steps: seq<Step>, userId: Id)
    requires forall i :: 0 <= i < |steps| ==> !ChangesFactor(steps[i], userId)
    ensures KeepsFactor(s, Run(s, steps), userId)
    decreases |steps|
  {
    hide Next;
    if steps == [] {
    } else {
      OtherStepKeepsFactor(s, steps[0], userId);
      OthersKeepFactor(Next(s, steps[0]), steps[1..], userId);
    }
  }

  /**
    A rotation begun at one time, with anything but other changes of the factor in between, is
    confirmed later if and only if fewer than ten minutes have passed, the session was just verified,
    the six digits verify the candidate, and the ten new codes differ; the candidate then is the secret.
   */
  lemma RotationConfirmsIff(
    s: Store, userId: Id, sessionId: Id, secret: string, now: int, more: seq<Step>,
    laterSession: Id, code: string, verifies: Verifies, hashes: RecoveryHashes, later: int)
    requires StartRotation(s, userId, sessionId, secret, now).Ok?
    requires forall i :: 0 <= i < |more| ==> !ChangesFactor(more[i], userId)
    ensures var t := Run(Next(s, StartRotationStep(userId, sessionId, secret, now)), more);
            var outcome := ConfirmRotation(t, userId, laterSession, code, verifies, hashes, later);
            && (outcome.Ok? <==>
                && later < now + 600_000 && WasJustVerified(t, userId, laterSession, later)
                && AreSixDigits(code) && verifies(secret) && Distinct(hashes))
            && (outcome.Ok? ==>
              IssuesFactor(t.(rotations := t.rotations - {userId}), outcome.value, userId, secret, hashes))
  {
    OthersKeepFactor(Next(s, StartRotationStep(userId, sessionId, secret, now)), more, userId);
    hide Run, Secured;
    SixDigits(code);
  }

  /** The secret is enabled with the ten codes, all unused; no other user's factor and codes change. */
  predicate IssuesFactor(s: Store, t: Store, userId: Id, secret: string, hashes: RecoveryHashes) {
    && t.factors == s.factors[userId := Factor(secret, true)]
    && userId in t.codes && t.codes[userId] == (map h | h in hashes :: false)
    && t.codes == s.codes[userId := t.codes[userId]]
    && t.accounts == s.accounts && t.rotations == s.rotations && t.challenges == s.challenges
    && t.log == s.log + [CodesIssued(userId)]
  }

  /** A rotation begins exactly for an active account with an enabled factor, from a session just verified. */
  lemma RotationStartsIff(s: Store, userId: Id, sessionId: Id, secret: string, now: int)
    ensures StartRotation(s, userId, sessionId, secret, now).Ok? <==>
            && userId in s.accounts && s.accounts[userId].active
            && userId in s.factors && s.factors[userId].enabled
            && WasJustVerified(s, userId, sessionId, now)
  {
  }

  /**
    An enrolment begun, with anything but other changes of the factor in between, is confirmed if
    and only if the six digits verify its secret, the session is the user's and active, and the ten codes differ.
   */
  lemma EnrollmentConfirmsIff(
    s: Store, userId: Id, secret: string, more: seq<Step>, sessionId: Id, code: string, verifies: Verifies,
    hashes: RecoveryHashes, now: int)
    requires forall i :: 0 <= i < |more| ==> !ChangesFactor(more[i], userId)
    ensures var begun := StartEnrollment(s, userId, secret);
            begun.Ok? <==>
            userId in s.accounts && s.accounts[userId].active && (userId in s.factors ==> !s.factors[userId].enabled)
    ensures StartEnrollment(s, userId, secret).Ok? ==>
              var t := Run(Next(s, StartEnrollmentStep(userId, secret)), more);
              var outcome := ConfirmEnrollment(t, userId, sessionId, code, verifies, hashes, now);
              && (outcome.Ok? <==>
                  && AreSixDigits(code) && verifies(secret) && Distinct(hashes)
                  && sessionId in t.sessions && t.sessions[sessionId].userId == userId && t.sessions[sessionId].active)
              && (outcome.Ok? ==> IssuesFactor(t, outcome.value, userId, secret, hashes))
  {
    OthersKeepFactor(Next(s, StartEnrollmentStep(userId, secret)), more, userId);
    hide Run, Secured;
    SixDigits(code);
  }

  /**
    An enrolment begins with the new secret, not yet enabled, and without codes; nobody else's
    factor or codes change.
   */
  lemma EnrollmentBegins(s: Store, userId: Id, secret: string)
    requires StartEnrollment(s, userId, secret).Ok?
    ensures var t := StartEnrollment(s, userId, secret).value;
            && t.factors == s.factors[userId := Factor(secret, false)] && userId !in t.codes
            && (forall u :: u != userId ==> (u in t.codes <==> u in s.codes))
            && (forall u :: u in s.codes && u != userId ==> t.codes[u] == s.codes[u])
            && t.accounts == s.accounts && t.sessions == s.sessions && t.rotations == s.rotations
            && t.challenges == s.challenges && t.log == s.log
  {
  }

  lemma {:induction false} NoRotationUnlessStarted(s: Store, steps: seq<Step>, userId: Id)
    requires userId !in s.rotations
    requires forall i :: 0 <= i < |steps| ==> !(steps[i].StartRotationStep? && steps[i].userId == userId)
    ensures userId !in Run(s, steps).rotations
    decreases |steps|
  {
    if steps != [] {
      NoRotationAfter(s, steps[0], userId);
      hide Next;
      NoRotationUnlessStarted(Next(s, steps[0]), steps[1..], userId);
    }
  }

  lemma NoRotationAfter(s: Store, step: Step, userId: Id)
    requires userId !in s.rotations && !(step.StartRotationStep? && step.userId == userId)
    ensures userId !in Next(s, step).rotations
  {
    hide Secured, FreshCodes, Assured;
  }

  /**
    A rotation is cancelled exactly for an enabled factor from a session just verified; then it is
    gone, all else is as before, and no code confirms it until the user starts another.
   */
  lemma CancelledRotationIsGone(
    s: Store, userId: Id, sessionId: Id, now: int, more: seq<Step>,
    laterSession: Id, code: string, verifies: Verifies, hashes: RecoveryHashes, later: int)
    requires forall i :: 0 <= i < |more| ==> !(more[i].StartRotationStep? && more[i].userId == userId)
    ensures var outcome := CancelRotation(s, userId, sessionId, now);
            && (outcome.Ok? <==>
                userId in s.factors && s.factors[userId].enabled && WasJustVerified(s, userId, sessionId, now))
            && (outcome.Ok? ==>
                  && outcome.value.rotations.Keys == s.rotations.Keys - {userId}
                  && (forall u :: u in outcome.value.rotations ==> outcome.value.rotations[u] == s.rotations[u])
                  && outcome.value == s.(rotations := outcome.value.rotations)
                  && ConfirmRotation(
                       Run(Next(s, CancelRotationStep(userId, sessionId, now)), more),
                       userId, laterSession, code, verifies, hashes, later).Err?)
  {
    hide Run;
    if CancelRotation(s, userId, sessionId, now).Ok? {
      NoRotationUnlessStarted(Next(s, CancelRotationStep(userId, sessionId, now)), more, userId);
    }
  }

  /** What a refused rotation answers: the first thing in the way. */
  lemma RotationRefusals(
    s: Store, userId: Id, sessionId: Id, secret: string, code: string, verifies: Verifies, hashes: RecoveryHashes,
    now: int)
    ensures var enabled := userId in s.factors && s.factors[userId].enabled;
            var started := StartRotation(s, userId, sessionId, secret, now);
            var confirmed := ConfirmRotation(s, userId, sessionId, code, verifies, hashes, now);
            var cancelled := CancelRotation(s, userId, sessionId, now);
            && (started.Err? ==>
                  started.error ==
                  if userId !in s.accounts || !s.accounts[userId].active then AccountNotActive
                  else if enabled then RecentVerificationRequired else NotEnrolled)
            && (cancelled.Err? ==> cancelled.error == if enabled then RecentVerificationRequired else NotEnrolled)
            && (confirmed.Err? && AreSixDigits(code) ==>
                  && (confirmed.error == NotEnrolled <==> !enabled)
                  && (confirmed.error == RecentVerificationRequired <==>
                      enabled && !WasJustVerified(s, userId, sessionId, now))
                  && (enabled && WasJustVerified(s, userId, sessionId, now) ==>
                        && (confirmed.error == RotationNotPending <==> userId !in s.rotations)
                        && (confirmed.error == RotationExpired <==>
                            userId in s.rotations && s.rotations[userId].expiresAt <= now)
                        && (confirmed.error == InvalidCode <==>
                            userId in s.rotations && now < s.rotations[userId].expiresAt
                            && !verifies(s.rotations[userId].secret))))
            && (!AreSixDigits(code) ==> confirmed == Err(InvalidCode))
  {
    SixDigits(code);
    hide IsSixDigits, AreSixDigits, Secured, FreshCodes;
  }

  /**
    Had a count of five failed attempts ever been stored, its challenge would be refused; any lower
    count makes no difference.
   */
  lemma FiveAttemptsWouldRefuse(
    s: Store, token: string, attempts: nat, code: string, verifies: Verifies, hash: string, now: int)
    requires token in s.challenges && s.challenges[token].attempts == 0
    ensures var counted := s.(challenges := s.challenges[token := s.challenges[token].(attempts := attempts)]);
            (ConfirmLogin(counted, token, code, verifies, hash, now).Ok? <==>
             attempts < 5 && ConfirmLogin(s, token, code, verifies, hash, now).Ok?)
  {
    hide IsSixDigits;
  }
}
