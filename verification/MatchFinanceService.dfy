/**
  The services and ledger adapters as they run: tables updated in place statement by statement
  inside a transaction that is rolled back when an error is thrown. Each is proved to do to the
  tables exactly what its transaction function says.
 */
module MatchFinanceService {
  import opened Wrappers
  import opened Rows
  import opened Ledger
  import opened MatchEntryPolicies
  import opened MatchFinance

  /** What a finished transaction did: its rows and value, or an error. */
  ghost predicate Answers<T>(spec: Result<(Db, T), FinanceError>, r: Result<T, FinanceError>, after: Db) {
    match spec
    case Ok((db, value)) => r == Ok(value) && after == db
    case Err(error) => r == Err(error)
  }

  predicate Listed(reasons: seq<Reason>, reason: Reason) {
    reason in reasons
  }

  /** Pushes a reason when its check fails. */
  function Push(reasons: seq<Reason>, failed: bool, reason: Reason): seq<Reason> {
    if failed then reasons + [reason] else reasons
  }

  lemma Pushed(reasons: seq<Reason>, failed: bool, reason: Reason, x: Reason)
    ensures Listed(Push(reasons, failed, reason), x) <==> Listed(reasons, x) || (failed && x == reason)
  {
  }

  lemma EmptyMeansNoneListed(reasons: seq<Reason>)
    ensures reasons == [] <==> forall x :: !Listed(reasons, x)
  {
    assert reasons != [] ==> Listed(reasons, reasons[0]);
  }

  /** The reasons every status is checked for. */
  function CommonReasons(c: Context): seq<Reason> {
    Push(Push(Push(Push([],
      c.settlementExists, AlreadySettled),
      |c.reservations| != 2, ParticipantCountInvalid),
      SomeOtherAsset(c), AssetMismatch),
      c.activeDispute, ActiveDisputeExists)
  }

  predicate IsCommon(x: Reason) {
    x == AlreadySettled || x == ParticipantCountInvalid || x == AssetMismatch || x == ActiveDisputeExists
  }

  lemma CommonReasonsApply(c: Context, now: int, x: Reason)
    ensures Listed(CommonReasons(c), x) <==> IsCommon(x) && Applies(c, now, x)
  {
    hide Push, Listed, SomeOtherAsset;
    var r1 := Push([], c.settlementExists, AlreadySettled);
    var r2 := Push(r1, |c.reservations| != 2, ParticipantCountInvalid);
    var r3 := Push(r2, SomeOtherAsset(c), AssetMismatch);
    EmptyMeansNoneListed([]);
    Pushed([], c.settlementExists, AlreadySettled, x);
    Pushed(r1, |c.reservations| != 2, ParticipantCountInvalid, x);
    Pushed(r2, SomeOtherAsset(c), AssetMismatch, x);
    Pushed(r3, c.activeDispute, ActiveDisputeExists, x);
  }

  function AwaitingReason(c: Context): Reason {
    if SomeRefunded(c) then ReservationAlreadyRefunded else ReservationNotReleased
  }

  lemma VoidedReasonsApply(c: Context, now: int, reasons: seq<Reason>, x: Reason)
    requires c.matchStatus == Voided
    requires Listed(reasons, x) <==> IsCommon(x) && Applies(c, now, x)
    ensures Listed(Push(reasons, SomeNotAwaiting(c), AwaitingReason(c)), x)
       <==> x != EscrowBalanceMismatch && Applies(c, now, x)
  {
    hide Push, Listed, SomeOtherAsset, SomeNotAwaiting, SomeRefunded;
    Pushed(reasons, SomeNotAwaiting(c), AwaitingReason(c), x);
  }

  predicate ResultIsOpen(c: Context) {
    c.resultStatus != Some(Confirmed) && c.resultStatus != Some(AdminResolved)
  }

  predicate DelayIsRunning(c: Context, now: int) {
    EligibleAt(c).None? || EligibleAt(c).value > now
  }

  predicate WinnerIsMissing(c: Context) {
    !c.isDraw && !WinnerTakesPart(c)
  }

  /** The further reasons of a match that was not voided. */
  function PlayedReasons(c: Context, now: int, reasons: seq<Reason>): seq<Reason> {
    Push(Push(Push(Push(Push(reasons,
      c.matchStatus != Completed, MatchNotFinal),
      ResultIsOpen(c), ResultNotFinal),
      SomeNotAwaiting(c), AwaitingReason(c)),
      WinnerIsMissing(c), WinnerNotParticipant),
      DelayIsRunning(c, now), SettlementDelayNotElapsed)
  }

  lemma PlayedReasonsListed(c: Context, now: int, reasons: seq<Reason>, x: Reason)
    ensures Listed(PlayedReasons(c, now, reasons), x)
       <==> Listed(reasons, x)
            || (c.matchStatus != Completed && x == MatchNotFinal)
            || (ResultIsOpen(c) && x == ResultNotFinal)
            || (SomeNotAwaiting(c) && x == AwaitingReason(c))
            || (WinnerIsMissing(c) && x == WinnerNotParticipant)
            || (DelayIsRunning(c, now) && x == SettlementDelayNotElapsed)
  {
    hide Push, Listed, SomeNotAwaiting, AwaitingReason, WinnerIsMissing, DelayIsRunning, ResultIsOpen;
    var r1 := Push(reasons, c.matchStatus != Completed, MatchNotFinal);
    var r2 := Push(r1, ResultIsOpen(c), ResultNotFinal);
    var r3 := Push(r2, SomeNotAwaiting(c), AwaitingReason(c));
    var r4 := Push(r3, WinnerIsMissing(c), WinnerNotParticipant);
    Pushed(reasons, c.matchStatus != Completed, MatchNotFinal, x);
    Pushed(r1, ResultIsOpen(c), ResultNotFinal, x);
    Pushed(r2, SomeNotAwaiting(c), AwaitingReason(c), x);
    Pushed(r3, WinnerIsMissing(c), WinnerNotParticipant, x);
    Pushed(r4, DelayIsRunning(c, now), SettlementDelayNotElapsed, x);
  }

  lemma PlayedReasonsApply(c: Context, now: int, reasons: seq<Reason>, x: Reason)
    requires c.matchStatus != Voided
    requires Listed(reasons, x) <==> IsCommon(x) && Applies(c, now, x)
    ensures Listed(PlayedReasons(c, now, reasons), x) <==> x != EscrowBalanceMismatch && Applies(c, now, x)
  {
    hide Listed, PlayedReasons, SomeOtherAsset, SomeNotAwaiting, SomeRefunded, WinnerTakesPart, EligibleAt;
    PlayedReasonsListed(c, now, reasons, x);
  }

  /** The reasons against settling, collected check by check. */
  method EvaluateEligibility(
    c: Context, now: int) returns (eligible: bool, settlementType: Option<SettlementType>, reasons: seq<Reason>)
    ensures forall reason :: Listed(reasons, reason) <==> Applies(c, now, reason)
    ensures eligible <==> Eligible(c, now)
    ensures settlementType == if eligible then Some(TypeOf(c)) else None
  {
    hide Listed, Push, CommonReasons, PlayedReasons, AwaitingReason, Applies, ResultIsOpen, WinnerIsMissing,
        DelayIsRunning,
         SomeOtherAsset, SomeNotAwaiting, SomeRefunded, WinnerTakesPart, EligibleAt, Total;
    var candidate: SettlementType;
    reasons := CommonReasons(c);
    forall x { CommonReasonsApply(c, now, x); }
    ghost var common := reasons;
    if c.matchStatus == Voided {
      candidate := VoidRefund;
      reasons := Push(reasons, SomeNotAwaiting(c), AwaitingReason(c));
      forall x { VoidedReasonsApply(c, now, common, x); }
    } else {
      candidate := if c.isDraw then DrawRefund else WinnerTakesAll;
      reasons := PlayedReasons(c, now, reasons);
      forall x { PlayedReasonsApply(c, now, common, x); }
    }
    var mismatch := c.escrowBalance != Total(c.reservations, AmountOf());
    forall x ensures Listed(Push(reasons, mismatch, EscrowBalanceMismatch), x) <==> Applies(c, now, x) {
      Pushed(reasons, mismatch, EscrowBalanceMismatch, x);
      MismatchApplies(c, now);
    }
    reasons := Push(reasons, mismatch, EscrowBalanceMismatch);
    EmptyMeansNoneListed(reasons);
    eligible := reasons == [];
    settlementType := if eligible then Some(candidate) else None;
  }

  lemma MismatchApplies(c: Context, now: int)
    ensures Applies(c, now, EscrowBalanceMismatch) <==> c.escrowBalance != Total(c.reservations, AmountOf())
  {
  }

  class MatchFinanceTables {
    var matches: map<Id, Match>
    var wallets: map<Id, bool>
    var accounts: Accounts
    var journal: seq<Posting>
    var reservations: seq<Reservation>
    var settlements: seq<Settlement>

    function Tables(): Db
      reads this
    {
      Db(matches, wallets, accounts, journal, reservations, settlements)
    }

    /** Reservation identifiers are a primary key. */
    ghost predicate Valid()
      reads this
    {
      forall i, j :: 0 <= i < j < |reservations| ==> reservations[i].id != reservations[j].id
    }

    constructor (opening: map<Id, nat>)
      ensures Tables() == Initial(opening) && Valid()
    {
      var start := Initial(opening);
      matches, wallets, accounts := start.matches, start.wallets, start.accounts;
      journal, reservations, settlements := [], [], [];
    }

    method Rollback(saved: Db)
      modifies this
      ensures Tables() == saved
    {
      matches, wallets, accounts := saved.matches, saved.wallets, saved.accounts;
      journal, reservations, settlements := saved.journal, saved.reservations, saved.settlements;
    }

    method CreateTransaction(posting: Posting) returns (r: Result<nat, FinanceError>)
      modifies this`journal
      ensures Answers(Post(old(Tables()), posting), r, Tables())
    {
      if !Postable(journal, posting.key) {
        return Err(PersistenceFailure);
      }
      r := Ok(|journal|);
      journal := journal + [posting];
    }

    // ----- Wallet ledger adapter -----

    method LedgerReserve(
      matchId: Id, userId: Id, amount: int, key: string, fingerprint: Fingerprint)
      returns (r: Result<nat, FinanceError>)
      modifies this`wallets, this`accounts, this`journal
      ensures Answers(PostReservation(old(Tables()), matchId, userId, amount, key, fingerprint), r, Tables())
    {
      if userId !in wallets {
        wallets := wallets[userId := true];
      }
      if !wallets[userId] {
        return Err(ReservationStateInvalid);
      }
      var user, escrow := UserAvailable(userId), MatchEscrow(matchId);
      accounts := Opened(accounts, user);
      accounts := Opened(accounts, escrow);
      if !accounts[user].active || accounts[user].balance < amount {
        return Err(InsufficientBalance);
      }
      accounts := Increment(accounts, user, -amount);
      var userAfter := accounts[user].balance;
      accounts := Increment(accounts, escrow, amount);
      var escrowAfter := accounts[escrow].balance;
      r := CreateTransaction(
        Posting(MatchEntryReservation, LedgerKey(key), fingerprint, ForMatchEntry(matchId),
                [Entry(user, Debit, amount, userAfter, 1), Entry(escrow, Credit, amount, escrowAfter, 2)]));
    }

    method LedgerRefund(
      reservationId: Id, amount: int, key: string, fingerprint: Fingerprint) returns (r: Result<nat, FinanceError>)
      modifies this`accounts, this`journal
      ensures Answers(PostRefund(old(Tables()), reservationId, amount, key, fingerprint), r, Tables())
    {
      var row := FindFirst(reservations, WithId(reservationId));
      if row.None? || row.value.ledgerAccountId.None? || row.value.escrowAccountId.None?
          || row.value.status != Reserved {
        return Err(RefundNotAllowed);
      }
      var user, escrow := row.value.ledgerAccountId.value, row.value.escrowAccountId.value;
      if escrow !in accounts || accounts[escrow].balance < amount {
        return Err(EscrowInvariantViolation);
      }
      accounts := Increment(accounts, escrow, -amount);
      if user !in accounts {
        return Err(PersistenceFailure);
      }
      accounts := Increment(accounts, user, amount);
      r := CreateTransaction(
        Posting(MatchEntryRefund, key, fingerprint, ForRefund(reservationId),
                [Entry(escrow, Debit, amount, accounts[escrow].balance, 1),
                 Entry(user, Credit, amount, accounts[user].balance, 2)]));
    }

    // ----- Reservation service -----

    method InsertReservation(row: Reservation) returns (r: Result<Reservation, FinanceError>)
      requires Valid()
      modifies this
      ensures Answers(CreateReservation(old(Tables()), row), r, Tables())
      ensures Valid()
    {
      var existing := FindFirst(reservations, WithId(row.id));
      if existing.Some? || |row.key| > KEY_WIDTH {
        return Err(PersistenceFailure);
      }
      assert forall i :: 0 <= i < |reservations| ==> !WithId(row.id)(reservations[i]);
      reservations := reservations + [row];
      r := Ok(row);
    }

    method ReserveInTransaction(
      matchId: Id, userId: Id, key: string, now: int, newId: Id) returns (r: Result<Reservation, FinanceError>)
      requires Valid()
      modifies this
      ensures Answers(ReserveTx(old(Tables()), matchId, userId, key, now, newId), r, Tables())
      ensures r.Ok? ==> Valid()
    {
      var context := FindContext(Tables(), userId, matchId);
      if context.None? {
        return Err(ParticipantInvalid);
      }
      var game, p := context.value.game, context.value.participant;
      if game.status != Created && game.status != AwaitingReady {
        return Err(EntryMatchInvalid);
      }
      if game.readyDeadlineAt <= now {
        return Err(ReservationTimedOut);
      }
      var parsed := ParseRequirement(game.configuration);
      if parsed.Err? {
        return Err(EntryMatchInvalid);
      }
      var requirement := parsed.value;
      var fingerprint := ReservationFingerprint(ReserveOperation, matchId, p.id, p.userId, requirement.amount);
      var keyed := FindFirst(reservations, WithKey(key));
      if keyed.Some? {
        if keyed.value.fingerprint != fingerprint {
          return Err(ReservationKeyConflict);
        }
        return Ok(keyed.value);
      }
      var existing := FindFirst(reservations, OfParticipant(matchId, p.id));
      if existing.Some? {
        return Ok(existing.value);
      }
      var transactionId := None;
      if requirement.required {
        var posting := LedgerReserve(matchId, p.userId, requirement.amount, key, fingerprint);
        if posting.Err? {
          return Err(posting.error);
        }
        transactionId := Some(posting.value);
      }
      r := InsertReservation(NewReservation(matchId, p, requirement.amount, transactionId, key, fingerprint, now,
        newId));
    }

    /** Reserves the caller's entry, or changes nothing. */
    method Reserve(
      matchId: Id, userId: Id, key: string, now: int, newId: Id) returns (r: Result<Reservation, FinanceError>)
      requires Valid()
      modifies this
      ensures Answers(ReserveTx(old(Tables()), matchId, userId, key, now, newId), r, Tables())
      ensures Tables() == Next(old(Tables()), Step.Reserve(matchId, userId, key, now, newId))
      ensures Valid()
    {
      var saved := Tables();
      r := ReserveInTransaction(matchId, userId, key, now, newId);
      if r.Err? {
        Rollback(saved);
      }
    }

    // ----- Admin service -----

    /** Releases the reserved rows of a match in one update. */
    method Release(matchId: Id)
      requires Valid()
      modifies this`reservations
      ensures Tables() == Next(old(Tables()), Step.Release(matchId))
      ensures Valid()
    {
      reservations := MapRows(reservations, ReleasedRow(matchId));
    }

    method MarkRefunded(reservationId: Id, transactionId: nat) returns (r: Result<Reservation, FinanceError>)
      requires Valid()
      modifies this`reservations
      ensures var current := FindFirst(old(reservations), WithId(reservationId));
              if current.Some? && current.value.status == Reserved then
                && reservations == MapRows(old(reservations), RefundedRow(reservationId, transactionId))
                && r == Ok(RefundedRow(reservationId, transactionId)(current.value))
              else r == Err(PersistenceFailure)
      ensures Valid()
    {
      var current := FindFirst(reservations, WithId(reservationId));
      if current.None? || current.value.status != Reserved {
        return Err(PersistenceFailure);
      }
      r := Ok(RefundedRow(reservationId, transactionId)(current.value));
      reservations := MapRows(reservations, RefundedRow(reservationId, transactionId));
    }

    method RefundInTransaction(
      matchId: Id, key: string, reason: RefundReason, limit: Option<int>)
      returns (r: Result<seq<Reservation>, FinanceError>)
      requires Valid()
      modifies this
      ensures Answers(RefundTx(old(Tables()), matchId, key, reason, limit), r, Tables())
      ensures r.Ok? ==> Valid()
    {
      if !RefundAllowed(Tables(), matchId, reason) {
        return Err(RefundNotAllowed);
      }
      var rows := ListRefundable(Tables(), matchId, Clamp(limit));
      var results := [];
      var i := 0;
      while i < |rows|
        invariant 0 <= i <= |rows|
        invariant Valid()
        invariant RefundRows(Tables(), key, rows[i..], results) == RefundTx(old(Tables()), matchId, key, reason, limit)
      {
        var row := rows[i];
        assert rows[i..][0] == row && rows[i..][1..] == rows[i + 1..];
        if row.status != Reserved {
          return Err(RefundNotAllowed);
        }
        var posting := LedgerRefund(row.id, row.amount, RefundKey(key, row.id), RefundFingerprint(row));
        if posting.Err? {
          return Err(posting.error);
        }
        // the row was read as reserved when the refund was posted, so the update finds it
        var marked := MarkRefunded(row.id, posting.value);
        results := results + [marked.value];
        i := i + 1;
      }
      r := Ok(results);
    }

    /** Refunds up to the limit of a match's reserved rows, all or none. */
    method Refund(
      matchId: Id, key: string, reason: RefundReason, limit: Option<int>)
      returns (r: Result<seq<Reservation>, FinanceError>)
      requires Valid()
      modifies this
      ensures Answers(RefundTx(old(Tables()), matchId, key, reason, limit), r, Tables())
      ensures Tables() == Next(old(Tables()), Step.Refund(matchId, key, reason, limit))
      ensures Valid()
    {
      var saved := Tables();
      r := RefundInTransaction(matchId, key, reason, limit);
      if r.Err? {
        Rollback(saved);
      }
    }

    /** Compares the escrow with the open stakes of the listed rows. */
    method Reconcile(matchId: Id) returns (r: Reconciliation)
      ensures r == ReconcileQuery(Tables(), matchId)
    {
      var rows := ListMatch(Tables(), matchId, 100);
      var expected := 0;
      var i := 0;
      while i < |rows|
        invariant 0 <= i <= |rows|
        invariant expected + Total(Filter(rows[i..], IsOpen()), AmountOf()) == Total(Filter(rows, IsOpen()), AmountOf())
      {
        assert rows[i..][0] == rows[i] && rows[i..][1..] == rows[i + 1..];
        if HoldsStake(rows[i]) {
          assert Filter(rows[i..], IsOpen()) == [rows[i]] + Filter(rows[i + 1..], IsOpen());
          assert Filter(rows[i..], IsOpen())[1..] == Filter(rows[i + 1..], IsOpen());
          expected := expected + rows[i].amount;
        }
        i := i + 1;
      }
      var balance := Balance(accounts, MatchEscrow(matchId));
      r := Reconciliation(balance == expected, balance, expected, |rows|);
    }

    // ----- Settlement ledger adapter -----

    method LedgerSettle(
      matchId: Id, settlementType: SettlementType, winner: Option<Id>, rows: seq<Reservation>, key: string,
        fingerprint: Fingerprint)
      returns (r: Result<nat, FinanceError>)
      modifies this`accounts, this`journal
      ensures Answers(PostSettlement(old(Tables()), matchId, settlementType, winner, rows, key, fingerprint), r,
              Tables())
    {
      if rows == [] || rows[0].escrowAccountId.None? || !PayableFrom(rows, rows[0].escrowAccountId.value) {
        return Err(SettlementReservationInvalid);
      }
      var escrow := rows[0].escrowAccountId.value;
      var total := Total(rows, AmountOf());
      if !escrow.MatchEscrow? || escrow !in accounts || accounts[escrow].balance != total {
        return Err(EscrowMismatch);
      }
      accounts := Increment(accounts, escrow, -total);
      var escrowAfter := accounts[escrow].balance;
      ghost var debited := accounts;
      var recipients := Recipients(settlementType, winner, rows, total);
      if recipients == [] {
        return Err(SettlementResultInvalid);
      }
      var credits := [];
      var i := 0;
      while i < |recipients|
        invariant 0 <= i <= |recipients|
        invariant |credits| == i
        invariant CreditAll(accounts, recipients[i..], credits) == CreditAll(debited, recipients, [])
        invariant journal == old(journal)
      {
        var account, credit := recipients[i].account, recipients[i].credit;
        assert recipients[i..][0] == recipients[i] && recipients[i..][1..] == recipients[i + 1..];
        if account !in accounts {
          return Err(PersistenceFailure);
        }
        accounts := Increment(accounts, account, credit);
        credits := credits + [Entry(account, Credit, credit, accounts[account].balance, i + 2)];
        i := i + 1;
      }
      assert recipients[i..] == [];
      r := CreateTransaction(
        Posting(PostingTypeOf(settlementType), key, fingerprint, ForSettlement(matchId),
                [Entry(escrow, Debit, total, escrowAfter, 1)] + credits));
    }

    // ----- Settlement service and repository -----

    method InsertSettlement(
      c: Context, settlement: Settlement, outcomes: map<Id, SettlementOutcome>)
      returns (r: Result<Settlement, FinanceError>)
      requires Valid()
      requires forall i :: 0 <= i < |c.reservations| ==>
                 c.reservations[i].id in outcomes
                 && outcomes[c.reservations[i].id] == OutcomeOf(settlement.settlementType, c.winner, c.reservations[i])
      modifies this
      ensures Answers(CreateSettlement(old(Tables()), c, settlement), r, Tables())
      ensures Valid()
    {
      hide MarkSettled, FindFirst;
      if FindFirst(settlements, SettlementWithId(settlement.id)).Some? {
        return Err(PersistenceFailure);
      }
      settlements := settlements + [settlement];
      var i := 0;
      while i < |c.reservations|
        invariant 0 <= i <= |c.reservations|
        invariant Valid()
        invariant MarkSettled(reservations, c.reservations[i..], settlement, c.winner)
               == MarkSettled(old(reservations), c.reservations, settlement, c.winner)
        invariant settlements == old(settlements) + [settlement]
        invariant matches == old(matches) && wallets == old(wallets) && accounts == old(accounts)
                 && journal == old(journal)
      {
        var row := c.reservations[i];
        MarkSettledStep(reservations, c.reservations, i, settlement, c.winner);
        reservations := MapRows(reservations, SettledRow(row.id, settlement, outcomes[row.id]));
        i := i + 1;
      }
      MarkSettledEnd(reservations, settlement, c.winner);
      assert c.reservations[i..] == [];
      r := Ok(settlement);
    }

    /** What the settlement means for each of its rows. */
    method Outcomes(c: Context, settlementType: SettlementType) returns (outcomes: map<Id, SettlementOutcome>)
      requires forall i, j :: 0 <= i < j < |c.reservations| ==> c.reservations[i].id != c.reservations[j].id
      ensures forall i :: 0 <= i < |c.reservations| ==>
                c.reservations[i].id in outcomes
                && outcomes[c.reservations[i].id] == OutcomeOf(settlementType, c.winner, c.reservations[i])
    {
      outcomes := map[];
      var i := 0;
      while i < |c.reservations|
        invariant 0 <= i <= |c.reservations|
        invariant forall n :: 0 <= n < i ==>
                    c.reservations[n].id in outcomes
                    && outcomes[c.reservations[n].id] == OutcomeOf(settlementType, c.winner, c.reservations[n])
      {
        var row := c.reservations[i];
        var outcome := match settlementType {
          case WinnerTakesAll => if c.winner == Some(row.participantId) then WinnerCredited else LoserContributed
          case DrawRefund => DrawRefunded
          case VoidRefund => VoidRefunded
        };
        outcomes := outcomes[row.id := outcome];
        i := i + 1;
      }
    }

    method SettleInTransaction(
      matchId: Id, key: string, now: int, delaySeconds: int, newId: Id) returns (r: Result<Settlement, FinanceError>)
      requires Valid()
      modifies this
      ensures Answers(SettleTx(old(Tables()), matchId, key, now, delaySeconds, newId), r, Tables())
      ensures r.Ok? ==> Valid()
    {
      hide Applies, Eligible, Total, PostSettlement, CreateSettlement, FindFirst;
      var found := FindSettlementContext(Tables(), matchId);
      if found.None? {
        return Err(SettlementNotFound);
      }
      var c := EffectiveContext(found.value, delaySeconds);
      var eligible, settlementType, reasons := EvaluateEligibility(c, now);
      var total := Total(c.reservations, AmountOf());
      var fingerprint := SettlementFingerprint(c.matchId, c.resultId, c.resultVersion, settlementType, total);
      var keyed := FindFirst(settlements, SettlementWithKey(key));
      if keyed.Some? {
        if keyed.value.fingerprint != fingerprint {
          return Err(SettlementKeyConflict);
        }
        return Ok(keyed.value);
      }
      if FindFirst(settlements, SettlementOf(matchId)).Some? {
        return Err(SettlementAlreadyExists);
      }
      if !eligible {
        if Listed(reasons, ActiveDisputeExists) {
          return Err(ActiveDispute);
        }
        if Listed(reasons, SettlementDelayNotElapsed) {
          return Err(DelayNotElapsed);
        }
        if Listed(reasons, EscrowBalanceMismatch) {
          return Err(EscrowMismatch);
        }
        return Err(NotEligible);
      }
      var posting := LedgerSettle(matchId, settlementType.value, c.winner, c.reservations, LedgerKey(key), fingerprint);
      if posting.Err? {
        return Err(posting.error);
      }
      ContextRowsAreDistinct(old(Tables()), matchId, delaySeconds);
      var outcomes := Outcomes(c, settlementType.value);
      r := InsertSettlement(c, NewSettlement(c, settlementType.value, total, posting.value, key, fingerprint, newId),
        outcomes);
    }

    /**
      Settles a match, or changes nothing. The notification comes after the commit: when it fails the
      caller gets an error although the match is settled.
     */
    method Settle(
      matchId: Id, key: string, now: int, delaySeconds: int, newId: Id, notified: bool)
      returns (r: Result<Settlement, FinanceError>)
      requires Valid()
      modifies this
      ensures Tables() == Next(old(Tables()), Step.Settle(matchId, key, now, delaySeconds, newId))
      ensures var outcome := SettleTx(old(Tables()), matchId, key, now, delaySeconds, newId);
              if outcome.Ok? && !notified then r == Err(NotificationFailed) else Answers(outcome, r, Tables())
      ensures Valid()
    {
      var saved := Tables();
      r := SettleInTransaction(matchId, key, now, delaySeconds, newId);
      if r.Err? {
        Rollback(saved);
      } else if !notified {
        r := Err(NotificationFailed);
      }
    }
  }

  lemma MarkSettledStep(
    table: seq<Reservation>, rows: seq<Reservation>, i: nat, settlement: Settlement, winner: Option<Id>)
    requires i < |rows|
    ensures MarkSettled(table, rows[i..], settlement, winner)
         == MarkSettled(
              MapRows(table, SettledRow(rows[i].id, settlement, OutcomeOf(settlement.settlementType, winner, rows[i]))),
              rows[i + 1..], settlement, winner)
  {
    assert rows[i..][0] == rows[i] && rows[i..][1..] == rows[i + 1..];
  }

  lemma MarkSettledEnd(table: seq<Reservation>, settlement: Settlement, winner: Option<Id>)
    ensures MarkSettled(table, [], settlement, winner) == table
  {
  }

  /** The rows of a settlement context carry different identifiers. */
  lemma ContextRowsAreDistinct(db: Db, matchId: Id, delaySeconds: int)
    requires forall i, j :: 0 <= i < j < |db.reservations| ==> db.reservations[i].id != db.reservations[j].id
    requires FindSettlementContext(db, matchId).Some?
    ensures var rows := EffectiveContext(FindSettlementContext(db, matchId).value, delaySeconds).reservations;
            forall i, j :: 0 <= i < j < |rows| ==> rows[i].id != rows[j].id
  {
    var found := Filter(db.reservations, OfMatch(matchId));
    var rows := SortedBy(found, ByParticipant());
    DistinctFilter(db.reservations, OfMatch(matchId));
    DistinctSort(found, ByParticipant());
    forall i, j | 0 <= i < j < |rows| ensures rows[i].id != rows[j].id {
      SortMembers(found, ByParticipant(), rows[i]);
      SortMembers(found, ByParticipant(), rows[j]);
      FilterMembers(db.reservations, OfMatch(matchId), rows[i]);
      FilterMembers(db.reservations, OfMatch(matchId), rows[j]);
    }
  }
}
