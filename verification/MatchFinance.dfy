/**
  The rows of match finance and what each committed transaction does to them.
  Every transaction is a function of the rows: an error means nothing was written.
 */
module MatchFinance {
  import opened Wrappers
  import opened Rows
  import opened Ledger
  import opened MatchEntryPolicies

  // ----- Rows -----

  datatype MatchStatus =
    | Created | AwaitingReady | Ready | InProgress | AwaitingResult
    | ResultConflict | Completed | Cancelled | Expired | Voided

  datatype Side = SideA | SideB

  datatype Participant = Participant(id: Id, side: Side, userId: Id)

  datatype ResultStatus = Confirmed | Conflict | AdminResolved | ResultVoided

  datatype MatchResult = MatchResult(id: Id, status: ResultStatus, version: nat, winner: Option<Id>, isDraw: bool)

  datatype DisputeStatus =
    | Open | AwaitingResponse | UnderReview | Resolved | Rejected | DisputeCancelled | DisputeExpired

  datatype Dispute = Dispute(id: Id, status: DisputeStatus, resolvedAt: Option<int>)

  datatype Match = Match(
    status: MatchStatus,
    configuration: Configuration,
    participants: seq<Participant>,
    readyDeadlineAt: int,
    completedAt: Option<int>,
    settlementEligibleAt: Option<int>,
    result: Option<MatchResult>,
    disputes: seq<Dispute>)

  datatype ReservationStatus =
    | NotRequired | Reserved | Released | Refunded | ReservationCancelled | ReservationExpired | Failed | Settled

  datatype SettlementOutcome = WinnerCredited | LoserContributed | DrawRefunded | VoidRefunded

  datatype Reservation = Reservation(
    id: Id,
    matchId: Id,
    participantId: Id,
    userId: Id,
    ledgerAccountId: Option<AccountId>,
    escrowAccountId: Option<AccountId>,
    assetCode: string,
    amount: int,
    status: ReservationStatus,
    ledgerTransactionId: Option<nat>,
    refundTransactionId: Option<nat>,
    settlementId: Option<Id>,
    outcome: Option<SettlementOutcome>,
    key: string,
    fingerprint: Fingerprint,
    createdAt: int)

  datatype SettlementStatus = SettlementSettled | SettlementRefunded

  datatype Settlement = Settlement(
    id: Id,
    matchId: Id,
    status: SettlementStatus,
    settlementType: SettlementType,
    total: int,
    distributed: int,
    refunded: int,
    winner: Option<Id>,
    resultId: Option<Id>,
    disputeId: Option<Id>,
    key: string,
    fingerprint: Fingerprint,
    transactionId: nat)

  /** The tables; `wallets` holds whether a wallet is active. A transaction id is its place in the journal. */
  datatype Db = Db(
    matches: map<Id, Match>,
    wallets: map<Id, bool>,
    accounts: Accounts,
    journal: seq<Posting>,
    reservations: seq<Reservation>,
    settlements: seq<Settlement>)

  datatype FinanceError =
    | ParticipantInvalid | EntryMatchInvalid | ReservationTimedOut | ReservationKeyConflict
    | ReservationStateInvalid | InsufficientBalance | RefundNotAllowed | EscrowInvariantViolation | PersistenceFailure
    | SettlementNotFound | SettlementKeyConflict | SettlementAlreadyExists | ActiveDispute | DelayNotElapsed
    | EscrowMismatch | NotEligible | SettlementReservationInvalid | SettlementResultInvalid | NotificationFailed

  datatype RefundReason = MatchCancelled | MatchExpired | MatchVoidedBeforeStart | OperationalRecovery | OtherReason

  const ARENA_POINT := "ARENA_POINT"

  // ----- Queries -----

  /** Text order of identifiers. */
  predicate Precedes(a: string, b: string) {
    a == "" || (b != "" && (a[0] < b[0] || (a[0] == b[0] && Precedes(a[1..], b[1..]))))
  }

  function ById(): (Reservation, Reservation) -> bool {
    (a: Reservation, b: Reservation) => Precedes(a.id, b.id)
  }

  function ByParticipant(): (Reservation, Reservation) -> bool {
    (a: Reservation, b: Reservation) => Precedes(a.participantId, b.participantId)
  }

  function ByCreation(): (Reservation, Reservation) -> bool {
    (a: Reservation, b: Reservation) =>
      a.createdAt < b.createdAt || (a.createdAt == b.createdAt && Precedes(a.id, b.id))
  }

  function OfUser(userId: Id): Participant -> bool {
    (p: Participant) => p.userId == userId
  }

  function OfMatch(matchId: Id): Reservation -> bool {
    (r: Reservation) => r.matchId == matchId
  }

  function WithId(id: Id): Reservation -> bool {
    (r: Reservation) => r.id == id
  }

  function WithKey(key: string): Reservation -> bool {
    (r: Reservation) => r.key == key
  }

  function OfParticipant(matchId: Id, participantId: Id): Reservation -> bool {
    (r: Reservation) => r.matchId == matchId && r.participantId == participantId
  }

  function Refundable(matchId: Id): Reservation -> bool {
    (r: Reservation) => r.matchId == matchId && r.status == Reserved
  }

  /** The stake is in escrow. */
  predicate HoldsStake(r: Reservation) {
    r.status == Reserved || r.status == Released
  }

  function IsOpen(): Reservation -> bool {
    (r: Reservation) => HoldsStake(r)
  }

  function HasEscrow(): Reservation -> bool {
    (r: Reservation) => r.escrowAccountId.Some?
  }

  function AmountOf(): Reservation -> int {
    (r: Reservation) => r.amount
  }

  function SettlementOf(matchId: Id): Settlement -> bool {
    (s: Settlement) => s.matchId == matchId
  }

  function SettlementWithKey(key: string): Settlement -> bool {
    (s: Settlement) => s.key == key
  }

  function SettlementWithId(id: Id): Settlement -> bool {
    (s: Settlement) => s.id == id
  }

  function PostingWithKey(key: string): Posting -> bool {
    (p: Posting) => p.key == key
  }

  // ----- Journal and wallet ledger -----

  /** The width of every idempotency key column, in characters. */
  const KEY_WIDTH := 128

  /** A journal key must fit its column and be new. */
  predicate Postable(journal: seq<Posting>, key: string) {
    |key| <= KEY_WIDTH && FindFirst(journal, PostingWithKey(key)).None?
  }

  /** Creates a ledger transaction under its idempotency key. */
  function Post(db: Db, posting: Posting): Result<(Db, nat), FinanceError> {
    if !Postable(db.journal, posting.key) then Err(PersistenceFailure)
    else Ok((db.(journal := db.journal + [posting]), |db.journal|))
  }

  function LedgerKey(key: string): string {
    "ledger:" + key
  }

  function RefundKey(key: string, reservationId: Id): string {
    "ledger:" + key + ":" + reservationId
  }

  /** Moves a stake from the user's account, opened on demand, into the match's escrow. */
  function PostReservation(
    db: Db, matchId: Id, userId: Id, amount: int, key: string, fingerprint: Fingerprint):
    Result<(Db, nat), FinanceError> {
    var wallets := if userId in db.wallets then db.wallets else db.wallets[userId := true];
    if !wallets[userId] then Err(ReservationStateInvalid)
    else
      var user, escrow := UserAvailable(userId), MatchEscrow(matchId);
      var ready := Opened(Opened(db.accounts, user), escrow);
      if !ready[user].active || ready[user].balance < amount then Err(InsufficientBalance)
      else
        var accounts := Increment(Increment(ready, user, -amount), escrow, amount);
        Post(db.(wallets := wallets, accounts := accounts),
             Posting(MatchEntryReservation, LedgerKey(key), fingerprint, ForMatchEntry(matchId),
                     [Entry(user, Debit, amount, accounts[user].balance, 1),
                      Entry(escrow, Credit, amount, accounts[escrow].balance, 2)]))
  }

  /** Moves a stake back from the escrow the reservation names to the account it came from. */
  function PostRefund(
    db: Db, reservationId: Id, amount: int, key: string, fingerprint: Fingerprint): Result<(Db, nat), FinanceError> {
    var row := FindFirst(db.reservations, WithId(reservationId));
    if row.None? || row.value.ledgerAccountId.None? || row.value.escrowAccountId.None?
        || row.value.status != Reserved then
      Err(RefundNotAllowed)
    else
      var user, escrow := row.value.ledgerAccountId.value, row.value.escrowAccountId.value;
      if escrow !in db.accounts || db.accounts[escrow].balance < amount then Err(EscrowInvariantViolation)
      else if user !in db.accounts then Err(PersistenceFailure)
      else
        var accounts := Increment(Increment(db.accounts, escrow, -amount), user, amount);
        Post(db.(accounts := accounts),
             Posting(MatchEntryRefund, key, fingerprint, ForRefund(reservationId),
                     [Entry(escrow, Debit, amount, accounts[escrow].balance, 1),
                      Entry(user, Credit, amount, accounts[user].balance, 2)]))
  }

  // ----- Reserving an entry -----

  datatype Entrant = Entrant(game: Match, participant: Participant)

  function FindContext(db: Db, userId: Id, matchId: Id): Option<Entrant> {
    if matchId !in db.matches then None
    else
      var participant := FindFirst(db.matches[matchId].participants, OfUser(userId));
      if participant.None? then None else Some(Entrant(db.matches[matchId], participant.value))
  }

  function CreateReservation(db: Db, row: Reservation): Result<(Db, Reservation), FinanceError> {
    if FindFirst(db.reservations, WithId(row.id)).Some? || |row.key| > KEY_WIDTH then Err(PersistenceFailure)
    else Ok((db.(reservations := db.reservations + [row]), row))
  }

  /** A new row: with its accounts and transaction when a stake was taken, without them otherwise. */
  function NewReservation(
    matchId: Id, p: Participant, amount: int, transactionId: Option<nat>, key: string, fingerprint: Fingerprint,
      now: int, newId: Id): Reservation
  {
    var taken := transactionId.Some?;
    Reservation(
      newId, matchId, p.id, p.userId,
      if taken then Some(UserAvailable(p.userId)) else None,
      if taken then Some(MatchEscrow(matchId)) else None,
      ARENA_POINT, amount, if taken then Reserved else NotRequired,
      transactionId, None, None, None, key, fingerprint, now)
  }

  function ReserveTx(
    db: Db, matchId: Id, userId: Id, key: string, now: int, newId: Id): Result<(Db, Reservation), FinanceError> {
    var context := FindContext(db, userId, matchId);
    if context.None? then Err(ParticipantInvalid)
    else
      var Entrant(game, p) := context.value;
      if game.status != Created && game.status != AwaitingReady then Err(EntryMatchInvalid)
      else if game.readyDeadlineAt <= now then Err(ReservationTimedOut)
      else if ParseRequirement(game.configuration).Err? then Err(EntryMatchInvalid)
      else
        var requirement := ParseRequirement(game.configuration).value;
        var fingerprint := ReservationFingerprint(ReserveOperation, matchId, p.id, p.userId, requirement.amount);
        var keyed := FindFirst(db.reservations, WithKey(key));
        var existing := FindFirst(db.reservations, OfParticipant(matchId, p.id));
        if keyed.Some? then
          if keyed.value.fingerprint != fingerprint then Err(ReservationKeyConflict) else Ok((db, keyed.value))
        else if existing.Some? then Ok((db, existing.value))
        else if !requirement.required then
          CreateReservation(db, NewReservation(matchId, p, requirement.amount, None, key, fingerprint, now, newId))
        else
          var (posted, transactionId) :- PostReservation(db, matchId, p.userId, requirement.amount, key, fingerprint);
          CreateReservation(posted,
            NewReservation(matchId, p, requirement.amount, Some(transactionId), key, fingerprint, now, newId))
  }

  // ----- Releasing and refunding -----

  function ReleasedRow(matchId: Id): Reservation -> Reservation {
    (r: Reservation) => if r.matchId == matchId && r.status == Reserved then r.(status := Released) else r
  }

  function ReleaseTx(db: Db, matchId: Id): Db {
    db.(reservations := MapRows(db.reservations, ReleasedRow(matchId)))
  }

  function RefundedRow(id: Id, transactionId: nat): Reservation -> Reservation {
    (r: Reservation) =>
      if r.id == id && r.status == Reserved then r.(status := Refunded, refundTransactionId := Some(transactionId))
          else r
  }

  function RefundFingerprint(row: Reservation): Fingerprint {
    ReservationFingerprint(RefundOperation, row.matchId, row.participantId, row.userId, row.amount)
  }

  /** One round of the refund loop: post the refund, then mark the row, which must still be reserved. */
  function RefundOne(db: Db, key: string, row: Reservation): Result<(Db, Reservation), FinanceError> {
    if row.status != Reserved then Err(RefundNotAllowed)
    else
      var (posted, transactionId) :- PostRefund(db, row.id, row.amount, RefundKey(key, row.id), RefundFingerprint(row));
      var current := FindFirst(posted.reservations, WithId(row.id));
      if current.None? || current.value.status != Reserved then Err(PersistenceFailure)
      else
        var mark := RefundedRow(row.id, transactionId);
        Ok((posted.(reservations := MapRows(posted.reservations, mark)), mark(current.value)))
  }

  function RefundRows(
    db: Db, key: string, rows: seq<Reservation>, done: seq<Reservation>): Result<(Db, seq<Reservation>), FinanceError>
    decreases rows
  {
    if rows == [] then Ok((db, done))
    else
      var (next, row) :- RefundOne(db, key, rows[0]);
      RefundRows(next, key, rows[1..], done + [row])
  }

  function Clamp(limit: Option<int>): int {
    var asked := if limit.Some? then limit.value else 10;
    if asked < 1 then 1 else if asked > 100 then 100 else asked
  }

  function ListRefundable(db: Db, matchId: Id, limit: int): seq<Reservation> {
    Take(SortedBy(Filter(db.reservations, Refundable(matchId)), ById()), limit)
  }

  predicate RefundAllowed(db: Db, matchId: Id, reason: RefundReason) {
    || reason == OperationalRecovery
    || (matchId in db.matches && db.matches[matchId].status in {Cancelled, Expired, Voided})
  }

  function RefundTx(
    db: Db, matchId: Id, key: string, reason: RefundReason, limit: Option<int>): Result<(Db, seq<Reservation>),
    FinanceError> {
    if !RefundAllowed(db, matchId, reason) then Err(RefundNotAllowed)
    else RefundRows(db, key, ListRefundable(db, matchId, Clamp(limit)), [])
  }

  // ----- Settlement eligibility -----

  datatype Context = Context(
    matchId: Id,
    matchStatus: MatchStatus,
    completedAt: Option<int>,
    settlementEligibleAt: Option<int>,
    resultId: Option<Id>,
    resultStatus: Option<ResultStatus>,
    resultVersion: Option<nat>,
    winner: Option<Id>,
    isDraw: bool,
    terminalDisputeId: Option<Id>,
    terminalDisputeResolvedAt: Option<int>,
    activeDispute: bool,
    reservations: seq<Reservation>,
    escrowBalance: int,
    settlementExists: bool)

  predicate IsActive(d: Dispute) {
    d.status in {Open, AwaitingResponse, UnderReview}
  }

  function IsTerminal(): Dispute -> bool {
    (d: Dispute) => !IsActive(d)
  }

  function FindSettlementContext(db: Db, matchId: Id): Option<Context> {
    if matchId !in db.matches then None
    else
      var game := db.matches[matchId];
      var rows := SortedBy(Filter(db.reservations, OfMatch(matchId)), ByParticipant());
      var funded := FindFirst(rows, HasEscrow());
      var escrow := if funded.Some? then funded.value.escrowAccountId else None;
      var terminal := FindFirst(game.disputes, IsTerminal());
      var result := game.result;
      Some(Context(
        matchId, game.status, game.completedAt, game.settlementEligibleAt,
        if result.Some? then Some(result.value.id) else None,
        if result.Some? then Some(result.value.status) else None,
        if result.Some? then Some(result.value.version) else None,
        if result.Some? then result.value.winner else None,
        result.Some? && result.value.isDraw,
        if terminal.Some? then Some(terminal.value.id) else None,
        if terminal.Some? then terminal.value.resolvedAt else None,
        exists i :: 0 <= i < |game.disputes| && IsActive(game.disputes[i]),
        rows,
        if escrow.Some? then Balance(db.accounts, escrow.value) else 0,
        FindFirst(db.settlements, SettlementOf(matchId)).Some?))
  }

  function EffectiveContext(c: Context, delaySeconds: int): Context {
    if c.settlementEligibleAt.Some? || c.completedAt.None? then c
    else
      c.(settlementEligibleAt :=
           if c.resultStatus == Some(AdminResolved) && c.terminalDisputeResolvedAt.Some?
               then c.terminalDisputeResolvedAt
           else Some(c.completedAt.value + delaySeconds * 1000))
  }

  datatype Reason =
    | AlreadySettled | ParticipantCountInvalid | AssetMismatch | ActiveDisputeExists
    | ReservationAlreadyRefunded | ReservationNotReleased | MatchNotFinal | ResultNotFinal
    | WinnerNotParticipant | SettlementDelayNotElapsed | EscrowBalanceMismatch

  predicate AwaitsPayout(c: Context, r: Reservation) {
    r.status == Released || (c.matchStatus == Voided && r.status == Reserved)
  }

  function EligibleAt(c: Context): Option<int> {
    if c.terminalDisputeResolvedAt.Some? then c.terminalDisputeResolvedAt else c.settlementEligibleAt
  }

  function TypeOf(c: Context): SettlementType {
    if c.matchStatus == Voided then VoidRefund else if c.isDraw then DrawRefund else WinnerTakesAll
  }

  predicate SomeNotAwaiting(c: Context) {
    exists i :: 0 <= i < |c.reservations| && !AwaitsPayout(c, c.reservations[i])
  }

  predicate SomeOtherAsset(c: Context) {
    exists i :: 0 <= i < |c.reservations| && c.reservations[i].assetCode != ARENA_POINT
  }

  predicate SomeRefunded(c: Context) {
    exists i :: 0 <= i < |c.reservations| && c.reservations[i].status == Refunded
  }

  predicate WinnerTakesPart(c: Context) {
    exists i :: 0 <= i < |c.reservations| && c.winner == Some(c.reservations[i].participantId)
  }

  /** When each reason against settling holds. */
  predicate Applies(c: Context, now: int, reason: Reason) {
    var voided := c.matchStatus == Voided;
    match reason
    case AlreadySettled => c.settlementExists
    case ParticipantCountInvalid => |c.reservations| != 2
    case AssetMismatch => SomeOtherAsset(c)
    case ActiveDisputeExists => c.activeDispute
    case ReservationAlreadyRefunded => SomeNotAwaiting(c) && SomeRefunded(c)
    case ReservationNotReleased => SomeNotAwaiting(c) && !SomeRefunded(c)
    case MatchNotFinal => !voided && c.matchStatus != Completed
    case ResultNotFinal => !voided && c.resultStatus != Some(Confirmed) && c.resultStatus != Some(AdminResolved)
    case WinnerNotParticipant => !voided && !c.isDraw && !WinnerTakesPart(c)
    case SettlementDelayNotElapsed => !voided && (EligibleAt(c).None? || EligibleAt(c).value > now)
    case EscrowBalanceMismatch => c.escrowBalance != Total(c.reservations, AmountOf())
  }

  predicate Eligible(c: Context, now: int) {
    forall reason: Reason :: !Applies(c, now, reason)
  }

  /** The error of an ineligible settlement, most specific reason first. */
  function IneligibilityError(c: Context, now: int): FinanceError {
    if Applies(c, now, ActiveDisputeExists) then ActiveDispute
    else if Applies(c, now, SettlementDelayNotElapsed) then DelayNotElapsed
    else if Applies(c, now, EscrowBalanceMismatch) then EscrowMismatch
    else NotEligible
  }

  // ----- Settling -----

  datatype Recipient = Recipient(account: AccountId, credit: int)

  function IsWinner(winner: Option<Id>): Reservation -> bool {
    (r: Reservation) => winner == Some(r.participantId)
  }

  predicate PayableFrom(rows: seq<Reservation>, escrow: AccountId) {
    forall i :: 0 <= i < |rows| ==> rows[i].escrowAccountId == Some(escrow) && rows[i].ledgerAccountId.Some?
  }

  /** Who is credited: the winner with everything, or everyone with their own stake. */
  function Recipients(
    settlementType: SettlementType, winner: Option<Id>, rows: seq<Reservation>, total: int): seq<Recipient>
    requires forall i :: 0 <= i < |rows| ==> rows[i].ledgerAccountId.Some?
  {
    if rows == [] then []
    else
      var rest := Recipients(settlementType, winner, rows[1..], total);
      var account := rows[0].ledgerAccountId.value;
      if settlementType != WinnerTakesAll then [Recipient(account, rows[0].amount)] + rest
      else if IsWinner(winner)(rows[0]) then [Recipient(account, total)] + rest
      else rest
  }

  /** Credits the recipients in turn; entry numbers continue after the escrow debit. */
  function CreditAll(
    accounts: Accounts, recipients: seq<Recipient>, entries: seq<Entry>): Result<(Accounts, seq<Entry>), FinanceError> {
    if recipients == [] then Ok((accounts, entries))
    else
      var Recipient(a, credit) := recipients[0];
      if a !in accounts then Err(PersistenceFailure)
      else
        var next := Increment(accounts, a, credit);
        CreditAll(next, recipients[1..], entries + [Entry(a, Credit, credit, next[a].balance, |entries| + 2)])
  }

  function PostingTypeOf(settlementType: SettlementType): PostingType {
    match settlementType
    case WinnerTakesAll => MatchWinnerSettlement
    case DrawRefund => MatchDrawRefund
    case VoidRefund => MatchVoidRefund
  }

  /** Empties the escrow, which must hold exactly the stakes, into the recipients' accounts. */
  function PostSettlement(
    db: Db, matchId: Id, settlementType: SettlementType, winner: Option<Id>, rows: seq<Reservation>, key: string,
      fingerprint: Fingerprint): Result<(Db, nat), FinanceError>
  {
    if rows == [] || rows[0].escrowAccountId.None? || !PayableFrom(rows, rows[0].escrowAccountId.value) then
      Err(SettlementReservationInvalid)
    else
      var escrow := rows[0].escrowAccountId.value;
      var total := Total(rows, AmountOf());
      if !escrow.MatchEscrow? || escrow !in db.accounts || db.accounts[escrow].balance != total then Err(EscrowMismatch)
      else
        var debited := Increment(db.accounts, escrow, -total);
        var recipients := Recipients(settlementType, winner, rows, total);
        if recipients == [] then Err(SettlementResultInvalid)
        else
          var (accounts, credits) :- CreditAll(debited, recipients, []);
          Post(db.(accounts := accounts),
               Posting(PostingTypeOf(settlementType), key, fingerprint, ForSettlement(matchId),
                       [Entry(escrow, Debit, total, debited[escrow].balance, 1)] + credits))
  }

  function OutcomeOf(settlementType: SettlementType, winner: Option<Id>, r: Reservation): SettlementOutcome {
    match settlementType
    case WinnerTakesAll => if IsWinner(winner)(r) then WinnerCredited else LoserContributed
    case DrawRefund => DrawRefunded
    case VoidRefund => VoidRefunded
  }

  function NewSettlement(
    c: Context, settlementType: SettlementType, total: int, transactionId: nat, key: string, fingerprint: Fingerprint,
      newId: Id): Settlement
  {
    var refund := settlementType != WinnerTakesAll;
    Settlement(
      newId, c.matchId, if refund then SettlementRefunded else SettlementSettled, settlementType,
      total, if refund then 0 else total, if refund then total else 0,
      if refund then None else c.winner, c.resultId, c.terminalDisputeId, key, fingerprint, transactionId)
  }

  function SettledRow(id: Id, settlement: Settlement, outcome: SettlementOutcome): Reservation -> Reservation {
    (r: Reservation) =>
      if r.id == id then
        r.(status := if settlement.settlementType == WinnerTakesAll then Settled else Refunded,
           settlementId := Some(settlement.id), outcome := Some(outcome))
      else r
  }

  /** Marks the rows of the context one by one in the table. */
  function MarkSettled(
    table: seq<Reservation>, rows: seq<Reservation>, settlement: Settlement, winner: Option<Id>): seq<Reservation>
    decreases rows
  {
    if rows == [] then table
    else
      var mark := SettledRow(rows[0].id, settlement, OutcomeOf(settlement.settlementType, winner, rows[0]));
      MarkSettled(MapRows(table, mark), rows[1..], settlement, winner)
  }

  function CreateSettlement(db: Db, c: Context, settlement: Settlement): Result<(Db, Settlement), FinanceError> {
    if FindFirst(db.settlements, SettlementWithId(settlement.id)).Some? then Err(PersistenceFailure)
    else
      Ok((db.(settlements := db.settlements + [settlement],
              reservations := MarkSettled(db.reservations, c.reservations, settlement, c.winner)), settlement))
  }

  function SettleFingerprint(c: Context, now: int): Fingerprint {
    SettlementFingerprint(
      c.matchId, c.resultId, c.resultVersion, if Eligible(c, now) then Some(TypeOf(c))
        else None, Total(c.reservations, AmountOf()))
  }

  function SettleTx(
    db: Db, matchId: Id, key: string, now: int, delaySeconds: int, newId: Id): Result<(Db, Settlement), FinanceError> {
    var found := FindSettlementContext(db, matchId);
    if found.None? then Err(SettlementNotFound)
    else
      var c := EffectiveContext(found.value, delaySeconds);
      var fingerprint := SettleFingerprint(c, now);
      var keyed := FindFirst(db.settlements, SettlementWithKey(key));
      if keyed.Some? then
        if keyed.value.fingerprint != fingerprint then Err(SettlementKeyConflict) else Ok((db, keyed.value))
      else if FindFirst(db.settlements, SettlementOf(matchId)).Some? then Err(SettlementAlreadyExists)
      else if !Eligible(c, now) then Err(IneligibilityError(c, now))
      else
        var (posted, transactionId) :- PostSettlement(db, matchId, TypeOf(c), c.winner, c.reservations, LedgerKey(key),
            fingerprint);
        CreateSettlement(posted, c,
          NewSettlement(c, TypeOf(c), Total(c.reservations, AmountOf()), transactionId, key, fingerprint, newId))
  }

  // ----- Views -----

  /** The points a participant received, as the settlement view shows them. */
  function ReceivedAmount(s: Settlement, participantId: Id, ownAmount: int): int {
    if s.settlementType == WinnerTakesAll then
      if s.winner == Some(participantId) then s.distributed else 0
    else ownAmount
  }

  datatype Reconciliation = Reconciliation(consistent: bool, escrowBalance: int, expectedBalance: int,
    reservationCount: nat)

  function ListMatch(db: Db, matchId: Id, limit: int): seq<Reservation> {
    Take(SortedBy(Filter(db.reservations, OfMatch(matchId)), ByCreation()), limit)
  }

  function ReconcileQuery(db: Db, matchId: Id): Reconciliation {
    var rows := ListMatch(db, matchId, 100);
    var expected := Total(Filter(rows, IsOpen()), AmountOf());
    var balance := Balance(db.accounts, MatchEscrow(matchId));
    Reconciliation(balance == expected, balance, expected, |rows|)
  }

  // ----- Steps and runs -----

  /** A call of a service, or a change made elsewhere: to a match, a wallet or an account's status. */
  datatype Step =
    | Reserve(matchId: Id, userId: Id, key: string, now: int, newId: Id)
    | Release(matchId: Id)
    | Refund(matchId: Id, key: string, reason: RefundReason, limit: Option<int>)
    | Settle(matchId: Id, key: string, now: int, delaySeconds: int, newId: Id)
    | AddMatch(matchId: Id, game: Match)
    | ChangeMatch(matchId: Id, game: Match)
    | SetWallet(userId: Id, active: bool)
    | SetUserAccount(userId: Id, active: bool)

  /** Identifiers, users and sides are unique within a match. */
  predicate ValidParticipants(ps: seq<Participant>) {
    forall i, j :: 0 <= i < j < |ps| ==>
      ps[i].id != ps[j].id && ps[i].userId != ps[j].userId && ps[i].side != ps[j].side
  }

  function Committed<T>(db: Db, outcome: Result<(Db, T), FinanceError>): Db {
    if outcome.Ok? then outcome.value.0 else db
  }

  /** A step commits or leaves the rows as they were. Participants and ruleset snapshot of a match never change. */
  function Next(db: Db, step: Step): Db {
    match step
    case Reserve(matchId, userId, key, now, newId) => Committed(db, ReserveTx(db, matchId, userId, key, now, newId))
    case Release(matchId) => ReleaseTx(db, matchId)
    case Refund(matchId, key, reason, limit) => Committed(db, RefundTx(db, matchId, key, reason, limit))
    case Settle(matchId, key, now, delaySeconds, newId) =>
        Committed(db, SettleTx(db, matchId, key, now, delaySeconds, newId))
    case AddMatch(matchId, game) =>
      if matchId in db.matches || !ValidParticipants(game.participants) then db
          else db.(matches := db.matches[matchId := game])
    case ChangeMatch(matchId, game) =>
      if matchId !in db.matches || game.participants != db.matches[matchId].participants
         || game.configuration != db.matches[matchId].configuration then db
      else db.(matches := db.matches[matchId := game])
    case SetWallet(userId, active) => db.(wallets := db.wallets[userId := active])
    case SetUserAccount(userId, active) =>
      var a := UserAvailable(userId);
      if a !in db.accounts then db else db.(accounts := db.accounts[a := db.accounts[a].(active := active)])
  }

  function Run(db: Db, steps: seq<Step>): Db {
    if steps == [] then db else Next(Run(db, steps[..|steps| - 1]), steps[|steps| - 1])
  }

  /** No match money has moved yet: users hold arbitrary balances and nothing else exists. */
  function Initial(opening: map<Id, nat>): Db {
    Db(map[], map[], map a: AccountId | a in (set u | u in opening :: UserAvailable(u)) ::
      Account(OpeningBalance(opening, a), true), [], [], [])
  }
}
