/**
  When reserving and refunding go through in a reachable state, what they do, and why they are
  refused: said of the stored rows alone, the match, the reservations, keys, wallets and accounts.
 */
module MatchFinanceStakes {
  import opened Wrappers
  import opened Rows
  import opened Ledger
  import opened MatchEntryPolicies
  import opened MatchFinance
  import opened MatchFinanceInvariant
  import opened MatchFinanceTheorems
  import opened MatchFinanceSettling
  import opened Sorting

  // ----- What reservations carry -----

  /** Every reservation carries the fingerprint of its own fields, and no two share a key. */
  ghost predicate Printed(rows: seq<Reservation>) {
    && (forall k :: 0 <= k < |rows| ==>
          rows[k].fingerprint
          == ReservationFingerprint(ReserveOperation, rows[k].matchId, rows[k].participantId, rows[k].userId,
            rows[k].amount))
    && (forall i, j :: 0 <= i < j < |rows| ==> rows[i].key != rows[j].key)
  }

  lemma SameRowsArePrinted(rows: seq<Reservation>, rows': seq<Reservation>)
    requires Printed(rows) && |rows'| == |rows|
    requires forall k :: 0 <= k < |rows| ==> RowExtends(rows[k], rows'[k])
    ensures Printed(rows')
  {
  }

  /** No step but a reservation adds a row. */
  lemma {:induction false} RefundRowsAddNone(db: Db, key: string, rows: seq<Reservation>, done: seq<Reservation>)
    ensures |Committed(db, RefundRows(db, key, rows, done)).reservations| == |db.reservations|
    decreases rows
  {
    hide RefundOne;
    if rows != [] && RefundOne(db, key, rows[0]).Ok? {
      RefundOneAddsNone(db, key, rows[0]);
      var (next, marked) := RefundOne(db, key, rows[0]).value;
      RefundRowsAddNone(next, key, rows[1..], done + [marked]);
    }
  }

  lemma RefundOneAddsNone(db: Db, key: string, row: Reservation)
    requires RefundOne(db, key, row).Ok?
    ensures |RefundOne(db, key, row).value.0.reservations| == |db.reservations|
  {
    hide FindFirst;
  }

  lemma {:induction false} MarkingAddsNone(
    table: seq<Reservation>, rows: seq<Reservation>, s: Settlement, winner: Option<Id>)
    ensures |MarkSettled(table, rows, s, winner)| == |table|
    decreases rows
  {
    if rows != [] {
      var mark := SettledRow(rows[0].id, s, OutcomeOf(s.settlementType, winner, rows[0]));
      MarkingAddsNone(MapRows(table, mark), rows[1..], s, winner);
    }
  }

  lemma SettlingAddsNone(db: Db, matchId: Id, key: string, now: int, delaySeconds: int, newId: Id)
    ensures |Committed(db, SettleTx(db, matchId, key, now, delaySeconds, newId)).reservations| == |db.reservations|
  {
    if SettleTx(db, matchId, key, now, delaySeconds, newId).Ok?
        && FindFirst(db.settlements, SettlementWithKey(key)).None? {
      SettlePassed(db, matchId, key, now, delaySeconds, newId);
      var c := DecisionContext(db, matchId, delaySeconds);
      var s := SettleTx(db, matchId, key, now, delaySeconds, newId).value.1;
      PostingAddsNone(db, matchId, TypeOf(c), c.winner, c.reservations, LedgerKey(key), SettleFingerprint(c, now));
      MarkingAddsNone(db.reservations, c.reservations, s, c.winner);
    }
    hide SettleTx, DecisionContext, PostSettlement;
  }

  lemma PostingAddsNone(
    db: Db, matchId: Id, settlementType: SettlementType, winner: Option<Id>, rows: seq<Reservation>, key: string,
    fingerprint: Fingerprint)
    requires PostSettlement(db, matchId, settlementType, winner, rows, key, fingerprint).Ok?
    ensures PostSettlement(db, matchId, settlementType, winner, rows, key, fingerprint).value.0.reservations
         == db.reservations
  {
    hide CreditAll, Recipients, Total, PayableFrom;
  }

  lemma ReserveKeepsPrinted(db: Db, matchId: Id, userId: Id, key: string, now: int, newId: Id)
    requires Printed(db.reservations)
    ensures Printed(Committed(db, ReserveTx(db, matchId, userId, key, now, newId)).reservations)
  {
    var outcome := ReserveTx(db, matchId, userId, key, now, newId);
    if outcome.Ok? && outcome.value.0 != db {
      NewRowIsPrinted(db, matchId, userId, key, now, newId);
      forall k | 0 <= k < |db.reservations| ensures db.reservations[k].key != key {
        assert !WithKey(key)(db.reservations[k]);
      }
    }
    hide ReserveTx;
  }

  lemma NewRowIsPrinted(db: Db, matchId: Id, userId: Id, key: string, now: int, newId: Id)
    requires ReserveTx(db, matchId, userId, key, now, newId).Ok?
    requires ReserveTx(db, matchId, userId, key, now, newId).value.0 != db
    ensures var (db', r) := ReserveTx(db, matchId, userId, key, now, newId).value;
            && FindFirst(db.reservations, WithKey(key)).None? && r.key == key
            && db'.reservations == db.reservations + [r]
            && r.fingerprint == ReservationFingerprint(ReserveOperation, r.matchId, r.participantId, r.userId, r.amount)
  {
    hide ParseRequirement, FindContext, FindFirst;
    var Entrant(game, p) := FindContext(db, userId, matchId).value;
    var amount := ParseRequirement(game.configuration).value.amount;
    var fingerprint := ReservationFingerprint(ReserveOperation, matchId, p.id, p.userId, amount);
    if PostReservation(db, matchId, p.userId, amount, key, fingerprint).Ok? {
      PostReservationExtends(db, matchId, p.userId, amount, key, fingerprint);
    }
    hide PostReservation;
  }

  lemma StepKeepsPrinted(opening: map<Id, nat>, db: Db, step: Step)
    requires Inv(opening, db) && Printed(db.reservations)
    ensures Printed(Next(db, step).reservations)
  {
    hide Inv, ReserveTx, SettleTx, RefundRows, Printed, RowExtends;
    StepExtends(opening, db, step);
    match step {
      case Reserve(matchId, userId, key, now, newId) => ReserveKeepsPrinted(db, matchId, userId, key, now, newId);
      case Refund(matchId, key, _, limit) =>
        RefundRowsAddNone(db, key, ListRefundable(db, matchId, Clamp(limit)), []);
        SameRowsArePrinted(db.reservations, Next(db, step).reservations);
      case Settle(matchId, key, now, delaySeconds, newId) =>
        SettlingAddsNone(db, matchId, key, now, delaySeconds, newId);
        SameRowsArePrinted(db.reservations, Next(db, step).reservations);
      case _ => SameRowsArePrinted(db.reservations, Next(db, step).reservations);
    }
  }

  lemma {:induction false} ReachableIsPrinted(opening: map<Id, nat>, steps: seq<Step>)
    ensures Printed(After(opening, steps).reservations)
  {
    if steps != [] {
      var init := steps[..|steps| - 1];
      ReachableIsPrinted(opening, init);
      ReachableHolds(opening, init);
      StepKeepsPrinted(opening, After(opening, init), steps[|steps| - 1]);
    }
    hide Inv, Next;
  }

  // ----- Reserving -----

  /** The user is the match's participant at `i`. */
  predicate Enters(db: Db, matchId: Id, userId: Id, i: nat) {
    matchId in db.matches && i < |db.matches[matchId].participants| && db.matches[matchId].participants[i].userId
      == userId
  }

  predicate TakesEntries(game: Match) {
    game.status == Created || game.status == AwaitingReady
  }

  /** The reservation at `k` is that of the match's participant at `i`. */
  predicate IsEntry(db: Db, matchId: Id, i: nat, k: nat)
    requires matchId in db.matches && i < |db.matches[matchId].participants|
  {
    && k < |db.reservations| && db.reservations[k].matchId == matchId
    && db.reservations[k].participantId == db.matches[matchId].participants[i].id
  }

  predicate HasEntry(db: Db, matchId: Id, i: nat)
    requires matchId in db.matches && i < |db.matches[matchId].participants|
  {
    exists k :: 0 <= k < |db.reservations| && IsEntry(db, matchId, i, k)
  }

  /** Some other reservation already has the key. */
  predicate KeyIsAnothers(db: Db, matchId: Id, i: nat, key: string)
    requires matchId in db.matches && i < |db.matches[matchId].participants|
  {
    exists k :: 0 <= k < |db.reservations| && db.reservations[k].key == key && !IsEntry(db, matchId, i, k)
  }

  predicate WalletWorks(db: Db, userId: Id) {
    userId in db.wallets ==> db.wallets[userId]
  }

  predicate CanPay(db: Db, userId: Id, n: nat) {
    UserAvailable(userId) in db.accounts
    && db.accounts[UserAvailable(userId)].active && db.accounts[UserAvailable(userId)].balance >= n
  }

  /** Nothing stands in the way of storing a first reservation with its stake. */
  predicate FirstEntryFits(db: Db, userId: Id, key: string, newId: Id, n: nat) {
    && (forall k :: 0 <= k < |db.reservations| ==> db.reservations[k].id != newId)
    && |key| <= 128
    && (n > 0 ==> WalletWorks(db, userId) && CanPay(db, userId, n) && |key| <= 121 && !JournalHas(db, "ledger:" + key))
  }

  /** The reservation a participant gets for a stake of `n`. */
  function FirstEntry(db: Db, matchId: Id, p: Participant, n: nat, key: string, now: int, newId: Id): Reservation {
    var mark := ReservationFingerprint(ReserveOperation, matchId, p.id, p.userId, n);
    if n == 0 then
      Reservation(newId, matchId, p.id, p.userId, None, None, "ARENA_POINT", 0, NotRequired, None, None, None, None,
                  key, mark, now)
    else
      Reservation(newId, matchId, p.id, p.userId, Some(UserAvailable(p.userId)), Some(MatchEscrow(matchId)),
                  "ARENA_POINT", n, Reserved, Some(|db.journal|), None, None, None, key, mark, now)
  }

  /** The posting of a stake, with the balances it leaves. */
  function StakePosting(r: Reservation, n: nat, accounts: Accounts): Posting {
    var user, escrow := UserAvailable(r.userId), MatchEscrow(r.matchId);
    Posting(MatchEntryReservation, "ledger:" + r.key, r.fingerprint, ForMatchEntry(r.matchId),
            [Entry(user, Debit, n, Balance(accounts, user), 1), Entry(escrow, Credit, n, Balance(accounts, escrow), 2)])
  }

  /**
    What a first reservation changes: one row, and for a stake one posting, two balances, and the
    wallet and the escrow account that are opened when missing.
   */
  ghost predicate EntersAsDue(db: Db, db': Db, r: Reservation, n: nat) {
    && db'.matches == db.matches && db'.settlements == db.settlements
    && db'.reservations == db.reservations + [r]
    && db'.journal == db.journal + (if n > 0 then [StakePosting(r, n, db'.accounts)] else [])
    && db'.wallets == (if n == 0 || r.userId in db.wallets then db.wallets else db.wallets[r.userId := true])
    && (forall a :: a in db.accounts ==> a in db'.accounts && db'.accounts[a].active == db.accounts[a].active)
    && (forall a :: a in db'.accounts && a !in db.accounts ==>
          n > 0 && a == MatchEscrow(r.matchId) && db'.accounts[a].active)
    && forall a :: Balance(db'.accounts, a) == Balance(db.accounts, a)
         - (if a == UserAvailable(r.userId) then n else 0) + (if a == MatchEscrow(r.matchId) then n else 0)
  }

  lemma EntrantIsFound(db: Db, matchId: Id, userId: Id, i: nat)
    requires MatchesValid(db) && Enters(db, matchId, userId, i)
    ensures FindContext(db, userId, matchId) == Some(Entrant(db.matches[matchId], db.matches[matchId].participants[i]))
  {
    FindUnique(db.matches[matchId].participants, OfUser(userId), i);
  }

  lemma NobodyIsFound(db: Db, matchId: Id, userId: Id)
    requires forall i: nat :: !Enters(db, matchId, userId, i)
    ensures FindContext(db, userId, matchId).None?
  {
    if matchId in db.matches {
      var ps := db.matches[matchId].participants;
      var found := FindFirst(ps, OfUser(userId));
      if found.Some? {
        var i :| 0 <= i < |ps| && ps[i] == found.value;
        assert Enters(db, matchId, userId, i);
      }
    }
  }

  /** The row found for the participant is the only one there is. */
  lemma EntryIsFound(db: Db, matchId: Id, i: nat)
    requires RowsValid(db) && matchId in db.matches && i < |db.matches[matchId].participants|
    ensures var existing := FindFirst(db.reservations, OfParticipant(matchId, db.matches[matchId].participants[i].id));
            && (existing.Some? <==> HasEntry(db, matchId, i))
            && (forall k: nat :: IsEntry(db, matchId, i, k) ==> existing == Some(db.reservations[k]))
  {
    hide RowValid;
    var p := db.matches[matchId].participants[i];
    var existing := FindFirst(db.reservations, OfParticipant(matchId, p.id));
    if existing.Some? {
      var k :| 0 <= k < |db.reservations| && db.reservations[k] == existing.value;
      assert IsEntry(db, matchId, i, k);
    }
    forall k: nat | IsEntry(db, matchId, i, k) ensures existing == Some(db.reservations[k]) {
      FindUnique(db.reservations, OfParticipant(matchId, p.id), k);
    }
  }

  /** The row found under the key is this participant's, or another's. */
  lemma KeyedIsFound(db: Db, matchId: Id, userId: Id, i: nat, key: string, n: nat)
    requires MatchesValid(db) && RowsValid(db) && Printed(db.reservations) && Enters(db, matchId, userId, i)
    requires AsksFor(db.matches[matchId].configuration, n)
    ensures var p := db.matches[matchId].participants[i];
            var keyed := FindFirst(db.reservations, WithKey(key));
            var mark := ReservationFingerprint(ReserveOperation, matchId, p.id, p.userId, n);
            && (keyed.Some? && keyed.value.fingerprint != mark <==> KeyIsAnothers(db, matchId, i, key))
            && (keyed.Some? && keyed.value.fingerprint == mark ==>
                  exists k: nat :: IsEntry(db, matchId, i, k) && db.reservations[k] == keyed.value)
  {
    var keyed := FindFirst(db.reservations, WithKey(key));
    if keyed.Some? {
      var k :| 0 <= k < |db.reservations| && db.reservations[k] == keyed.value;
      KeyedRow(db, matchId, userId, i, n, k);
      hide RowsValid, MatchesValid;
      forall m | 0 <= m < |db.reservations| && db.reservations[m].key == key ensures m == k {
      }
      assert !IsEntry(db, matchId, i, k) ==> KeyIsAnothers(db, matchId, i, key);
    } else {
      forall k | 0 <= k < |db.reservations| ensures db.reservations[k].key != key {
        assert !WithKey(key)(db.reservations[k]);
      }
    }
  }

  /** A row carries the fingerprint of this entry exactly when it is its row. */
  lemma KeyedRow(db: Db, matchId: Id, userId: Id, i: nat, n: nat, k: nat)
    requires MatchesValid(db) && RowsValid(db) && Printed(db.reservations) && Enters(db, matchId, userId, i)
    requires AsksFor(db.matches[matchId].configuration, n) && k < |db.reservations|
    ensures var p := db.matches[matchId].participants[i];
            db.reservations[k].fingerprint == ReservationFingerprint(ReserveOperation, matchId, p.id, p.userId, n)
            <==> IsEntry(db, matchId, i, k)
  {
    var r, p := db.reservations[k], db.matches[matchId].participants[i];
    assert RowValid(db, r);
    if IsEntry(db, matchId, i, k) {
      assert TakesPart(db.matches[matchId], r.participantId, r.userId);
      StakeIsSpelled(db.matches[matchId].configuration, n);
    }
  }

  /** The branches of a reservation, in terms of the participant and the stake. */
  lemma ReserveUnfolds(db: Db, matchId: Id, userId: Id, i: nat, key: string, now: int, newId: Id, n: nat)
    requires MatchesValid(db) && Enters(db, matchId, userId, i) && AsksFor(db.matches[matchId].configuration, n)
    ensures var game, p := db.matches[matchId], db.matches[matchId].participants[i];
            var mark := ReservationFingerprint(ReserveOperation, matchId, p.id, p.userId, n);
            var keyed := FindFirst(db.reservations, WithKey(key));
            var existing := FindFirst(db.reservations, OfParticipant(matchId, p.id));
            var posting := PostReservation(db, matchId, userId, n, key, mark);
            ReserveTx(db, matchId, userId, key, now, newId) ==
            if !TakesEntries(game) then Err(EntryMatchInvalid)
            else if game.readyDeadlineAt <= now then Err(ReservationTimedOut)
            else if keyed.Some? && keyed.value.fingerprint != mark then Err(ReservationKeyConflict)
            else if keyed.Some? then Ok((db, keyed.value))
            else if existing.Some? then Ok((db, existing.value))
            else if n == 0 then CreateReservation(db, FirstEntry(db, matchId, p, 0, key, now, newId))
            else if posting.Err? then Err(posting.error)
            else CreateReservation(posting.value.0,
                NewReservation(matchId, p, n, Some(posting.value.1), key, mark, now, newId))
  {
    EntrantIsFound(db, matchId, userId, i);
    StakeIsSpelled(db.matches[matchId].configuration, n);
    hide FindContext, ParseRequirement, FindFirst, PostReservation, CreateReservation, AsksFor;
  }

  /** The posting of a stake, from wallet, account and key. */
  lemma StakePosts(db: Db, matchId: Id, userId: Id, n: nat, key: string, mark: Fingerprint)
    requires n > 0
    requires UserAvailable(userId) !in db.accounts || db.accounts[UserAvailable(userId)].balance >= 0
    ensures var posting := PostReservation(db, matchId, userId, n, key, mark);
            if !WalletWorks(db, userId) then posting == Err(ReservationStateInvalid)
            else if !CanPay(db, userId, n) then posting == Err(InsufficientBalance)
            else if |key| > 121 || JournalHas(db, "ledger:" + key) then posting == Err(PersistenceFailure)
            else
              && posting.Ok? && posting.value.1 == |db.journal|
              && forall r: Reservation ::
                   r.userId == userId && r.matchId == matchId && r.key == key && r.fingerprint == mark ==>
                   EntersAsDue(db, posting.value.0.(reservations := db.reservations + [r]), r, n)
  {
    PostableIff(db, "ledger:" + key);
    hide Postable, JournalHas;
  }

  lemma StoringFits(db: Db, r: Reservation)
    ensures CreateReservation(db, r)
         == if (forall k :: 0 <= k < |db.reservations| ==> db.reservations[k].id != r.id) && |r.key| <= 128
            then Ok((db.(reservations := db.reservations + [r]), r)) else Err(PersistenceFailure)
  {
    var found := FindFirst(db.reservations, WithId(r.id));
    if found.None? {
      forall k | 0 <= k < |db.reservations| ensures db.reservations[k].id != r.id {
        assert !WithId(r.id)(db.reservations[k]);
      }
    } else {
      var k :| 0 <= k < |db.reservations| && db.reservations[k] == found.value;
    }
  }

  /** A reservation that is answered with a row, or refused, in a state the invariant holds in. */
  lemma ReserveAnswers(
    opening: map<Id, nat>, db: Db, matchId: Id, userId: Id, i: nat, key: string, now: int, newId: Id, n: nat)
    requires Inv(opening, db) && Printed(db.reservations)
    requires Enters(db, matchId, userId, i) && AsksFor(db.matches[matchId].configuration, n)
    ensures var game, p := db.matches[matchId], db.matches[matchId].participants[i];
            var outcome := ReserveTx(db, matchId, userId, key, now, newId);
            if !TakesEntries(game) then outcome == Err(EntryMatchInvalid)
            else if game.readyDeadlineAt <= now then outcome == Err(ReservationTimedOut)
            else if KeyIsAnothers(db, matchId, i, key) then outcome == Err(ReservationKeyConflict)
            else if HasEntry(db, matchId, i) then
              exists k: nat :: IsEntry(db, matchId, i, k) && outcome == Ok((db, db.reservations[k]))
            else if n > 0 && !WalletWorks(db, userId) then outcome == Err(ReservationStateInvalid)
            else if n > 0 && !CanPay(db, userId, n) then outcome == Err(InsufficientBalance)
            else if !FirstEntryFits(db, userId, key, newId, n) then outcome == Err(PersistenceFailure)
            else
              && outcome.Ok? && outcome.value.1 == FirstEntry(db, matchId, p, n, key, now, newId)
              && EntersAsDue(db, outcome.value.0, outcome.value.1, n)
  {
    hide RowsValid, SettlementsValid, PaidOnce, EscrowAgrees, UsersAgree, ReserveTx, PostReservation, CreateReservation,
         AsksFor, KeyIsAnothers, HasEntry, JournalHas, EntersAsDue;
    var p := db.matches[matchId].participants[i];
    var mark := ReservationFingerprint(ReserveOperation, matchId, p.id, p.userId, n);
    EntryIsFound(db, matchId, i);
    KeyedIsFound(db, matchId, userId, i, key, n);
    ReserveUnfolds(db, matchId, userId, i, key, now, newId, n);
    if n == 0 {
      FreeEntry(db, FirstEntry(db, matchId, p, 0, key, now, newId));
    } else {
      BalanceIsNotNegative(opening, db, userId);
      FundedEntry(db, matchId, p, n, key, mark, now, newId);
    }
    assert HasEntry(db, matchId, i) <==> FindFirst(db.reservations, OfParticipant(matchId, p.id)).Some?;
    EntryIsWitnessed(db, matchId, i);
  }

  lemma EntryIsWitnessed(db: Db, matchId: Id, i: nat)
    requires matchId in db.matches && i < |db.matches[matchId].participants|
    ensures HasEntry(db, matchId, i) <==> exists k: nat :: IsEntry(db, matchId, i, k)
  {
  }

  lemma BalanceIsNotNegative(opening: map<Id, nat>, db: Db, userId: Id)
    requires Books(opening, db.accounts, db.journal)
    ensures UserAvailable(userId) in db.accounts ==> db.accounts[UserAvailable(userId)].balance >= 0
  {
    assert Balance(db.accounts, UserAvailable(userId)) >= 0;
  }

  lemma FreeEntry(db: Db, r: Reservation)
    ensures CreateReservation(db, r)
         == if (forall k :: 0 <= k < |db.reservations| ==> db.reservations[k].id != r.id) && |r.key| <= 128
            then Ok((db.(reservations := db.reservations + [r]), r)) else Err(PersistenceFailure)
    ensures EntersAsDue(db, db.(reservations := db.reservations + [r]), r, 0)
  {
    StoringFits(db, r);
  }

  lemma FundedEntry(
    db: Db, matchId: Id, p: Participant, n: nat, key: string, mark: Fingerprint, now: int, newId: Id)
    requires n > 0 && mark == ReservationFingerprint(ReserveOperation, matchId, p.id, p.userId, n)
    requires UserAvailable(p.userId) in db.accounts ==> db.accounts[UserAvailable(p.userId)].balance >= 0
    ensures var posting := PostReservation(db, matchId, p.userId, n, key, mark);
            if !WalletWorks(db, p.userId) then posting == Err(ReservationStateInvalid)
            else if !CanPay(db, p.userId, n) then posting == Err(InsufficientBalance)
            else if posting.Err? then
              posting == Err(PersistenceFailure) && !FirstEntryFits(db, p.userId, key, newId, n)
            else
              var stored := CreateReservation(
                  posting.value.0, NewReservation(matchId, p, n, Some(posting.value.1), key, mark, now, newId));
              if !FirstEntryFits(db, p.userId, key, newId, n) then stored == Err(PersistenceFailure)
              else
                && stored.Ok? && stored.value.1 == FirstEntry(db, matchId, p, n, key, now, newId)
                && EntersAsDue(db, stored.value.0, stored.value.1, n)
  {
    hide PostReservation, CreateReservation, JournalHas, EntersAsDue;
    StakePosts(db, matchId, p.userId, n, key, mark);
    var posting := PostReservation(db, matchId, p.userId, n, key, mark);
    if posting.Ok? {
      PostReservationExtends(db, matchId, p.userId, n, key, mark);
      var r := NewReservation(matchId, p, n, Some(posting.value.1), key, mark, now, newId);
      StoringFits(posting.value.0, r);
    }
  }

  /** Every reservation call in a reachable state, by the participant it is for and the stake the snapshot spells. */
  lemma ReservationIsDue(
    opening: map<Id, nat>, steps: seq<Step>, matchId: Id, userId: Id, i: nat, key: string, now: int, newId: Id, n: nat)
    requires Enters(After(opening, steps), matchId, userId, i)
    requires AsksFor(After(opening, steps).matches[matchId].configuration, n)
    ensures var db := After(opening, steps);
            var game, p := db.matches[matchId], db.matches[matchId].participants[i];
            var outcome := ReserveTx(db, matchId, userId, key, now, newId);
            && Next(db, Reserve(matchId, userId, key, now, newId)) == (if outcome.Ok? then outcome.value.0 else db)
            && if !TakesEntries(game) then outcome == Err(EntryMatchInvalid)
               else if game.readyDeadlineAt <= now then outcome == Err(ReservationTimedOut)
               else if KeyIsAnothers(db, matchId, i, key) then outcome == Err(ReservationKeyConflict)
               else if HasEntry(db, matchId, i) then
                 exists k: nat :: IsEntry(db, matchId, i, k) && outcome == Ok((db, db.reservations[k]))
               else if n > 0 && !WalletWorks(db, userId) then outcome == Err(ReservationStateInvalid)
               else if n > 0 && !CanPay(db, userId, n) then outcome == Err(InsufficientBalance)
               else if !FirstEntryFits(db, userId, key, newId, n) then outcome == Err(PersistenceFailure)
               else
                 && outcome.Ok? && outcome.value.1 == FirstEntry(db, matchId, p, n, key, now, newId)
                 && EntersAsDue(db, outcome.value.0, outcome.value.1, n)
  {
    ReachableHolds(opening, steps);
    ReachableIsPrinted(opening, steps);
    hide Inv, Printed, Run, ReserveTx;
    ReserveAnswers(opening, After(opening, steps), matchId, userId, i, key, now, newId, n);
  }

  /** In every reachable state a reservation goes through if and only if all of this can be seen in the rows. */
  lemma ReserveSucceedsIff(
    opening: map<Id, nat>, steps: seq<Step>, matchId: Id, userId: Id, key: string, now: int, newId: Id)
    ensures var db := After(opening, steps);
            ReserveTx(db, matchId, userId, key, now, newId).Ok? <==>
            exists i: nat, n: nat ::
              && Enters(db, matchId, userId, i) && AsksFor(db.matches[matchId].configuration, n)
              && TakesEntries(db.matches[matchId]) && now < db.matches[matchId].readyDeadlineAt
              && !KeyIsAnothers(db, matchId, i, key)
              && (HasEntry(db, matchId, i) || FirstEntryFits(db, userId, key, newId, n))
  {
    var db := After(opening, steps);
    hide Run, ReserveTx, AsksFor, Enters, KeyIsAnothers, HasEntry, FirstEntryFits, EntersAsDue, IsEntry;
    if i: nat :| Enters(db, matchId, userId, i) {
      EntersOnce(opening, steps, matchId, userId, i);
      if n: nat :| AsksFor(db.matches[matchId].configuration, n) {
        ReservationIsDue(opening, steps, matchId, userId, i, key, now, newId, n);
        AskedOnce(db.matches[matchId].configuration, n);
        FirstEntryNeedsFunds(db, userId, key, newId, n);
      } else {
        UnspelledStakeIsRefused(opening, steps, matchId, userId, i, key, now, newId);
      }
    } else {
      StrangersAreRefused(db, matchId, userId, key, now, newId);
    }
  }

  lemma FirstEntryNeedsFunds(db: Db, userId: Id, key: string, newId: Id, n: nat)
    ensures FirstEntryFits(db, userId, key, newId, n) && n > 0 ==> WalletWorks(db, userId) && CanPay(db, userId, n)
  {
  }

  lemma AskedOnce(configuration: Configuration, n: nat)
    requires AsksFor(configuration, n)
    ensures forall m: nat :: AsksFor(configuration, m) ==> m == n
  {
    forall m: nat | AsksFor(configuration, m) ensures m == n {
      StakeIsUnique(configuration, m, n);
    }
  }

  lemma EntersOnce(opening: map<Id, nat>, steps: seq<Step>, matchId: Id, userId: Id, i: nat)
    requires Enters(After(opening, steps), matchId, userId, i)
    ensures matchId in After(opening, steps).matches
    ensures forall j: nat :: Enters(After(opening, steps), matchId, userId, j) ==> j == i
  {
    ReachableHolds(opening, steps);
    hide RowsValid, SettlementsValid, PaidOnce, EscrowAgrees, UsersAgree, Books, Run;
  }

  /** Only a participant of the match can reserve. */
  lemma StrangersAreRefused(db: Db, matchId: Id, userId: Id, key: string, now: int, newId: Id)
    requires forall i: nat :: !Enters(db, matchId, userId, i)
    ensures ReserveTx(db, matchId, userId, key, now, newId) == Err(ParticipantInvalid)
  {
    NobodyIsFound(db, matchId, userId);
  }

  /** Nor can a participant while the match's snapshot spells no stake. */
  lemma UnspelledStakeIsRefused(
    opening: map<Id, nat>, steps: seq<Step>, matchId: Id, userId: Id, i: nat, key: string, now: int, newId: Id)
    requires Enters(After(opening, steps), matchId, userId, i)
    requires forall n: nat :: !AsksFor(After(opening, steps).matches[matchId].configuration, n)
    ensures var db := After(opening, steps);
            ReserveTx(db, matchId, userId, key, now, newId)
            == if TakesEntries(db.matches[matchId]) && db.matches[matchId].readyDeadlineAt <= now
               then Err(ReservationTimedOut) else Err(EntryMatchInvalid)
  {
    var db := After(opening, steps);
    ReachableHolds(opening, steps);
    EntrantIsFound(db, matchId, userId, i);
    StakeIsSpelled(db.matches[matchId].configuration, 0);
    hide Inv, Run, FindContext, ParseRequirement, AsksFor, PostReservation, CreateReservation;
  }

  // ----- Refunding -----

  /** The text `a` comes before `b`: a shorter beginning of it, or smaller at the first difference. */
  predicate TextBefore(a: string, b: string) {
    || a < b
    || exists n :: 0 <= n < |a| && n < |b| && a[..n] == b[..n] && a[n] < b[n]
  }

  lemma {:induction false} PrecedesIff(a: string, b: string)
    ensures Precedes(a, b) <==> a == b || TextBefore(a, b)
  {
    if a == "" || b == "" {
      if Precedes(a, b) && a != b {
        assert a < b;
      }
    } else {
      PrecedesIff(a[1..], b[1..]);
      assert a == [a[0]] + a[1..] && b == [b[0]] + b[1..];
      if a[0] < b[0] {
        assert a[..0] == b[..0];
      } else if a[0] == b[0] {
        SharedFirst(a, b);
      } else if TextBefore(a, b) {
        FirstDecides(a, b);
      }
    }
  }

  lemma FirstDecides(a: string, b: string)
    requires TextBefore(a, b) && a != "" && b != ""
    ensures a[0] <= b[0]
  {
    if !(a < b) {
      var n :| 0 <= n < |a| && n < |b| && a[..n] == b[..n] && a[n] < b[n];
      assert n > 0 ==> a[0] == a[..n][0] == b[..n][0] == b[0];
    }
  }

  lemma SharedFirst(a: string, b: string)
    requires a != "" && b != "" && a[0] == b[0]
    ensures TextBefore(a, b) <==> TextBefore(a[1..], b[1..])
  {
    var x, y := a[1..], b[1..];
    assert a == [a[0]] + x && b == [b[0]] + y;
    if n :| 0 <= n < |a| && n < |b| && a[..n] == b[..n] && a[n] < b[n] {
      assert x[..n - 1] == a[..n][1..] && y[..n - 1] == b[..n][1..] && x[n - 1] < y[n - 1];
    }
    if n :| 0 <= n < |x| && n < |y| && x[..n] == y[..n] && x[n] < y[n] {
      assert a[..n + 1] == [a[0]] + x[..n] && b[..n + 1] == [b[0]] + y[..n] && a[n + 1] < b[n + 1];
    }
    if x < y {
      assert a < b;
    }
    if a < b {
      assert x < y;
    }
  }

  lemma {:induction false} PrecedesIsTotal(a: string, b: string)
    ensures Precedes(a, b) || Precedes(b, a)
    ensures Precedes(a, b) && Precedes(b, a) ==> a == b
  {
    if a != "" && b != "" {
      PrecedesIsTotal(a[1..], b[1..]);
      assert a == [a[0]] + a[1..] && b == [b[0]] + b[1..];
    }
  }

  lemma {:induction false} PrecedesIsTransitive(a: string, b: string, c: string)
    requires Precedes(a, b) && Precedes(b, c)
    ensures Precedes(a, c)
  {
    if a != "" && b != "" && c != "" && a[0] == b[0] == c[0] {
      PrecedesIsTransitive(a[1..], b[1..], c[1..]);
    }
  }

  lemma ByIdIsTotal()
    ensures TotalOrder(ById())
  {
    forall a: Reservation, b: Reservation ensures ById()(a, b) || ById()(b, a) {
      PrecedesIsTotal(a.id, b.id);
    }
    forall a: Reservation, b: Reservation, c: Reservation | ById()(a, b) && ById()(b, c) ensures ById()(a, c) {
      PrecedesIsTransitive(a.id, b.id, c.id);
    }
  }

  predicate IsReserved(db: Db, matchId: Id, r: Reservation) {
    r in db.reservations && r.matchId == matchId && r.status == Reserved
  }

  /** Whom a refund reaches: the match's reserved rows, with a limit of one or less only the first of them. */
  predicate Reaches(db: Db, matchId: Id, limit: Option<int>, r: Reservation) {
    && IsReserved(db, matchId, r)
    && (limit.Some? && limit.value <= 1 ==>
          forall q :: q in db.reservations && IsReserved(db, matchId, q) && q.id != r.id ==> TextBefore(r.id, q.id))
  }

  /** The rows listed for a refund are those it reaches, in the order of their identifiers. */
  lemma ListedAreReached(opening: map<Id, nat>, db: Db, matchId: Id, limit: Option<int>)
    requires Inv(opening, db)
    ensures var rows := ListRefundable(db, matchId, Clamp(limit));
            && (forall r :: r in rows <==> Reaches(db, matchId, limit, r))
            && (forall i, j :: 0 <= i < j < |rows| ==> TextBefore(rows[i].id, rows[j].id))
  {
    hide PaidOnce, EscrowAgrees, UsersAgree, Books, SettlementsValid, RowValid, ValidParticipants, TextBefore;
    var found := Filter(db.reservations, Refundable(matchId));
    var sorted := SortedBy(found, ById());
    var rows := ListRefundable(db, matchId, Clamp(limit));
    ReservedAreSorted(db, matchId);
    AtMostTwoRows(db, matchId, sorted);
    hide Filter, SortedBy, MatchesValid, RowsValid, ById;
    if limit.Some? && limit.value <= 1 {
      assert Clamp(limit) == 1;
      FirstIsReached(db, matchId, sorted, limit);
      assert rows == sorted[..if |sorted| == 0 then 0 else 1];
    } else {
      assert rows == sorted;
    }
  }

  lemma ReservedAreSorted(db: Db, matchId: Id)
    requires RowsValid(db)
    ensures var sorted := SortedBy(Filter(db.reservations, Refundable(matchId)), ById());
            && Distinct(sorted) && (forall r :: r in sorted <==> IsReserved(db, matchId, r))
            && (forall i, j :: 0 <= i < j < |sorted| ==>
                  sorted[i].id != sorted[j].id && TextBefore(sorted[i].id, sorted[j].id))
  {
    hide RowValid;
    var found := Filter(db.reservations, Refundable(matchId));
    var sorted := SortedBy(found, ById());
    DistinctFilter(db.reservations, Refundable(matchId));
    DistinctSort(found, ById());
    forall r ensures r in sorted <==> IsReserved(db, matchId, r) {
      SortMembers(found, ById(), r);
      FilterMembers(db.reservations, Refundable(matchId), r);
    }
    ByIdIsTotal();
    SortIsOrdered(found, ById());
    forall i, j | 0 <= i < j < |sorted|
      ensures sorted[i].id != sorted[j].id && TextBefore(sorted[i].id, sorted[j].id)
    {
      assert sorted[i] in sorted && sorted[j] in sorted;
      IdsDiffer(db, sorted[i], sorted[j]);
      PrecedesIff(sorted[i].id, sorted[j].id);
    }
  }

  lemma IdsDiffer(db: Db, a: Reservation, b: Reservation)
    requires RowsValid(db) && a in db.reservations && b in db.reservations && a != b
    ensures a.id != b.id
  {
    hide RowValid;
    var m :| 0 <= m < |db.reservations| && db.reservations[m] == a;
    var n :| 0 <= n < |db.reservations| && db.reservations[n] == b;
  }

  lemma TextOrderIsStrict(a: string, b: string)
    requires TextBefore(a, b)
    ensures a != b && !TextBefore(b, a)
  {
    PrecedesIff(a, b);
    PrecedesIff(b, a);
    PrecedesIsTotal(a, b);
  }

  /** A limit of one reaches the first row of the listing. */
  lemma FirstIsReached(db: Db, matchId: Id, sorted: seq<Reservation>, limit: Option<int>)
    requires limit.Some? && limit.value <= 1
    requires forall r :: r in sorted <==> IsReserved(db, matchId, r)
    requires forall i, j :: 0 <= i < j < |sorted| ==>
               sorted[i].id != sorted[j].id && TextBefore(sorted[i].id, sorted[j].id)
    ensures forall r :: (sorted != [] && r == sorted[0]) <==> Reaches(db, matchId, limit, r)
  {
    hide TextBefore;
    forall r ensures (sorted != [] && r == sorted[0]) <==> Reaches(db, matchId, limit, r) {
      if IsReserved(db, matchId, r) {
        assert r in sorted;
        var n :| 0 <= n < |sorted| && sorted[n] == r;
        if n == 0 {
          forall q | q in db.reservations && IsReserved(db, matchId, q) && q.id != r.id ensures TextBefore(r.id, q.id) {
            assert q in sorted;
            var m :| 0 <= m < |sorted| && sorted[m] == q;
          }
        } else {
          TextOrderIsStrict(sorted[0].id, r.id);
          assert sorted[0] in sorted && IsReserved(db, matchId, sorted[0]);
          assert sorted[0] in db.reservations;
        }
      }
    }
  }

  /** The row after its refund was posted. */
  predicate IsRefunded(before: Reservation, after: Reservation) {
    after.refundTransactionId.Some?
    && after == before.(status := Refunded, refundTransactionId := after.refundTransactionId)
  }

  /**
    A round of refunds turns the listed rows, reports them in turn, and changes no other table but
    accounts and journal.
   */
  ghost predicate RefundsRows(
    db: Db, db': Db, rows: seq<Reservation>, done: seq<Reservation>, reported: seq<Reservation>) {
    && db'.matches == db.matches && db'.settlements == db.settlements && db'.wallets == db.wallets
    && |db'.reservations| == |db.reservations|
    && (forall k :: 0 <= k < |db.reservations| ==>
          if db.reservations[k] in rows then IsRefunded(db.reservations[k], db'.reservations[k])
          else db'.reservations[k] == db.reservations[k])
    && |reported| == |done| + |rows| && done <= reported
    && (forall n :: 0 <= n < |rows| ==> ReportedAt(db, db', rows[n], reported[|done| + n]))
  }

  /** The row is reported as it now stands in the table. */
  predicate ReportedAt(db: Db, db': Db, row: Reservation, report: Reservation) {
    && IsRefunded(row, report)
    && forall k :: 0 <= k < |db.reservations| && k < |db'.reservations| && db.reservations[k] == row ==>
         db'.reservations[k] == report
  }

  lemma {:induction false} RefundRowsDo(
    opening: map<Id, nat>, db: Db, key: string, rows: seq<Reservation>, done: seq<Reservation>)
    requires Inv(opening, db) && RowsFrom(db, rows)
    requires RefundRows(db, key, rows, done).Ok?
    ensures var (db', reported) := RefundRows(db, key, rows, done).value;
            RefundsRows(db, db', rows, done, reported)
    decreases rows
  {
    hide Inv, RefundOne, RefundsRows;
    if rows == [] {
      NothingRefunded(db, done);
    } else {
      RefundRowsUnfold(db, key, rows, done);
      RefundRoundKeepsInvariant(opening, db, key, rows);
      var (next, marked) := RefundOne(db, key, rows[0]).value;
      var k := RoundTurnsRow(opening, db, key, rows);
      RefundRowsDo(opening, next, key, rows[1..], done + [marked]);
      var (db', reported) := RefundRows(db, key, rows, done).value;
      RoundsCompose(db, next, db', rows, done, marked, reported, k);
    }
  }

  lemma NothingRefunded(db: Db, done: seq<Reservation>)
    ensures RefundsRows(db, db, [], done, done)
  {
  }

  lemma RoundTurnsRow(opening: map<Id, nat>, db: Db, key: string, rows: seq<Reservation>) returns (k: nat)
    requires Inv(opening, db) && RowsFrom(db, rows) && rows != [] && RefundOne(db, key, rows[0]).Ok?
    ensures k < |db.reservations| && db.reservations[k] == rows[0]
    ensures var (next, marked) := RefundOne(db, key, rows[0]).value;
            && IsRefunded(rows[0], marked) && next.reservations == db.reservations[k := marked]
            && next.matches == db.matches && next.settlements == db.settlements && next.wallets == db.wallets
    ensures forall i, j :: 0 <= i < j < |db.reservations| ==> db.reservations[i].id != db.reservations[j].id
  {
    hide RefundOne, PostRefund, RowValid, PaidOnce, EscrowAgrees, UsersAgree, Books, SettlementsValid, MatchesValid,
         FindFirst;
    assert rows[0] in db.reservations;
    k :| 0 <= k < |db.reservations| && db.reservations[k] == rows[0];
    RefundOneChangesOneRow(db, key, k);
    RefundPostingKeeps(db, rows[0].id, rows[0].amount, RefundKey(key, rows[0].id), RefundFingerprint(rows[0]));
  }

  lemma RefundPostingKeeps(db: Db, reservationId: Id, amount: int, key: string, fingerprint: Fingerprint)
    requires PostRefund(db, reservationId, amount, key, fingerprint).Ok?
    ensures var posted := PostRefund(db, reservationId, amount, key, fingerprint).value.0;
            posted.matches == db.matches && posted.settlements == db.settlements && posted.wallets == db.wallets
  {
    hide FindFirst;
  }

  lemma RoundsCompose(
    db: Db, next: Db, db': Db, rows: seq<Reservation>, done: seq<Reservation>, marked: Reservation,
    reported: seq<Reservation>, k: nat)
    requires rows != [] && k < |db.reservations| && db.reservations[k] == rows[0] && RowsFrom(db, rows)
    requires forall i, j :: 0 <= i < j < |db.reservations| ==> db.reservations[i].id != db.reservations[j].id
    requires IsRefunded(rows[0], marked) && next.reservations == db.reservations[k := marked]
    requires next.matches == db.matches && next.settlements == db.settlements && next.wallets == db.wallets
    requires RefundsRows(next, db', rows[1..], done + [marked], reported)
    ensures RefundsRows(db, db', rows, done, reported)
  {
    var rest := rows[1..];
    MarkedIsNotLeft(rows, marked);
    forall m | 0 <= m < |db.reservations|
      ensures if db.reservations[m] in rows then IsRefunded(db.reservations[m], db'.reservations[m])
              else db'.reservations[m] == db.reservations[m]
      ensures m == k ==> db'.reservations[m] == marked
    {
      RowStaysInRest(rows, db.reservations[m]);
      if m == k {
        assert next.reservations[m] == marked;
      } else {
        assert next.reservations[m] == db.reservations[m];
      }
    }
    assert reported[|done|] == (done + [marked])[|done|] == marked;
    forall n | 0 <= n < |rows| ensures ReportedAt(db, db', rows[n], reported[|done| + n]) {
      if n == 0 {
        forall m | 0 <= m < |db.reservations| && db.reservations[m] == rows[0] ensures m == k {
        }
      } else {
        assert rest[n - 1] == rows[n] && rows[n].id != rows[0].id;
        assert ReportedAt(next, db', rest[n - 1], reported[|done + [marked]| + (n - 1)]);
        forall m | 0 <= m < |db.reservations| && db.reservations[m] == rows[n]
          ensures db'.reservations[m] == reported[|done| + n]
        {
          assert m != k && next.reservations[m] == rows[n];
        }
      }
    }
  }

  lemma MarkedIsNotLeft(rows: seq<Reservation>, marked: Reservation)
    requires rows != [] && marked.id == rows[0].id
    requires forall i, j :: 0 <= i < j < |rows| ==> rows[i].id != rows[j].id
    ensures marked !in rows[1..]
  {
    forall n | 0 <= n < |rows[1..]| ensures rows[1..][n] != marked {
      assert rows[1..][n] == rows[n + 1];
    }
  }

  lemma RowStaysInRest(rows: seq<Reservation>, r: Reservation)
    requires rows != []
    ensures r in rows <==> r == rows[0] || r in rows[1..]
  {
    assert rows == [rows[0]] + rows[1..];
  }

  /** What a refund gives back to a user, or takes out of an escrow. */
  ghost function Returned(db: Db, matchId: Id, limit: Option<int>, a: AccountId): int {
    Total(db.reservations, Returns(db, matchId, limit, a))
  }

  ghost function Returns(db: Db, matchId: Id, limit: Option<int>, a: AccountId): Reservation -> int {
    (r: Reservation) =>
      if !Reaches(db, matchId, limit, r) then 0
      else if a == UserAvailable(r.userId) then r.amount
      else if a == MatchEscrow(matchId) then -r.amount
      else 0
  }

  lemma {:induction false} TotalShifts(
    rows: seq<Reservation>, rows': seq<Reservation>, v: Reservation -> int, w: Reservation -> int,
      d: Reservation -> int)
    requires |rows| == |rows'|
    requires forall i :: 0 <= i < |rows| ==> w(rows'[i]) == v(rows[i]) + d(rows[i])
    ensures Total(rows', w) == Total(rows, v) + Total(rows, d)
  {
    if rows != [] {
      TotalShifts(rows[1..], rows'[1..], v, w, d);
    }
  }

  /** A refund the match allows and whose postings fit. */
  predicate RefundFits(db: Db, matchId: Id, key: string, reason: RefundReason, limit: Option<int>) {
    && (reason == OperationalRecovery
        || (matchId in db.matches && db.matches[matchId].status in {Cancelled, Expired, Voided}))
    && forall r :: r in db.reservations && Reaches(db, matchId, limit, r) ==>
         |key| + |r.id| <= 120 && !JournalHas(db, "ledger:" + key + ":" + r.id)
  }

  /**
    In every reachable state a refund goes through exactly when it is allowed and fits; then it
    turns the rows it reaches, reports them in the order of their identifiers, and moves their
    stakes from the escrow to their users and nothing else. Refused, it names the permission first.
   */
  lemma RefundIsDue(
    opening: map<Id, nat>, steps: seq<Step>, matchId: Id, key: string, reason: RefundReason, limit: Option<int>)
    ensures var db := After(opening, steps);
            var outcome := RefundTx(db, matchId, key, reason, limit);
            && (outcome.Ok? <==> RefundFits(db, matchId, key, reason, limit))
            && (outcome.Err? ==>
                  outcome.error ==
                  if reason == OperationalRecovery
                     || (matchId in db.matches && db.matches[matchId].status in {Cancelled, Expired, Voided})
                  then PersistenceFailure else RefundNotAllowed)
            && (outcome.Ok? ==> RefundedAsDue(db, outcome.value.0, matchId, limit, outcome.value.1))
  {
    var db := After(opening, steps);
    ReachableHolds(opening, steps);
    hide Run;
    ListedAreReached(opening, db, matchId, limit);
    RefundKeysFit(db, matchId, key, limit);
    RefundSucceedsIff(opening, steps, matchId, key, reason, limit);
    RefundErrors(opening, db, matchId, key, reason, limit);
    if RefundTx(db, matchId, key, reason, limit).Ok? {
      RefundDoes(opening, db, matchId, key, reason, limit);
    }
    hide Inv, RefundTx, RefundedAsDue, ListRefundable, Reaches, AllPostable;
  }

  ghost predicate RefundedAsDue(
    db: Db, db': Db, matchId: Id, limit: Option<int>, reported: seq<Reservation>) {
    && db'.matches == db.matches && db'.settlements == db.settlements && db'.wallets == db.wallets
    && |db'.reservations| == |db.reservations|
    && (forall k :: 0 <= k < |db.reservations| ==> TurnsIfReached(db, db', matchId, limit, reported, k))
    && (forall n :: 0 <= n < |reported| ==> IsReported(db, matchId, limit, reported[n]))
    && (forall m, n :: 0 <= m < n < |reported| ==> TextBefore(reported[m].id, reported[n].id))
    && (forall a :: Balance(db'.accounts, a) == Balance(db.accounts, a) + Returned(db, matchId, limit, a))
  }

  /** The row at `k` is refunded and reported if the refund reaches it, and stays as it was if not. */
  predicate TurnsIfReached(
    db: Db, db': Db, matchId: Id, limit: Option<int>, reported: seq<Reservation>, k: nat)
    requires k < |db.reservations| == |db'.reservations|
  {
    if Reaches(db, matchId, limit, db.reservations[k]) then
      IsRefunded(db.reservations[k], db'.reservations[k]) && db'.reservations[k] in reported
    else db'.reservations[k] == db.reservations[k]
  }

  /** The report is of a row the refund reaches. */
  predicate IsReported(db: Db, matchId: Id, limit: Option<int>, report: Reservation) {
    exists r :: r in db.reservations && Reaches(db, matchId, limit, r) && IsRefunded(r, report)
  }

  lemma RefundErrors(
    opening: map<Id, nat>, db: Db, matchId: Id, key: string, reason: RefundReason, limit: Option<int>)
    requires Inv(opening, db)
    ensures RefundTx(db, matchId, key, reason, limit).Err? ==>
              RefundTx(db, matchId, key, reason, limit).error
              == if RefundAllowed(db, matchId, reason) then PersistenceFailure else RefundNotAllowed
  {
    var rows := ListRefundable(db, matchId, Clamp(limit));
    ListedRowsAreFromTable(db, matchId, Clamp(limit));
    assert forall i :: 0 <= i < |rows| ==> Refundable(matchId)(rows[i]);
    RefundRowsSucceedIff(opening, db, key, rows, []);
    hide Inv, RefundRows, ListRefundable;
  }

  lemma RefundKeysFit(db: Db, matchId: Id, key: string, limit: Option<int>)
    requires forall r :: r in ListRefundable(db, matchId, Clamp(limit)) <==> Reaches(db, matchId, limit, r)
    ensures AllPostable(db.journal, key, ListRefundable(db, matchId, Clamp(limit)))
       <==> forall r :: r in db.reservations && Reaches(db, matchId, limit, r) ==>
              |key| + |r.id| <= 120 && !JournalHas(db, "ledger:" + key + ":" + r.id)
  {
    hide Reaches, Postable, JournalHas;
    var rows := ListRefundable(db, matchId, Clamp(limit));
    forall r: Reservation
      ensures Postable(db.journal, RefundKey(key, r.id)) <==>
              |key| + |r.id| <= 120 && !JournalHas(db, "ledger:" + key + ":" + r.id)
    {
      PostableIff(db, "ledger:" + key + ":" + r.id);
    }
    ReachedAreRows(db, matchId, limit);
    hide ListRefundable;
    if AllPostable(db.journal, key, rows) {
      forall r | r in db.reservations && Reaches(db, matchId, limit, r)
          ensures Postable(db.journal, RefundKey(key, r.id)) {
        assert r in rows;
        var i :| 0 <= i < |rows| && rows[i] == r;
      }
    } else {
      var i :| 0 <= i < |rows| && !Postable(db.journal, RefundKey(key, rows[i].id));
      assert rows[i] in rows;
    }
  }

  lemma ReachedAreRows(db: Db, matchId: Id, limit: Option<int>)
    ensures forall r :: Reaches(db, matchId, limit, r) ==> r in db.reservations
  {
  }

  lemma RefundDoes(
    opening: map<Id, nat>, db: Db, matchId: Id, key: string, reason: RefundReason, limit: Option<int>)
    requires Inv(opening, db) && RefundTx(db, matchId, key, reason, limit).Ok?
    requires var rows := ListRefundable(db, matchId, Clamp(limit));
             && (forall r :: r in rows <==> Reaches(db, matchId, limit, r))
             && (forall i, j :: 0 <= i < j < |rows| ==> TextBefore(rows[i].id, rows[j].id))
    ensures var (db', reported) := RefundTx(db, matchId, key, reason, limit).value;
            RefundedAsDue(db, db', matchId, limit, reported)
  {
    var rows := ListRefundable(db, matchId, Clamp(limit));
    var (db', reported) := RefundTx(db, matchId, key, reason, limit).value;
    ListedRowsAreFromTable(db, matchId, Clamp(limit));
    RefundRowsDo(opening, db, key, rows, []);
    RefundKeepsInvariant(opening, db, matchId, key, reason, limit);
    hide RefundTx, ListRefundable, Reaches, RefundRows;
    ReachedAreRows(db, matchId, limit);
    BalancesFollow(opening, db, db', matchId, limit, rows, reported);
    RowsFollow(db, db', matchId, limit, rows, reported);
    hide Inv, RefundsRows;
  }

  lemma RowsFollow(
    db: Db, db': Db, matchId: Id, limit: Option<int>, rows: seq<Reservation>, reported: seq<Reservation>)
    requires RefundsRows(db, db', rows, [], reported)
    requires forall r :: r in rows <==> Reaches(db, matchId, limit, r)
    requires forall r :: Reaches(db, matchId, limit, r) ==> r in db.reservations
    requires forall i, j :: 0 <= i < j < |rows| ==> TextBefore(rows[i].id, rows[j].id)
    requires forall a :: Balance(db'.accounts, a) == Balance(db.accounts, a) + Returned(db, matchId, limit, a)
    ensures RefundedAsDue(db, db', matchId, limit, reported)
  {
    hide Reaches, TextBefore, IsRefunded, TurnsIfReached, IsReported;
    forall k | 0 <= k < |db.reservations| ensures TurnsIfReached(db, db', matchId, limit, reported, k) {
      RowFollows(db, db', matchId, limit, rows, reported, k);
    }
    forall n | 0 <= n < |reported| ensures IsReported(db, matchId, limit, reported[n]) {
      ReportFollows(db, db', matchId, limit, rows, reported, n);
    }
    ReportsInOrder(db, db', rows, reported);
  }

  lemma ReportFollows(
    db: Db, db': Db, matchId: Id, limit: Option<int>, rows: seq<Reservation>, reported: seq<Reservation>, n: nat)
    requires RefundsRows(db, db', rows, [], reported) && n < |reported|
    requires forall r :: r in rows <==> Reaches(db, matchId, limit, r)
    requires forall r :: Reaches(db, matchId, limit, r) ==> r in db.reservations
    ensures IsReported(db, matchId, limit, reported[n])
  {
    hide Reaches, IsRefunded;
    assert ReportedAt(db, db', rows[n], reported[0 + n]);
    assert rows[n] in rows;
  }

  lemma RowFollows(
    db: Db, db': Db, matchId: Id, limit: Option<int>, rows: seq<Reservation>, reported: seq<Reservation>, k: nat)
    requires RefundsRows(db, db', rows, [], reported) && k < |db.reservations|
    requires forall r :: r in rows <==> Reaches(db, matchId, limit, r)
    ensures |db'.reservations| == |db.reservations| && TurnsIfReached(db, db', matchId, limit, reported, k)
  {
    hide Reaches, IsRefunded;
    if db.reservations[k] in rows {
      var n :| 0 <= n < |rows| && rows[n] == db.reservations[k];
      assert ReportedAt(db, db', rows[n], reported[0 + n]);
    }
  }

  lemma ReportsInOrder(db: Db, db': Db, rows: seq<Reservation>, reported: seq<Reservation>)
    requires RefundsRows(db, db', rows, [], reported)
    requires forall i, j :: 0 <= i < j < |rows| ==> TextBefore(rows[i].id, rows[j].id)
    ensures forall m, n :: 0 <= m < n < |reported| ==> TextBefore(reported[m].id, reported[n].id)
  {
    hide TextBefore;
    forall m, n | 0 <= m < n < |reported| ensures TextBefore(reported[m].id, reported[n].id) {
      assert ReportedAt(db, db', rows[m], reported[0 + m]) && ReportedAt(db, db', rows[n], reported[0 + n]);
    }
  }

  /** Balances follow from the rows before and after. */
  lemma BalancesFollow(
    opening: map<Id, nat>, db: Db, db': Db, matchId: Id, limit: Option<int>, rows: seq<Reservation>,
    reported: seq<Reservation>)
    requires Inv(opening, db) && Inv(opening, db') && RefundsRows(db, db', rows, [], reported)
    requires forall r :: r in rows <==> Reaches(db, matchId, limit, r)
    ensures forall a :: Balance(db'.accounts, a) == Balance(db.accounts, a) + Returned(db, matchId, limit, a)
  {
    forall a ensures Balance(db'.accounts, a) == Balance(db.accounts, a) + Returned(db, matchId, limit, a) {
      match a
      case UserAvailable(u) => UserBalanceFollows(opening, db, db', matchId, limit, rows, reported, u);
      case MatchEscrow(m) => EscrowFollows(opening, db, db', matchId, limit, rows, reported, m);
    }
  }

  lemma UserBalanceFollows(
    opening: map<Id, nat>, db: Db, db': Db, matchId: Id, limit: Option<int>, rows: seq<Reservation>,
    reported: seq<Reservation>, u: Id)
    requires Inv(opening, db) && Inv(opening, db') && RefundsRows(db, db', rows, [], reported)
    requires forall r :: r in rows <==> Reaches(db, matchId, limit, r)
    ensures Balance(db'.accounts, UserAvailable(u))
         == Balance(db.accounts, UserAvailable(u)) + Returned(db, matchId, limit, UserAvailable(u))
  {
    hide PaidOnce, EscrowAgrees, Books, SettlementsValid, MatchesValid, RowValid;
    var d := Returns(db, matchId, limit, UserAvailable(u));
    forall k | 0 <= k < |db.reservations|
      ensures NetEffect(db'.settlements, u)(db'.reservations[k])
           == NetEffect(db.settlements, u)(db.reservations[k]) + d(db.reservations[k])
    {
      if db.reservations[k] in rows {
        RowIsUnsettled(db, k);
      }
    }
    TotalShifts(db.reservations, db'.reservations, NetEffect(db.settlements, u), NetEffect(db'.settlements, u), d);
  }

  lemma EscrowFollows(
    opening: map<Id, nat>, db: Db, db': Db, matchId: Id, limit: Option<int>, rows: seq<Reservation>,
    reported: seq<Reservation>, m: Id)
    requires Inv(opening, db) && Inv(opening, db') && RefundsRows(db, db', rows, [], reported)
    requires forall r :: r in rows <==> Reaches(db, matchId, limit, r)
    ensures Balance(db'.accounts, MatchEscrow(m))
         == Balance(db.accounts, MatchEscrow(m)) + Returned(db, matchId, limit, MatchEscrow(m))
  {
    hide PaidOnce, UsersAgree, Books, SettlementsValid, MatchesValid, RowsValid;
    var d := Returns(db, matchId, limit, MatchEscrow(m));
    forall k | 0 <= k < |db.reservations|
      ensures OpenStake(m)(db'.reservations[k]) == OpenStake(m)(db.reservations[k]) + d(db.reservations[k])
    {
    }
    TotalShifts(db.reservations, db'.reservations, OpenStake(m), OpenStake(m), d);
  }
}
