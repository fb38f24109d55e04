/**
  The rows and the journal point at each other: every stake, refund and settlement names the
  posting that moved it, and every posting belongs to exactly one of them.
 */
module MatchFinanceTrace {
  import opened Wrappers
  import opened Rows
  import opened Ledger
  import opened MatchEntryPolicies
  import opened MatchFinance
  import opened MatchFinanceInvariant
  import opened MatchFinanceTheorems

  // ----- What a posting must look like -----

  predicate Moves(p: Posting, from: AccountId, to: AccountId, amount: int) {
    && |p.entries| == 2
    && p.entries[0].account == from && p.entries[0].direction == Debit && p.entries[0].amount == amount
    && p.entries[1].account == to && p.entries[1].direction == Credit && p.entries[1].amount == amount
  }

  predicate IsStakeOf(p: Posting, r: Reservation) {
    && p.postingType == MatchEntryReservation && p.key == "ledger:" + r.key && p.fingerprint == r.fingerprint
    && p.reference == ForMatchEntry(r.matchId) && Moves(p, UserAvailable(r.userId), MatchEscrow(r.matchId), r.amount)
  }

  predicate IsRefundOf(p: Posting, r: Reservation) {
    && p.postingType == MatchEntryRefund
    && p.fingerprint == ReservationFingerprint(RefundOperation, r.matchId, r.participantId, r.userId, r.amount)
    && p.reference == ForRefund(r.id) && Moves(p, MatchEscrow(r.matchId), UserAvailable(r.userId), r.amount)
  }

  predicate IsPaymentOf(p: Posting, s: Settlement) {
    && p.postingType == (if s.settlementType == WinnerTakesAll then MatchWinnerSettlement
                         else if s.settlementType == DrawRefund then MatchDrawRefund else MatchVoidRefund)
    && p.key == "ledger:" + s.key && p.fingerprint == s.fingerprint
    && p.reference == ForSettlement(s.matchId) && p.entries != []
    && p.entries[0].account == MatchEscrow(s.matchId) && p.entries[0].direction == Debit
      && p.entries[0].amount == s.total
  }

  // ----- Rows that name their postings -----

  /** A row with a stake names the posting that took it, and a refunded one the posting that gave it back. */
  predicate RowTraced(journal: seq<Posting>, r: Reservation) {
    && (r.ledgerTransactionId.Some? <==> r.amount > 0)
    && (r.ledgerTransactionId.Some? ==>
          r.ledgerTransactionId.value < |journal| && IsStakeOf(journal[r.ledgerTransactionId.value], r))
    && (r.refundTransactionId.Some? <==> r.status == Refunded && r.settlementId.None?)
    && (r.refundTransactionId.Some? ==>
          r.refundTransactionId.value < |journal| && IsRefundOf(journal[r.refundTransactionId.value], r))
  }

  predicate SettlementTraced(journal: seq<Posting>, s: Settlement) {
    s.transactionId < |journal| && IsPaymentOf(journal[s.transactionId], s)
  }

  datatype Owner = StakeOf(row: nat) | RefundOf(row: nat) | PaymentOf(settlement: nat)

  /** The owner names the posting. */
  predicate Owns(db: Db, o: Owner, k: nat) {
    match o
    case StakeOf(i) => i < |db.reservations| && db.reservations[i].ledgerTransactionId == Some(k)
    case RefundOf(i) => i < |db.reservations| && db.reservations[i].refundTransactionId == Some(k)
    case PaymentOf(j) => j < |db.settlements| && db.settlements[j].transactionId == k
  }

  ghost predicate HasOwner(db: Db, k: nat) {
    exists o :: Owns(db, o, k)
  }

  ghost predicate Traced(db: Db) {
    && (forall i :: 0 <= i < |db.reservations| ==> RowTraced(db.journal, db.reservations[i]))
    && (forall j :: 0 <= j < |db.settlements| ==> SettlementTraced(db.journal, db.settlements[j]))
    && (forall k :: 0 <= k < |db.journal| ==> HasOwner(db, k))
    && (forall i, j :: 0 <= i < j < |db.reservations| && db.reservations[i].ledgerTransactionId.Some? ==>
          db.reservations[i].ledgerTransactionId != db.reservations[j].ledgerTransactionId)
  }

  // ----- Every step keeps the traces -----

  lemma LongerJournalTraces(journal: seq<Posting>, p: Posting, r: Reservation)
    requires RowTraced(journal, r)
    ensures RowTraced(journal + [p], r)
  {
  }

  /** A new row, alone or with the posting that took its stake. */
  lemma AddedRowIsTraced(db: Db, db': Db, r: Reservation)
    requires Traced(db) && db'.reservations == db.reservations + [r] && db'.settlements == db.settlements
    requires || (db'.journal == db.journal && r.ledgerTransactionId.None?)
             || (|db'.journal| == |db.journal| + 1 && db.journal <= db'.journal
               && r.ledgerTransactionId == Some(|db.journal|))
    requires RowTraced(db'.journal, r)
    ensures Traced(db')
  {
    hide IsStakeOf, IsRefundOf, IsPaymentOf;
    forall i | 0 <= i < |db'.reservations| ensures RowTraced(db'.journal, db'.reservations[i]) {
      if i < |db.reservations| {
        assert RowTraced(db.journal, db.reservations[i]);
      }
    }
    forall j | 0 <= j < |db'.settlements| ensures SettlementTraced(db'.journal, db'.settlements[j]) {
      assert SettlementTraced(db.journal, db.settlements[j]);
    }
    forall k | 0 <= k < |db'.journal| ensures HasOwner(db', k) {
      if k < |db.journal| {
        assert HasOwner(db, k);
        var o :| Owns(db, o, k);
        assert Owns(db', o, k);
      } else {
        assert Owns(db', StakeOf(|db.reservations|), k);
      }
    }
    forall i, j | 0 <= i < j < |db'.reservations| && db'.reservations[i].ledgerTransactionId.Some?
      ensures db'.reservations[i].ledgerTransactionId != db'.reservations[j].ledgerTransactionId
    {
      assert RowTraced(db.journal, db.reservations[i]);
    }
  }

  lemma ReserveIsTraced(db: Db, matchId: Id, userId: Id, key: string, now: int, newId: Id)
    requires Traced(db)
    ensures Traced(Committed(db, ReserveTx(db, matchId, userId, key, now, newId)))
  {
    var outcome := ReserveTx(db, matchId, userId, key, now, newId);
    if outcome.Ok? && outcome.value.0 != db {
      ReservedRowIsTraced(db, matchId, userId, key, now, newId);
      hide Traced, RowTraced, ReserveTx;
      AddedRowIsTraced(db, outcome.value.0, outcome.value.1);
    }
  }

  lemma ReservedRowIsTraced(db: Db, matchId: Id, userId: Id, key: string, now: int, newId: Id)
    requires ReserveTx(db, matchId, userId, key, now, newId).Ok?
    requires ReserveTx(db, matchId, userId, key, now, newId).value.0 != db
    ensures var (db', r) := ReserveTx(db, matchId, userId, key, now, newId).value;
            && db'.reservations == db.reservations + [r] && db'.settlements == db.settlements
            && (|| (db'.journal == db.journal && r.ledgerTransactionId.None?)
                || (|db'.journal| == |db.journal| + 1 && db.journal <= db'.journal
                  && r.ledgerTransactionId == Some(|db.journal|)))
            && RowTraced(db'.journal, r)
  {
    hide ParseRequirement, FindFirst;
    RequiredExactlyWhenPositive(FindContext(db, userId, matchId).value.game.configuration);
  }

  lemma ReleaseIsTraced(db: Db, matchId: Id)
    requires Traced(db)
    ensures Traced(ReleaseTx(db, matchId))
  {
    hide IsStakeOf, IsRefundOf, IsPaymentOf;
    var db' := ReleaseTx(db, matchId);
    forall i | 0 <= i < |db'.reservations| ensures RowTraced(db'.journal, db'.reservations[i]) {
      assert RowTraced(db.journal, db.reservations[i]);
      SameForPostings(db.journal, db.reservations[i], db'.reservations[i]);
    }
    forall k | 0 <= k < |db'.journal| ensures HasOwner(db', k) {
      assert HasOwner(db, k);
      var o :| Owns(db, o, k);
      assert Owns(db', o, k);
    }
  }

  /** What a posting says of a row does not depend on the row's status. */
  lemma SameForPostings(journal: seq<Posting>, r: Reservation, r': Reservation)
    requires r' == r.(status := r'.status, refundTransactionId := r'.refundTransactionId,
                      settlementId := r'.settlementId, outcome := r'.outcome)
    ensures forall k :: 0 <= k < |journal| ==>
              IsStakeOf(journal[k], r) == IsStakeOf(journal[k], r')
                && IsRefundOf(journal[k], r) == IsRefundOf(journal[k], r')
  {
  }

  /** A reserved row that is marked refunded with the posting that refunded it. */
  lemma RefundedRowIsTraced(db: Db, db': Db, p: Posting, k: nat)
    requires Traced(db) && k < |db.reservations|
    requires db.reservations[k].status == Reserved && db.reservations[k].settlementId.None?
    requires db'.journal == db.journal + [p] && db'.settlements == db.settlements
    requires db'.reservations
             == db.reservations[k := db.reservations[k].(status := Refunded, refundTransactionId := Some(|db.journal|))]
    requires IsRefundOf(p, db.reservations[k])
    ensures Traced(db')
  {
    var r' := db'.reservations[k];
    forall i | 0 <= i < |db'.reservations| ensures RowTraced(db'.journal, db'.reservations[i]) {
      assert RowTraced(db.journal, db.reservations[i]);
      LongerJournalTraces(db.journal, p, db.reservations[i]);
      SameForPostings(db'.journal, db.reservations[i], db'.reservations[i]);
    }
    hide IsStakeOf, IsRefundOf, IsPaymentOf;
    forall j | 0 <= j < |db'.settlements| ensures SettlementTraced(db'.journal, db'.settlements[j]) {
      assert SettlementTraced(db.journal, db.settlements[j]);
    }
    assert RowTraced(db.journal, db.reservations[k]);
    forall n | 0 <= n < |db'.journal| ensures HasOwner(db', n) {
      if n < |db.journal| {
        assert HasOwner(db, n);
        var o :| Owns(db, o, n);
        assert Owns(db', o, n);
      } else {
        assert Owns(db', RefundOf(k), n);
      }
    }
  }

  /** The posting of a refund moves the amount between the accounts the stored row names. */
  lemma RefundEntries(db: Db, reservationId: Id, amount: int, key: string, fingerprint: Fingerprint)
    requires PostRefund(db, reservationId, amount, key, fingerprint).Ok?
    ensures var row := FindFirst(db.reservations, WithId(reservationId));
            var posted := PostRefund(db, reservationId, amount, key, fingerprint).value.0;
            && row.Some? && row.value.escrowAccountId.Some? && row.value.ledgerAccountId.Some?
            && |posted.journal| == |db.journal| + 1 && posted.journal == db.journal + [posted.journal[|db.journal|]]
            && posted.settlements == db.settlements
            && var p := posted.journal[|db.journal|];
            && p.postingType == MatchEntryRefund && p.fingerprint == fingerprint
              && p.reference == ForRefund(reservationId)
            && Moves(p, row.value.escrowAccountId.value, row.value.ledgerAccountId.value, amount)
  {
    hide FindFirst;
  }

  /** The posting of one refund. */
  lemma RefundPosting(db: Db, key: string, k: nat)
    requires RowsValid(db) && k < |db.reservations| && RefundOne(db, key, db.reservations[k]).Ok?
    ensures var row := db.reservations[k];
            var next := RefundOne(db, key, row).value.0;
            && row.status == Reserved && row.settlementId.None?
            && |next.journal| == |db.journal| + 1 && next.journal == db.journal + [next.journal[|db.journal|]]
            && next.settlements == db.settlements
            && next.reservations
               == db.reservations[k := row.(status := Refunded, refundTransactionId := Some(|db.journal|))]
            && IsRefundOf(next.journal[|db.journal|], row)
  {
    hide RefundOne, FindFirst, PostRefund, RowsValid, RowValid, Moves;
    var row := db.reservations[k];
    RefundOneChangesOneRow(db, key, k);
    RefundEntries(db, row.id, row.amount, RefundKey(key, row.id), RefundFingerprint(row));
    RowIsUnsettled(db, k);
    AllAccountsValid(db);
    assert AccountsValid(db, row);
  }

  lemma {:induction false} RefundRowsAreTraced(
    opening: map<Id, nat>, db: Db, key: string, rows: seq<Reservation>, done: seq<Reservation>)
    requires Inv(opening, db) && Traced(db) && RowsFrom(db, rows)
    ensures Traced(Committed(db, RefundRows(db, key, rows, done)))
    decreases rows
  {
    hide Inv, RefundOne, Traced;
    if rows != [] {
      RefundRowsUnfold(db, key, rows, done);
      if RefundOne(db, key, rows[0]).Ok? {
        RefundRoundKeepsInvariant(opening, db, key, rows);
        RefundRoundIsTraced(opening, db, key, rows);
        var (next, marked) := RefundOne(db, key, rows[0]).value;
        RefundRowsAreTraced(opening, next, key, rows[1..], done + [marked]);
      }
    }
  }

  lemma RefundRoundIsTraced(opening: map<Id, nat>, db: Db, key: string, rows: seq<Reservation>)
    requires Inv(opening, db) && Traced(db) && RowsFrom(db, rows) && rows != []
    requires RefundOne(db, key, rows[0]).Ok?
    ensures Traced(RefundOne(db, key, rows[0]).value.0)
  {
    hide RefundOne, Traced, IsRefundOf, RowsValid;
    assert rows[0] in db.reservations;
    var k :| 0 <= k < |db.reservations| && db.reservations[k] == rows[0];
    RefundPosting(db, key, k);
    var next := RefundOne(db, key, rows[0]).value.0;
    RefundedRowIsTraced(db, next, next.journal[|db.journal|], k);
  }

  /** A settlement with its posting, and the two rows it finishes. */
  lemma SettlementIsTraced(
    db: Db, posted: Db, p: Posting, matchId: Id, rows: seq<Reservation>, s: Settlement, winner: Option<Id>, i: nat,
      j: nat)
    requires Traced(db) && IsPair(db, matchId, rows, i, j)
    requires posted.journal == db.journal + [p] && posted.reservations == db.reservations
             && posted.settlements == db.settlements
    requires s.transactionId == |db.journal| && IsPaymentOf(p, s)
    ensures Traced(AfterSettlement(posted, rows, s, winner, i, j))
  {
    var db' := AfterSettlement(posted, rows, s, winner, i, j);
    forall n | 0 <= n < |db'.reservations| ensures RowTraced(db'.journal, db'.reservations[n]) {
      assert RowTraced(db.journal, db.reservations[n]);
      LongerJournalTraces(db.journal, p, db.reservations[n]);
      SameForPostings(db'.journal, db.reservations[n], db'.reservations[n]);
    }
    hide IsStakeOf, IsRefundOf, IsPaymentOf;
    forall n | 0 <= n < |db'.settlements| ensures SettlementTraced(db'.journal, db'.settlements[n]) {
      if n < |db.settlements| {
        assert SettlementTraced(db.journal, db.settlements[n]);
      }
    }
    forall k | 0 <= k < |db'.journal| ensures HasOwner(db', k) {
      if k < |db.journal| {
        assert HasOwner(db, k);
        var o :| Owns(db, o, k);
        assert Owns(db', o, k);
      } else {
        assert Owns(db', PaymentOf(|db.settlements|), k);
      }
    }
  }

  /** The posting of a settlement. */
  lemma PaymentPosting(
    db: Db, matchId: Id, settlementType: SettlementType, winner: Option<Id>, rows: seq<Reservation>, key: string,
      fingerprint: Fingerprint)
    requires PostSettlement(db, matchId, settlementType, winner, rows, key, fingerprint).Ok?
    ensures var (posted, t) := PostSettlement(db, matchId, settlementType, winner, rows, key, fingerprint).value;
            && t == |db.journal| && |posted.journal| == t + 1 && posted.journal == db.journal + [posted.journal[t]]
            && posted.reservations == db.reservations && posted.settlements == db.settlements
            && rows != [] && rows[0].escrowAccountId.Some?
            && var p := posted.journal[t];
            && p.postingType == PostingTypeOf(settlementType) && p.key == key && p.fingerprint == fingerprint
            && p.reference == ForSettlement(matchId) && p.entries != []
            && p.entries[0].account == rows[0].escrowAccountId.value && p.entries[0].direction == Debit
            && p.entries[0].amount == Total(rows, AmountOf())
  {
    hide CreditAll, Recipients, Total, PayableFrom;
  }

  lemma SettleIsTraced(opening: map<Id, nat>, db: Db, matchId: Id, key: string, now: int, delaySeconds: int, newId: Id)
    requires Inv(opening, db) && Traced(db)
    ensures Traced(Committed(db, SettleTx(db, matchId, key, now, delaySeconds, newId)))
  {
    var outcome := SettleTx(db, matchId, key, now, delaySeconds, newId);
    if outcome.Ok? && FindFirst(db.settlements, SettlementWithKey(key)).None? {
      var i, j := SettleRecordsPair(db, matchId, key, now, delaySeconds, newId);
      SettlePosts(db, matchId, key, now, delaySeconds, newId);
      var s := outcome.value.1;
      var c := DecisionContext(db, matchId, delaySeconds);
      var posted := PostSettlement(db, matchId, s.settlementType, c.winner, c.reservations, LedgerKey(key),
          s.fingerprint).value.0;
      assert RowValid(db, db.reservations[i]);
      PaymentPosting(db, matchId, s.settlementType, c.winner, c.reservations, LedgerKey(key), s.fingerprint);
      hide Traced, SettleTx, PostSettlement, DecisionContext;
      SettlementIsTraced(db, posted, posted.journal[|db.journal|], matchId, c.reservations, s, c.winner, i, j);
    }
  }

  /** The settlement row names its posting, key, fingerprint and total. */
  lemma SettlePosts(db: Db, matchId: Id, key: string, now: int, delaySeconds: int, newId: Id)
    requires SettleTx(db, matchId, key, now, delaySeconds, newId).Ok?
    requires FindFirst(db.settlements, SettlementWithKey(key)).None? && matchId in db.matches
    ensures var s := SettleTx(db, matchId, key, now, delaySeconds, newId).value.1;
            var c := DecisionContext(db, matchId, delaySeconds);
            && s.transactionId == |db.journal| && s.key == key && s.matchId == matchId
            && s.total == Total(c.reservations, AmountOf())
  {
    hide CreditAll, Recipients, Total, PayableFrom, Applies, Eligible;
  }

  lemma StepIsTraced(opening: map<Id, nat>, db: Db, step: Step)
    requires Inv(opening, db) && Traced(db)
    ensures Traced(Next(db, step))
  {
    hide Inv, Traced, ReserveTx, RefundTx, SettleTx, ReleaseTx;
    match step
    case Reserve(matchId, userId, key, now, newId) => ReserveIsTraced(db, matchId, userId, key, now, newId);
    case Release(matchId) => ReleaseIsTraced(db, matchId);
    case Refund(matchId, key, reason, limit) => RefundIsTraced(opening, db, matchId, key, reason, limit);
    case Settle(matchId, key, now, delaySeconds, newId) =>
        SettleIsTraced(opening, db, matchId, key, now, delaySeconds, newId);
    case _ => OtherTablesAreTraced(db, Next(db, step));
  }

  lemma RefundIsTraced(opening: map<Id, nat>, db: Db, matchId: Id, key: string, reason: RefundReason,
      limit: Option<int>)
    requires Inv(opening, db) && Traced(db)
    ensures Traced(Committed(db, RefundTx(db, matchId, key, reason, limit)))
  {
    hide Traced, ListRefundable;
    ListedRowsAreFromTable(db, matchId, Clamp(limit));
    RefundRowsAreTraced(opening, db, key, ListRefundable(db, matchId, Clamp(limit)), []);
  }

  lemma OtherTablesAreTraced(db: Db, db': Db)
    requires Traced(db) && db'.reservations == db.reservations && db'.settlements == db.settlements
             && db'.journal == db.journal
    ensures Traced(db')
  {
    hide RowTraced, SettlementTraced;
    forall k | 0 <= k < |db'.journal| ensures HasOwner(db', k) {
      assert HasOwner(db, k);
      var o :| Owns(db, o, k);
      assert Owns(db', o, k);
    }
  }

  lemma {:induction false} RunIsTraced(opening: map<Id, nat>, db: Db, steps: seq<Step>)
    requires Inv(opening, db) && Traced(db)
    ensures Traced(Run(db, steps))
  {
    hide Inv, Traced, Next;
    if steps == [] {
    } else {
      var init := steps[..|steps| - 1];
      RunIsTraced(opening, db, init);
      RunKeepsInvariant(opening, db, init);
      StepIsTraced(opening, Run(db, init), steps[|steps| - 1]);
    }
  }

  // ----- The correspondence -----

  /**
    After every run every row and settlement names the posting that moved its points: its type,
    key, fingerprint, reference and entries.
   */
  lemma RowsNameTheirPostings(opening: map<Id, nat>, steps: seq<Step>)
    ensures var db := After(opening, steps);
            && (forall i :: 0 <= i < |db.reservations| ==> RowTraced(db.journal, db.reservations[i]))
            && (forall j :: 0 <= j < |db.settlements| ==> SettlementTraced(db.journal, db.settlements[j]))
  {
    AfterIsTraced(opening, steps);
    hide Run;
  }

  lemma AfterIsTraced(opening: map<Id, nat>, steps: seq<Step>)
    ensures Traced(After(opening, steps)) && Inv(opening, After(opening, steps))
  {
    hide Inv;
    InitialHolds(opening);
    RunIsTraced(opening, Initial(opening), steps);
    ReachableHolds(opening, steps);
  }

  /** After every run every posting of the journal belongs to exactly one stake, refund or settlement. */
  lemma PostingsHaveOneOwner(opening: map<Id, nat>, steps: seq<Step>, k: nat)
    requires k < |After(opening, steps).journal|
    ensures exists o :: Owns(After(opening, steps), o, k) && forall other :: Owns(After(opening, steps), other, k) ==>
            other == o
  {
    AfterIsTraced(opening, steps);
    var db := After(opening, steps);
    hide Run;
    assert HasOwner(db, k);
    var o :| Owns(db, o, k);
    forall other | Owns(db, other, k) ensures other == o {
      OwnersAgree(opening, db, o, other, k);
    }
  }

  lemma OwnersAgree(opening: map<Id, nat>, db: Db, o: Owner, other: Owner, k: nat)
    requires Inv(opening, db) && Traced(db) && k < |db.journal| && Owns(db, o, k) && Owns(db, other, k)
    ensures o == other
  {
    hide PaidOnce, EscrowAgrees, UsersAgree, Books, MatchesValid, Moves;
    OwnerShows(db, o, k);
    OwnerShows(db, other, k);
    hide RowTraced, SettlementTraced, RowValid, SettlementValid;
  }

  /** The posting shows what kind of owner it has, and which refund or settlement. */
  lemma OwnerShows(db: Db, o: Owner, k: nat)
    requires Traced(db) && k < |db.journal| && Owns(db, o, k)
    ensures match o
            case StakeOf(_) => db.journal[k].reference.ForMatchEntry?
            case RefundOf(i) => db.journal[k].reference == ForRefund(db.reservations[i].id)
            case PaymentOf(j) => db.journal[k].reference == ForSettlement(db.settlements[j].matchId)
  {
    hide Moves, HasOwner;
    match o {
      case StakeOf(i) => assert RowTraced(db.journal, db.reservations[i]);
      case RefundOf(i) => assert RowTraced(db.journal, db.reservations[i]);
      case PaymentOf(j) => assert SettlementTraced(db.journal, db.settlements[j]);
    }
  }
}
