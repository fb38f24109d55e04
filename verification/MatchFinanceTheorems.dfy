/**
  What holds of match finance after any sequence of calls, in any order, over any users and
  matches, with match progress, wallets and account status changing in between.
 */
module MatchFinanceTheorems {
  import opened Wrappers
  import opened Rows
  import opened Ledger
  import opened MatchEntryPolicies
  import opened MatchFinance
  import opened MatchFinanceInvariant

  function After(opening: map<Id, nat>, steps: seq<Step>): Db {
    Run(Initial(opening), steps)
  }

  lemma ReachableHolds(opening: map<Id, nat>, steps: seq<Step>)
    ensures Inv(opening, After(opening, steps))
  {
    InitialHolds(opening);
    RunKeepsInvariant(opening, Initial(opening), steps);
  }

  // ----- Reconciliation -----

  function OpenAmount(): Reservation -> int {
    (r: Reservation) => if HoldsStake(r) then r.amount else 0
  }

  /** No match has more than two reservations. */
  lemma AtMostTwoRows(db: Db, matchId: Id, rows: seq<Reservation>)
    requires MatchesValid(db) && RowsValid(db)
    requires Distinct(rows)
    requires forall r :: r in rows ==> r in db.reservations && r.matchId == matchId
    ensures |rows| <= 2
  {
    if rows != [] {
      assert rows[0] in rows;
      var game := db.matches[matchId];
      var ids := seq(|rows|, i requires 0 <= i < |rows| => rows[i].participantId);
      var pool := seq(|game.participants|, i requires 0 <= i < |game.participants| => game.participants[i].id);
      forall i | 0 <= i < |rows| ensures ids[i] in pool {
        assert rows[i] in rows;
        var k :| 0 <= k < |db.reservations| && db.reservations[k] == rows[i];
        assert RowValid(db, db.reservations[k]);
        var n :| 0 <= n < |game.participants| && game.participants[n].id == rows[i].participantId
            && game.participants[n].userId == rows[i].userId;
        assert pool[n] == ids[i];
      }
      forall i, j | 0 <= i < j < |rows| ensures ids[i] != ids[j] {
        assert rows[i] in rows && rows[j] in rows;
        var k :| 0 <= k < |db.reservations| && db.reservations[k] == rows[i];
        var n :| 0 <= n < |db.reservations| && db.reservations[n] == rows[j];
        ParticipantsDiffer(db, k, n);
      }
      DistinctFromPool(ids, pool);
      AtMostTwoSides(game.participants);
    }
  }

  lemma ReconciliationSum(db: Db, matchId: Id)
    requires MatchesValid(db) && RowsValid(db)
    ensures ReconcileQuery(db, matchId).expectedBalance == Total(db.reservations, OpenStake(matchId))
  {
    var found := Filter(db.reservations, OfMatch(matchId));
    var rows := SortedBy(found, ByCreation());
    RowsOfMatch(db, matchId, ByCreation());
    AtMostTwoRows(db, matchId, rows);
    assert ListMatch(db, matchId, 100) == rows;
    TotalFiltered(rows, IsOpen(), AmountOf(), OpenAmount());
    TotalSorted(found, ByCreation(), OpenAmount());
    TotalFiltered(db.reservations, OfMatch(matchId), OpenAmount(), OpenStake(matchId));
  }

  /** After every run the reconciliation of every match answers consistent: escrow equals open stakes. */
  lemma EscrowAlwaysReconciles(opening: map<Id, nat>, steps: seq<Step>, matchId: Id)
    ensures var db := After(opening, steps);
            var answer := ReconcileQuery(db, matchId);
            && answer.consistent
            && answer.escrowBalance == Balance(db.accounts, MatchEscrow(matchId))
              == Total(db.reservations, OpenStake(matchId))
  {
    ReachableHolds(opening, steps);
    ReconciliationSum(After(opening, steps), matchId);
  }

  // ----- Users -----

  /** A user's balance after every run, from the opening balance and their rows alone. */
  lemma UserBalanceClosedForm(opening: map<Id, nat>, steps: seq<Step>, userId: Id)
    ensures var db := After(opening, steps);
            Balance(db.accounts, UserAvailable(userId)) ==
            OpeningBalance(opening, UserAvailable(userId)) + Total(db.reservations, NetEffect(db.settlements, userId))
  {
    ReachableHolds(opening, steps);
  }

  /**
    The two participants of a settled match: with one winner, the winner received twice the stake and
    the loser nothing; otherwise each received the stake. Either way the receipts add up to the total.
   */
  lemma ReceiptsAddUp(opening: map<Id, nat>, steps: seq<Step>, k: nat, i: nat, j: nat)
    requires k < |After(opening, steps).settlements|
    requires i < |After(opening, steps).reservations| && j < |After(opening, steps).reservations| && i != j
    requires After(opening, steps).reservations[i].matchId == After(opening, steps).settlements[k].matchId
    requires After(opening, steps).reservations[j].matchId == After(opening, steps).settlements[k].matchId
    ensures var db := After(opening, steps);
            var s, a, b := db.settlements[k], db.reservations[i], db.reservations[j];
            var x, y := ReceivedAmount(s, a.participantId, a.amount), ReceivedAmount(s, b.participantId, b.amount);
            && a.settlementId == b.settlementId == Some(s.id)
            && a.amount == b.amount && s.total == 2 * a.amount && x + y == s.total
            && if s.settlementType == WinnerTakesAll then
                 (s.winner == Some(a.participantId) && x == 2 * a.amount && y == 0)
                   || (s.winner == Some(b.participantId) && x == 0 && y == 2 * a.amount)
               else x == y == a.amount
  {
    ReachableHolds(opening, steps);
    ReceiptsOf(After(opening, steps), k, i, j);
  }

  lemma ReceiptsOf(db: Db, k: nat, i: nat, j: nat)
    requires MatchesValid(db) && RowsValid(db) && SettlementsValid(db)
    requires k < |db.settlements| && i < |db.reservations| && j < |db.reservations| && i != j
    requires db.reservations[i].matchId == db.reservations[j].matchId == db.settlements[k].matchId
    ensures var s, a, b := db.settlements[k], db.reservations[i], db.reservations[j];
            && a.settlementId == b.settlementId == Some(s.id)
            && a.amount == b.amount && s.total == 2 * a.amount && a.participantId != b.participantId
            && (s.settlementType == WinnerTakesAll ==>
                  s.distributed == s.total && (s.winner == Some(a.participantId) || s.winner == Some(b.participantId)))
  {
    var s, a, b := db.settlements[k], db.reservations[i], db.reservations[j];
    assert SettlementValid(db, s);
    assert RowValid(db, a) && RowValid(db, b);
    ParticipantsDiffer(db, i, j);
    PairIsAllParticipants(db, a, b);
    SettledRowOf(db, s, i);
    SettledRowOf(db, s, j);
  }

  /** Every reservation of a settled match is finished by that settlement. */
  lemma SettledRowOf(db: Db, s: Settlement, i: nat)
    requires RowsValid(db) && SettlementValid(db, s)
    requires i < |db.reservations| && db.reservations[i].matchId == s.matchId
    ensures db.reservations[i].settlementId == Some(s.id)
  {
    var r := db.reservations[i];
    assert RowValid(db, r);
    var ps := db.matches[s.matchId].participants;
    var n :| 0 <= n < |ps| && ps[n].id == r.participantId && ps[n].userId == r.userId;
    assert SettledEntry(db, s, ps[n].id);
    var m :| 0 <= m < |db.reservations| && db.reservations[m].matchId == s.matchId
             && db.reservations[m].participantId == ps[n].id && db.reservations[m].settlementId == Some(s.id);
    assert m == i;
  }

  // ----- Conservation and replay -----

  /**
    After every run every posting is balanced, replaying all entries from the opening balances meets
    every recorded and every stored balance, none negative, and the accounts hold what they opened with.
   */
  lemma JournalReplaysAndConserves(opening: map<Id, nat>, steps: seq<Step>)
    ensures var db := After(opening, steps);
            var ids := db.accounts.Keys;
            && (forall k :: 0 <= k < |db.journal| ==> Balanced(db.journal[k]))
            && Replays(opening, Flatten(db.journal))
            && (forall a :: Balance(db.accounts, a) == OpeningBalance(opening, a) + Net(Flatten(db.journal), a))
            && SumOver(ids, BalanceOf(db.accounts)) == SumOver(ids, OpeningOf(opening))
            && (forall a | a in ids :: 0 <= Balance(db.accounts, a) <= SumOver(ids, OpeningOf(opening)))
  {
    ReachableHolds(opening, steps);
    var db := After(opening, steps);
    BooksConserve(opening, db.accounts, db.journal, db.accounts.Keys);
  }

  /** No single step of a run changes the sum of all balances. */
  lemma StepConserves(opening: map<Id, nat>, steps: seq<Step>, step: Step)
    ensures var before, after := After(opening, steps), After(opening, steps + [step]);
            var ids := before.accounts.Keys + after.accounts.Keys;
            SumOver(ids, BalanceOf(before.accounts)) == SumOver(ids, BalanceOf(after.accounts))
  {
    var before, after := After(opening, steps), After(opening, steps + [step]);
    var ids := before.accounts.Keys + after.accounts.Keys;
    ReachableHolds(opening, steps);
    ReachableHolds(opening, steps + [step]);
    BooksConserve(opening, before.accounts, before.journal, ids);
    BooksConserve(opening, after.accounts, after.journal, ids);
  }

  // ----- Paid out once -----

  /** Over a whole run a stake leaves escrow once if its row is refunded or settled, and otherwise never. */
  lemma StakePaidOutOnce(opening: map<Id, nat>, steps: seq<Step>, k: nat)
    requires k < |After(opening, steps).reservations|
    ensures var db := After(opening, steps);
            var r := db.reservations[k];
            Payouts(db.journal, r) == if r.status == Refunded || r.status == Settled then 1 else 0
  {
    ReachableHolds(opening, steps);
  }

  /** A row changes in status, payout and outcome alone; it is reserved only at first, and final once paid out. */
  predicate RowExtends(r: Reservation, r': Reservation) {
    && r' == r.(status := r'.status, refundTransactionId := r'.refundTransactionId,
                settlementId := r'.settlementId, outcome := r'.outcome)
    && (r.status != Reserved ==> r'.status != Reserved)
    && (!HoldsStake(r) ==> r' == r)
  }

  /**
    What later steps may never change: postings, settlements, whom a row belongs to, rows that were
    paid out, participants.
   */
  ghost predicate Extends(db: Db, db': Db) {
    && db.journal <= db'.journal
    && db.settlements <= db'.settlements
    && |db.reservations| <= |db'.reservations|
    && (forall k :: 0 <= k < |db.reservations| ==> RowExtends(db.reservations[k], db'.reservations[k]))
    && (forall m :: m in db.matches ==> m in db'.matches && db'.matches[m].participants == db.matches[m].participants)
  }

  lemma ExtendsTransitive(a: Db, b: Db, c: Db)
    requires Extends(a, b) && Extends(b, c)
    ensures Extends(a, c)
  {
  }

  lemma RefundOneExtends(db: Db, key: string, row: Reservation)
    requires RefundOne(db, key, row).Ok?
    ensures Extends(db, RefundOne(db, key, row).value.0)
  {
    hide FindFirst;
  }

  lemma {:induction false} RefundRowsExtend(db: Db, key: string, rows: seq<Reservation>, done: seq<Reservation>)
    ensures Extends(db, Committed(db, RefundRows(db, key, rows, done)))
    decreases rows
  {
    hide Extends, RefundOne;
    if rows == [] || RefundOne(db, key, rows[0]).Err? {
      ExtendsItself(db);
      RefundStops(db, key, rows, done);
    } else {
      RefundRowsUnfold(db, key, rows, done);
      RefundOneExtends(db, key, rows[0]);
      var (next, marked) := RefundOne(db, key, rows[0]).value;
      RefundRowsExtend(next, key, rows[1..], done + [marked]);
      ExtendsCommitted(db, next, RefundRows(next, key, rows[1..], done + [marked]));
    }
  }

  lemma ExtendsItself(db: Db)
    ensures Extends(db, db)
  {
  }

  /** Nothing is committed when there is nothing to refund or the first refund fails. */
  lemma RefundStops(db: Db, key: string, rows: seq<Reservation>, done: seq<Reservation>)
    requires rows == [] || RefundOne(db, key, rows[0]).Err?
    ensures Committed(db, RefundRows(db, key, rows, done)) == db
  {
  }

  lemma ExtendsCommitted<R>(db: Db, next: Db, outcome: Result<(Db, R), FinanceError>)
    requires Extends(db, next) && Extends(next, Committed(next, outcome))
    ensures Extends(db, Committed(db, outcome))
  {
    if outcome.Ok? {
      ExtendsTransitive(db, next, outcome.value.0);
    } else {
      ExtendsItself(db);
    }
  }

  lemma RefundExtends(db: Db, matchId: Id, key: string, reason: RefundReason, limit: Option<int>)
    ensures Extends(db, Committed(db, RefundTx(db, matchId, key, reason, limit)))
  {
    RefundRowsExtend(db, key, ListRefundable(db, matchId, Clamp(limit)), []);
  }

  lemma PairExtends(
    db: Db, posted: Db, p: Posting, matchId: Id, rows: seq<Reservation>, s: Settlement, winner: Option<Id>, i: nat,
    j: nat)
    requires IsPair(db, matchId, rows, i, j)
    requires IsPayout(db, posted, p, s.settlementType, winner, rows[0], rows[1])
    ensures Extends(db, AfterSettlement(posted, rows, s, winner, i, j))
  {
  }

  lemma SettleExtends(db: Db, matchId: Id, key: string, now: int, delaySeconds: int, newId: Id)
    requires MatchesValid(db) && RowsValid(db) && EscrowAgrees(db)
    ensures Extends(db, Committed(db, SettleTx(db, matchId, key, now, delaySeconds, newId)))
  {
    var outcome := SettleTx(db, matchId, key, now, delaySeconds, newId);
    if outcome.Ok? && FindFirst(db.settlements, SettlementWithKey(key)).None? {
      var i, j := SettleRecordsPair(db, matchId, key, now, delaySeconds, newId);
      var s := outcome.value.1;
      var c := DecisionContext(db, matchId, delaySeconds);
      var posted := PostSettlement(db, matchId, s.settlementType, c.winner, c.reservations, LedgerKey(key),
          s.fingerprint).value.0;
      PairExtends(db, posted, posted.journal[|db.journal|], matchId, c.reservations, s, c.winner, i, j);
    }
  }

  lemma PostReservationExtends(
    db: Db, matchId: Id, userId: Id, amount: int, key: string, fingerprint: Fingerprint)
    requires PostReservation(db, matchId, userId, amount, key, fingerprint).Ok?
    ensures var posted := PostReservation(db, matchId, userId, amount, key, fingerprint).value.0;
            && db.journal <= posted.journal && posted.settlements == db.settlements
            && posted.reservations == db.reservations && posted.matches == db.matches
  {
  }

  lemma ReserveExtends(db: Db, matchId: Id, userId: Id, key: string, now: int, newId: Id)
    ensures Extends(db, Committed(db, ReserveTx(db, matchId, userId, key, now, newId)))
  {
    hide ParseRequirement, FindFirst, FindContext, PostReservation;
    if FindContext(db, userId, matchId).Some? && ReserveTx(db, matchId, userId, key, now, newId).Ok? {
      var Entrant(game, p) := FindContext(db, userId, matchId).value;
      var amount := ParseRequirement(game.configuration).value.amount;
      var fingerprint := ReservationFingerprint(ReserveOperation, matchId, p.id, p.userId, amount);
      if PostReservation(db, matchId, p.userId, amount, key, fingerprint).Ok? {
        PostReservationExtends(db, matchId, p.userId, amount, key, fingerprint);
      }
    }
  }

  lemma StepExtends(opening: map<Id, nat>, db: Db, step: Step)
    requires Inv(opening, db)
    ensures Extends(db, Next(db, step))
  {
    hide RowsValid, SettlementsValid, PaidOnce, EscrowAgrees, UsersAgree, Books, ReserveTx, SettleTx, RefundTx;
    match step
    case Refund(matchId, key, reason, limit) => RefundExtends(db, matchId, key, reason, limit);
    case Settle(matchId, key, now, delaySeconds, newId) => SettleExtends(db, matchId, key, now, delaySeconds, newId);
    case Reserve(matchId, userId, key, now, newId) => ReserveExtends(db, matchId, userId, key, now, newId);
    case Release(_) =>
    case AddMatch(_, _) => EnvironmentMovesNothing(db, step);
    case ChangeMatch(_, _) => EnvironmentMovesNothing(db, step);
    case SetWallet(_, _) => EnvironmentMovesNothing(db, step);
    case SetUserAccount(_, _) => EnvironmentMovesNothing(db, step);
  }

  lemma {:induction false} RunExtends(opening: map<Id, nat>, db: Db, more: seq<Step>)
    requires Inv(opening, db)
    ensures Extends(db, Run(db, more))
  {
    hide Inv, Next;
    if more == [] {
    } else {
      var init := more[..|more| - 1];
      RunExtends(opening, db, init);
      RunKeepsInvariant(opening, db, init);
      StepExtends(opening, Run(db, init), more[|more| - 1]);
      ExtendsTransitive(db, Run(db, init), Run(db, more));
    }
  }

  lemma {:induction false} RunConcat(db: Db, steps: seq<Step>, more: seq<Step>)
    ensures Run(db, steps + more) == Run(Run(db, steps), more)
  {
    if more == [] {
      assert steps + more == steps;
    } else {
      RunConcat(db, steps, more[..|more| - 1]);
      assert (steps + more)[..|steps + more| - 1] == steps + more[..|more| - 1];
    }
  }

  /** A refunded or settled reservation stays exactly as it is, whatever is called afterwards with any key. */
  lemma PaidOutStaysPaidOut(opening: map<Id, nat>, steps: seq<Step>, more: seq<Step>, k: nat)
    requires k < |After(opening, steps).reservations|
    requires After(opening, steps).reservations[k].status in {Refunded, Settled}
    ensures k < |After(opening, steps + more).reservations|
    ensures After(opening, steps + more).reservations[k] == After(opening, steps).reservations[k]
    ensures Payouts(After(opening, steps + more).journal, After(opening, steps).reservations[k]) == 1
  {
    hide Inv, Run;
    RunOnExtends(opening, steps, more);
    PaidOutCount(opening, After(opening, steps + more), k);
  }

  lemma PaidOutCount(opening: map<Id, nat>, db: Db, k: nat)
    requires Inv(opening, db) && k < |db.reservations|
    ensures Payouts(db.journal, db.reservations[k]) == if db.reservations[k].status in {Refunded, Settled} then 1 else 0
  {
  }

  lemma RunOnExtends(opening: map<Id, nat>, steps: seq<Step>, more: seq<Step>)
    ensures Inv(opening, After(opening, steps)) && Inv(opening, After(opening, steps + more))
    ensures Extends(After(opening, steps), After(opening, steps + more))
  {
    hide Inv;
    ReachableHolds(opening, steps);
    ReachableHolds(opening, steps + more);
    RunConcat(Initial(opening), steps, more);
    RunExtends(opening, After(opening, steps), more);
  }

  /** Once a match is settled its escrow is empty, after the settlement and after everything that follows. */
  lemma SettledEscrowStaysEmpty(opening: map<Id, nat>, steps: seq<Step>, more: seq<Step>, k: nat)
    requires k < |After(opening, steps).settlements|
    ensures Balance(After(opening, steps + more).accounts, MatchEscrow(After(opening, steps).settlements[k].matchId))
            == 0
  {
    hide Inv, Run;
    RunOnExtends(opening, steps, more);
    SettledEscrowIsEmpty(opening, After(opening, steps + more), k);
  }

  lemma SettledEscrowIsEmpty(opening: map<Id, nat>, db: Db, k: nat)
    requires Inv(opening, db) && k < |db.settlements|
    ensures Balance(db.accounts, MatchEscrow(db.settlements[k].matchId)) == 0
  {
    hide Books, UsersAgree, PaidOnce, MatchesValid;
    var s := db.settlements[k];
    assert SettlementValid(db, s);
    forall i | 0 <= i < |db.reservations| ensures OpenStake(s.matchId)(db.reservations[i]) == 0 {
      if db.reservations[i].matchId == s.matchId {
        SettledRowOf(db, s, i);
        assert RowValid(db, db.reservations[i]);
      }
    }
    TotalZero(db.reservations, OpenStake(s.matchId));
  }

  // ----- Repeated calls -----

  /**
    Whoever has once reserved in a match can reserve there again at any later time, under any key:
    nothing is written.
   */
  lemma ReservingAgainMovesNothing(
    opening: map<Id, nat>, steps: seq<Step>, more: seq<Step>, k: nat, key: string, now: int, newId: Id)
    requires k < |After(opening, steps).reservations|
    ensures var r := After(opening, steps).reservations[k];
            var later := After(opening, steps + more);
            Next(later, Reserve(r.matchId, r.userId, key, now, newId)) == later
  {
    hide Inv, Run;
    RunOnExtends(opening, steps, more);
    var r, later := After(opening, steps).reservations[k], After(opening, steps + more);
    assert later.reservations[k].matchId == r.matchId && later.reservations[k].participantId == r.participantId;
    EntrantOfRow(opening, later, k);
    ExistingReservationIsKept(later, k, key, now, newId);
  }

  /** The user of a row is found as the participant of the row. */
  lemma EntrantOfRow(opening: map<Id, nat>, db: Db, k: nat)
    requires Inv(opening, db) && k < |db.reservations|
    ensures var r := db.reservations[k];
            var found := FindContext(db, r.userId, r.matchId);
            found.Some? && found.value.participant.id == r.participantId
  {
    hide SettlementsValid, PaidOnce, EscrowAgrees, UsersAgree, Books;
    var r := db.reservations[k];
    assert RowValid(db, r);
    var ps := db.matches[r.matchId].participants;
    var n :| 0 <= n < |ps| && ps[n].id == r.participantId && ps[n].userId == r.userId;
    assert OfUser(r.userId)(ps[n]);
    var found := FindFirst(ps, OfUser(r.userId)).value;
    var m :| 0 <= m < |ps| && ps[m] == found;
    assert m == n;
  }

  lemma ExistingReservationIsKept(db: Db, k: nat, key: string, now: int, newId: Id)
    requires k < |db.reservations|
    requires var r := db.reservations[k];
             var found := FindContext(db, r.userId, r.matchId);
             found.Some? && found.value.participant.id == r.participantId
    ensures Next(db, Reserve(db.reservations[k].matchId, db.reservations[k].userId, key, now, newId)) == db
  {
    hide PostReservation, ParseRequirement;
    var r := db.reservations[k];
    assert OfParticipant(r.matchId, r.participantId)(db.reservations[k]);
  }

  lemma {:induction false} FilterNone<T>(rows: seq<T>, p: T -> bool)
    requires forall i :: 0 <= i < |rows| ==> !p(rows[i])
    ensures Filter(rows, p) == []
  {
    if rows != [] {
      FilterNone(rows[1..], p);
    }
  }

  /**
    A reservation once released, refunded or settled is never touched by a refund again, whatever
    its key, reason and limit.
   */
  lemma RefundsTouchOnlyReserved(
    opening: map<Id, nat>, steps: seq<Step>, more: seq<Step>, k: nat, matchId: Id, key: string, reason: RefundReason,
      limit: Option<int>)
    requires k < |After(opening, steps).reservations| && After(opening, steps).reservations[k].status != Reserved
    ensures var later := After(opening, steps + more);
            var refunded := Next(later, Refund(matchId, key, reason, limit));
            k < |later.reservations| == |refunded.reservations| && refunded.reservations[k] == later.reservations[k]
  {
    hide Inv, Run;
    RunOnExtends(opening, steps, more);
    var later := After(opening, steps + more);
    RefundRowsKeepOthers(later, key, ListRefundable(later, matchId, Clamp(limit)), [], k);
  }

  lemma {:induction false} RefundRowsKeepOthers(db: Db, key: string, rows: seq<Reservation>, done: seq<Reservation>,
      k: nat)
    requires k < |db.reservations| && db.reservations[k].status != Reserved
    ensures var db' := Committed(db, RefundRows(db, key, rows, done));
            |db'.reservations| == |db.reservations| && db'.reservations[k] == db.reservations[k]
    decreases rows
  {
    if rows != [] && RefundOne(db, key, rows[0]).Ok? {
      var (next, marked) := RefundOne(db, key, rows[0]).value;
      RefundRowsKeepOthers(next, key, rows[1..], done + [marked], k);
    }
  }

  /** Every participant has entered the match, and no stake of it can be refunded. */
  predicate IsPastRefund(db: Db, matchId: Id) {
    && matchId in db.matches
    && (forall n :: 0 <= n < |db.matches[matchId].participants| ==>
      HasEntered(db, matchId, db.matches[matchId].participants[n].id))
    && (forall i :: 0 <= i < |db.reservations| ==> !Refundable(matchId)(db.reservations[i]))
  }

  predicate HasEntered(db: Db, matchId: Id, participantId: Id) {
    exists i :: 0 <= i < |db.reservations| && OfParticipant(matchId, participantId)(db.reservations[i])
  }

  /**
    Once all participants entered and none is still reserved, no later refund of the match writes
    anything, whatever its key, reason and limit.
   */
  lemma RefundingAgainMovesNothing(
    opening: map<Id, nat>, steps: seq<Step>, more: seq<Step>, matchId: Id, key: string, reason: RefundReason,
      limit: Option<int>)
    requires IsPastRefund(After(opening, steps), matchId)
    ensures var later := After(opening, steps + more);
            Next(later, Refund(matchId, key, reason, limit)) == later
  {
    hide Inv, Run;
    RunOnExtends(opening, steps, more);
    var db, later := After(opening, steps), After(opening, steps + more);
    forall i | 0 <= i < |later.reservations| ensures !Refundable(matchId)(later.reservations[i]) {
      if later.reservations[i].matchId == matchId {
        RowsOfEnteredMatch(opening, db, later, matchId, i);
      }
    }
    FilterNone(later.reservations, Refundable(matchId));
  }

  /** A match everybody has entered gets no further rows. */
  lemma RowsOfEnteredMatch(opening: map<Id, nat>, db: Db, later: Db, matchId: Id, i: nat)
    requires Inv(opening, later) && Extends(db, later) && IsPastRefund(db, matchId)
    requires i < |later.reservations| && later.reservations[i].matchId == matchId
    ensures i < |db.reservations|
  {
    hide SettlementsValid, PaidOnce, EscrowAgrees, UsersAgree, Books, MatchesValid;
    var r := later.reservations[i];
    assert RowValid(later, r);
    var ps := db.matches[matchId].participants;
    var n :| 0 <= n < |ps| && ps[n].id == r.participantId && ps[n].userId == r.userId;
    assert HasEntered(db, matchId, ps[n].id);
    var k :| 0 <= k < |db.reservations| && OfParticipant(matchId, ps[n].id)(db.reservations[k]);
    assert RowExtends(db.reservations[k], later.reservations[k]);
    assert k == i;
  }

  /** A match once settled can be settled again at any later time, under any key: nothing is written. */
  lemma SettlingAgainMovesNothing(
    opening: map<Id, nat>, steps: seq<Step>, more: seq<Step>, k: nat, key: string, now: int, delaySeconds: int,
      newId: Id)
    requires k < |After(opening, steps).settlements|
    ensures var later := After(opening, steps + more);
            Next(later, Settle(After(opening, steps).settlements[k].matchId, key, now, delaySeconds, newId)) == later
  {
    hide Inv, Run;
    RunOnExtends(opening, steps, more);
    var s, later := After(opening, steps).settlements[k], After(opening, steps + more);
    assert later.settlements[k] == s;
    assert SettlementOf(s.matchId)(later.settlements[k]);
  }

  /** The stored record is never handed back: a key that has settled a match fails for every match ever after. */
  lemma SettlementReplayAlwaysConflicts(
    opening: map<Id, nat>, steps: seq<Step>, k: nat, matchId: Id, now: int, delaySeconds: int, newId: Id)
    requires k < |After(opening, steps).settlements|
    requires matchId in After(opening, steps).matches
    ensures var db := After(opening, steps);
            SettleTx(db, matchId, db.settlements[k].key, now, delaySeconds, newId) == Err(SettlementKeyConflict)
  {
    ReachableHolds(opening, steps);
    ReplayConflicts(opening, After(opening, steps), k, matchId, now, delaySeconds, newId);
  }

  lemma ReplayConflicts(opening: map<Id, nat>, db: Db, k: nat, matchId: Id, now: int, delaySeconds: int, newId: Id)
    requires Inv(opening, db) && k < |db.settlements| && matchId in db.matches
    ensures SettleTx(db, matchId, db.settlements[k].key, now, delaySeconds, newId) == Err(SettlementKeyConflict)
  {
    hide RowsValid, PaidOnce, EscrowAgrees, UsersAgree, Books;
    var s := db.settlements[k];
    FindUnique(db.settlements, SettlementWithKey(s.key), k);
    assert SettlementValid(db, s);
    var c := DecisionContext(db, matchId, delaySeconds);
    if matchId == s.matchId {
      FindUnique(db.settlements, SettlementOf(matchId), k);
      assert Applies(c, now, AlreadySettled);
    }
  }

  // ----- Guards that cannot fail -----

  /** The refund of a reserved row fails on nothing but a taken or overlong journal key; its escrow always covers it. */
  lemma RefundFailsOnlyOnItsKey(opening: map<Id, nat>, db: Db, key: string, k: nat)
    requires Inv(opening, db)
    requires k < |db.reservations| && db.reservations[k].status == Reserved
    ensures var row := db.reservations[k];
            var refused := !Postable(db.journal, RefundKey(key, row.id));
            && Balance(db.accounts, MatchEscrow(row.matchId)) >= row.amount > 0
            && RefundOne(db, key, row).Ok? == !refused
            && (refused ==> RefundOne(db, key, row) == Err(PersistenceFailure))
  {
    var row := db.reservations[k];
    assert RowValid(db, row);
    FindUnique(db.reservations, WithId(row.id), k);
    forall i | 0 <= i < |db.reservations| ensures db.reservations[i].amount >= 0 {
      assert RowValid(db, db.reservations[i]);
    }
    OpenSumCovers(db.reservations, row.matchId, k);
  }

  /** The refund of every row can be posted. */
  predicate AllPostable(journal: seq<Posting>, key: string, rows: seq<Reservation>) {
    forall i :: 0 <= i < |rows| ==> Postable(journal, RefundKey(key, rows[i].id))
  }

  lemma KeyAfterPosting(journal: seq<Posting>, p: Posting, key: string, row: Reservation)
    requires p.key != RefundKey(key, row.id)
    ensures Postable(journal + [p], RefundKey(key, row.id)) == Postable(journal, RefundKey(key, row.id))
  {
    FindAppend(journal, p, PostingWithKey(RefundKey(key, row.id)));
  }

  lemma RefundKeysDiffer(key: string, a: Id, b: Id)
    requires a != b
    ensures RefundKey(key, a) != RefundKey(key, b)
  {
    var prefix := "ledger:" + key + ":";
    assert (prefix + a)[|prefix|..] == a;
    assert (prefix + b)[|prefix|..] == b;
  }

  lemma KeysAfterRefund(db: Db, next: Db, p: Posting, key: string, rows: seq<Reservation>)
    requires rows != [] && next.journal == db.journal + [p] && p.key == RefundKey(key, rows[0].id)
    requires forall i, j :: 0 <= i < j < |rows| ==> rows[i].id != rows[j].id
    requires Postable(db.journal, RefundKey(key, rows[0].id))
    ensures AllPostable(next.journal, key, rows[1..]) == AllPostable(db.journal, key, rows)
  {
    forall i | 0 < i < |rows|
      ensures Postable(next.journal, RefundKey(key, rows[i].id)) == Postable(db.journal, RefundKey(key, rows[i].id))
    {
      RefundKeysDiffer(key, rows[0].id, rows[i].id);
      KeyAfterPosting(db.journal, p, key, rows[i]);
    }
    assert forall i :: 0 <= i < |rows[1..]| ==> rows[1..][i] == rows[i + 1];
    if AllPostable(next.journal, key, rows[1..]) {
      forall i | 0 <= i < |rows| ensures Postable(db.journal, RefundKey(key, rows[i].id)) {
        if i > 0 {
          assert rows[1..][i - 1] == rows[i];
        }
      }
    }
  }

  /** One round fails exactly on its key and takes only its own. */
  lemma RefundRoundKeys(opening: map<Id, nat>, db: Db, key: string, rows: seq<Reservation>)
    requires Inv(opening, db) && RowsFrom(db, rows) && rows != [] && rows[0].status == Reserved
    ensures RefundOne(db, key, rows[0]).Ok? <==> Postable(db.journal, RefundKey(key, rows[0].id))
    ensures RefundOne(db, key, rows[0]).Ok? ==>
              AllPostable(RefundOne(db, key, rows[0]).value.0.journal, key, rows[1..])
                == AllPostable(db.journal, key, rows)
    ensures RefundOne(db, key, rows[0]).Err? ==> RefundOne(db, key, rows[0]) == Err(PersistenceFailure)
  {
    assert rows[0] in db.reservations;
    var k :| 0 <= k < |db.reservations| && db.reservations[k] == rows[0];
    RefundFailsOnlyOnItsKey(opening, db, key, k);
    if RefundOne(db, key, rows[0]).Ok? {
      var next := RefundOne(db, key, rows[0]).value.0;
      RefundOnePosts(db, key, rows[0]);
      KeysAfterRefund(db, next, next.journal[|db.journal|], key, rows);
    }
  }

  lemma RefundOnePosts(db: Db, key: string, row: Reservation)
    requires RefundOne(db, key, row).Ok?
    ensures var next := RefundOne(db, key, row).value.0;
            && |next.journal| == |db.journal| + 1
            && next.journal == db.journal + [next.journal[|db.journal|]]
            && next.journal[|db.journal|].key == RefundKey(key, row.id)
  {
  }

  /** A round of refunds goes through exactly when all the journal keys it needs are new and fit. */
  lemma {:induction false} RefundRowsSucceedIff(
    opening: map<Id, nat>, db: Db, key: string, rows: seq<Reservation>, done: seq<Reservation>)
    requires Inv(opening, db) && RowsFrom(db, rows)
    requires forall i :: 0 <= i < |rows| ==> rows[i].status == Reserved
    ensures RefundRows(db, key, rows, done).Ok? <==> AllPostable(db.journal, key, rows)
    ensures RefundRows(db, key, rows, done).Err? ==> RefundRows(db, key, rows, done) == Err(PersistenceFailure)
    decreases rows
  {
    hide Inv;
    if rows == [] {
    } else {
      RefundRoundKeys(opening, db, key, rows);
      RefundRowsUnfold(db, key, rows, done);
      if RefundOne(db, key, rows[0]).Ok? {
        RefundRoundKeepsInvariant(opening, db, key, rows);
        var (next, marked) := RefundOne(db, key, rows[0]).value;
        RefundRowsSucceedIff(opening, next, key, rows[1..], done + [marked]);
      }
    }
  }

  /**
    In every reachable state a refund the match allows fails only on a taken or overlong journal
    key, never on the escrow.
   */
  lemma RefundSucceedsIff(
    opening: map<Id, nat>, steps: seq<Step>, matchId: Id, key: string, reason: RefundReason, limit: Option<int>)
    ensures var db := After(opening, steps);
            var outcome := RefundTx(db, matchId, key, reason, limit);
            && (outcome.Ok? <==>
                RefundAllowed(db, matchId, reason)
                && AllPostable(db.journal, key, ListRefundable(db, matchId, Clamp(limit))))
            && outcome != Err(EscrowInvariantViolation)
  {
    ReachableHolds(opening, steps);
    var db := After(opening, steps);
    var rows := ListRefundable(db, matchId, Clamp(limit));
    ListedRowsAreFromTable(db, matchId, Clamp(limit));
    assert forall i :: 0 <= i < |rows| ==> Refundable(matchId)(rows[i]);
    RefundRowsSucceedIff(opening, db, key, rows, []);
  }

  /** In every reachable state a mismatched escrow balance comes with another reason not to settle. */
  lemma EscrowMismatchIsNeverTheOnlyReason(
    opening: map<Id, nat>, steps: seq<Step>, matchId: Id, now: int, delaySeconds: int)
    requires matchId in After(opening, steps).matches
    requires Applies(DecisionContext(After(opening, steps), matchId, delaySeconds), now, EscrowBalanceMismatch)
    ensures exists reason: Reason :: reason != EscrowBalanceMismatch
              && Applies(DecisionContext(After(opening, steps), matchId, delaySeconds), now, reason)
  {
    hide Inv, Applies;
    ReachableHolds(opening, steps);
    MismatchHasCompany(opening, After(opening, steps), matchId, now, delaySeconds);
  }

  lemma MismatchHasCompany(opening: map<Id, nat>, db: Db, matchId: Id, now: int, delaySeconds: int)
    requires Inv(opening, db) && matchId in db.matches
    requires Applies(DecisionContext(db, matchId, delaySeconds), now, EscrowBalanceMismatch)
    ensures exists reason: Reason ::
              reason != EscrowBalanceMismatch && Applies(DecisionContext(db, matchId, delaySeconds), now, reason)
  {
    hide Inv, DecisionContext, FindSettlementContext, EffectiveContext, Total, EligibleAt, SomeNotAwaiting,
        SomeRefunded, SomeOtherAsset, WinnerTakesPart;
    var c := DecisionContext(db, matchId, delaySeconds);
    if |c.reservations| != 2 {
      assert Applies(c, now, ParticipantCountInvalid);
    } else {
      assert SomeNotAwaiting(c) by {
        if !SomeNotAwaiting(c) {
          AwaitingPairMatches(opening, db, matchId, delaySeconds);
        }
      }
      assert Applies(c, now, ReservationAlreadyRefunded) || Applies(c, now, ReservationNotReleased);
    }
  }

  /**
    A release moves no points and leaves the match with nothing to refund; rows of other matches,
    and rows not reserved, stay as they were.
   */
  lemma ReleasedMatchHasNothingToRefund(db: Db, matchId: Id, limit: int)
    ensures var released := Next(db, Step.Release(matchId));
            && released == db.(reservations := released.reservations) && |released.reservations| == |db.reservations|
            && ListRefundable(released, matchId, limit) == []
            && forall i :: 0 <= i < |db.reservations| ==>
                 released.reservations[i]
                 == if Refundable(matchId)(db.reservations[i]) then db.reservations[i].(status := Released)
                   else db.reservations[i]
  {
    FilterNone(Next(db, Step.Release(matchId)).reservations, Refundable(matchId));
  }

  /** Two reservations that both await their payout are exactly what the escrow holds. */
  lemma AwaitingPairMatches(opening: map<Id, nat>, db: Db, matchId: Id, delaySeconds: int)
    requires Inv(opening, db) && matchId in db.matches
    requires |DecisionContext(db, matchId, delaySeconds).reservations| == 2
    requires !SomeNotAwaiting(DecisionContext(db, matchId, delaySeconds))
    ensures DecisionContext(db, matchId, delaySeconds).escrowBalance
            == Total(DecisionContext(db, matchId, delaySeconds).reservations, AmountOf())
  {
    hide Books, UsersAgree, PaidOnce, SettlementsValid;
    var c := DecisionContext(db, matchId, delaySeconds);
    var rows := c.reservations;
    RowsOfMatch(db, matchId, ByParticipant());
    assert rows == [rows[0], rows[1]];
    assert AwaitsPayout(c, rows[0]) && AwaitsPayout(c, rows[1]);
    var i, j := TwoOpenRowsArePair(db, matchId, rows[0], rows[1]);
    EscrowOfPair(db, matchId, rows, i, j);
    TotalOfPair(rows[0], rows[1]);
    PairBalanceIsRead(db, matchId, rows, i, j);
  }

  /** The context reads the balance of the match's own escrow. */
  lemma PairBalanceIsRead(db: Db, matchId: Id, rows: seq<Reservation>, i: nat, j: nat)
    requires RowsValid(db) && matchId in db.matches
    requires rows == SortedBy(Filter(db.reservations, OfMatch(matchId)), ByParticipant())
    requires IsPair(db, matchId, rows, i, j)
    ensures FindSettlementContext(db, matchId).value.escrowBalance == Balance(db.accounts, MatchEscrow(matchId))
  {
    assert RowValid(db, db.reservations[i]);
    assert HasEscrow()(rows[0]);
    assert FindFirst(rows, HasEscrow()) == Some(rows[0]);
  }

  /** Posting an eligible settlement succeeds exactly when its journal key is new and fits, and empties the escrow. */
  lemma PostingEligibleSettlementSucceedsIff(
    opening: map<Id, nat>, steps: seq<Step>, matchId: Id, now: int, delaySeconds: int, key: string,
    fingerprint: Fingerprint)
    requires matchId in After(opening, steps).matches
    requires Eligible(DecisionContext(After(opening, steps), matchId, delaySeconds), now)
    ensures var db := After(opening, steps);
            var c := DecisionContext(db, matchId, delaySeconds);
            var outcome := PostSettlement(db, matchId, TypeOf(c), c.winner, c.reservations, key, fingerprint);
            && (outcome.Ok? <==> Postable(db.journal, key))
            && (outcome.Ok? ==> Balance(outcome.value.0.accounts, MatchEscrow(matchId)) == 0)
  {
    ReachableHolds(opening, steps);
    var db := After(opening, steps);
    var c := DecisionContext(db, matchId, delaySeconds);
    var i, j := EligibleRowsArePair(db, matchId, c, now);
    EligibleMeans(c, now);
    PairPaysOut(db, matchId, c, i, j, TypeOf(c), key, fingerprint);
  }

  /** Exactly when a settlement goes through in a reachable state. */
  lemma SettleSucceedsIff(
    opening: map<Id, nat>, steps: seq<Step>, matchId: Id, key: string, now: int, delaySeconds: int, newId: Id)
    ensures var db := After(opening, steps);
            SettleTx(db, matchId, key, now, delaySeconds, newId).Ok? <==>
            && matchId in db.matches
            && FindFirst(db.settlements, SettlementWithKey(key)).None?
            && FindFirst(db.settlements, SettlementWithId(newId)).None?
            && Eligible(DecisionContext(db, matchId, delaySeconds), now)
            && Postable(db.journal, LedgerKey(key))
  {
    var db := After(opening, steps);
    ReachableHolds(opening, steps);
    var keyed := FindFirst(db.settlements, SettlementWithKey(key));
    if matchId in db.matches {
      if keyed.Some? {
        var k :| 0 <= k < |db.settlements| && db.settlements[k] == keyed.value;
        SettlementReplayAlwaysConflicts(opening, steps, k, matchId, now, delaySeconds, newId);
      } else {
        var c := DecisionContext(db, matchId, delaySeconds);
        if Eligible(c, now) {
          PostingEligibleSettlementSucceedsIff(opening, steps, matchId, now, delaySeconds, LedgerKey(key),
            SettleFingerprint(c, now));
          assert !Applies(c, now, AlreadySettled);
          SettleAfterPosting(db, matchId, key, now, delaySeconds, newId);
        }
      }
    }
  }

  lemma SettleAfterPosting(db: Db, matchId: Id, key: string, now: int, delaySeconds: int, newId: Id)
    requires matchId in db.matches
    requires FindFirst(db.settlements, SettlementWithKey(key)).None?
             && FindFirst(db.settlements, SettlementOf(matchId)).None?
    requires Eligible(DecisionContext(db, matchId, delaySeconds), now)
    ensures var c := DecisionContext(db, matchId, delaySeconds);
            var outcome := PostSettlement(db, matchId, TypeOf(c), c.winner, c.reservations, LedgerKey(key),
                SettleFingerprint(c, now));
            SettleTx(db, matchId, key, now, delaySeconds, newId).Ok? <==>
            outcome.Ok? && FindFirst(db.settlements, SettlementWithId(newId)).None?
  {
  }

  /**
    Keys the API accepts can be too long: with more than 121 characters nothing is ever settled, and
    with the row's identifier more than 120 nothing is ever refunded, however fresh the key.
   */
  lemma LongKeysAlwaysFail(
    opening: map<Id, nat>, steps: seq<Step>, matchId: Id, key: string, now: int, delaySeconds: int, newId: Id,
    reason: RefundReason, limit: Option<int>)
    ensures |key| > 121 ==> SettleTx(After(opening, steps), matchId, key, now, delaySeconds, newId).Err?
    ensures var db := After(opening, steps);
            (exists i :: 0 <= i < |ListRefundable(db, matchId, Clamp(limit))|
                         && |key| + |ListRefundable(db, matchId, Clamp(limit))[i].id| > 120)
            ==> RefundTx(db, matchId, key, reason, limit).Err?
  {
    SettleSucceedsIff(opening, steps, matchId, key, now, delaySeconds, newId);
    RefundSucceedsIff(opening, steps, matchId, key, reason, limit);
    hide Run, SettleTx, RefundTx, ListRefundable;
  }
}
