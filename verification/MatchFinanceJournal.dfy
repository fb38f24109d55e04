/**
  What is written to the journal and read for the views, entry by entry: the posting of a settlement,
  the listing of a match's reservations, and the figures of a reconciliation.
 */
module MatchFinanceJournal {
  import opened Wrappers
  import opened Rows
  import opened Sorting
  import opened Ledger
  import opened MatchFinance
  import opened MatchFinanceInvariant
  import opened MatchFinanceTheorems
  import opened MatchFinanceSettling
  import opened MatchFinanceStakes

  // ----- The posting of a settlement -----

  /** Which type of posting the match row calls for, and which type of settlement its fingerprint names. */
  function KindOf(game: Match): (PostingType, SettlementType) {
    if game.status == Voided then (MatchVoidRefund, VoidRefund)
    else if game.result.Some? && game.result.value.isDraw then (MatchDrawRefund, DrawRefund)
    else (MatchWinnerSettlement, WinnerTakesAll)
  }

  /** Stakes go back in the order of the participants' identifiers; a prize goes to the winner alone. */
  function CreditsOf(game: Match, first: Reservation, second: Reservation, accounts: Accounts): seq<Entry> {
    var x, y := UserAvailable(first.userId), UserAvailable(second.userId);
    if KindOf(game).1 != WinnerTakesAll then
      [Entry(x, Credit, first.amount, Balance(accounts, x), 2),
        Entry(y, Credit, second.amount, Balance(accounts, y), 3)]
    else if game.result.Some? && game.result.value.winner == Some(first.participantId) then
      [Entry(x, Credit, 2 * first.amount, Balance(accounts, x), 2)]
    else [Entry(y, Credit, 2 * first.amount, Balance(accounts, y), 2)]
  }

  /** The posting a settlement of the two reservations writes, with the balances it leaves. */
  function PostingOf(
    game: Match, matchId: Id, key: string, first: Reservation, second: Reservation, accounts: Accounts): Posting {
    Posting(
      KindOf(game).0, "ledger:" + key,
      SettlementFingerprint(
        matchId, if game.result.Some? then Some(game.result.value.id) else None,
        if game.result.Some? then Some(game.result.value.version) else None, Some(KindOf(game).1), 2 * first.amount),
      ForSettlement(matchId),
      [Entry(MatchEscrow(matchId), Debit, 2 * first.amount, 0, 1)] + CreditsOf(game, first, second, accounts))
  }

  /**
    In every reachable state a new settlement writes one posting: of the match's type and result, the
    escrow's debit first, then the prize or the stakes, each with the balance it leaves.
   */
  lemma SettlementIsPosted(
    opening: map<Id, nat>, steps: seq<Step>, matchId: Id, key: string, now: int, delaySeconds: int, newId: Id,
    i: nat, j: nat)
    requires SettleTx(After(opening, steps), matchId, key, now, delaySeconds, newId).Ok?
    requires i < |After(opening, steps).reservations| && j < |After(opening, steps).reservations|
    requires After(opening, steps).reservations[i].matchId == After(opening, steps).reservations[j].matchId == matchId
    requires TextBefore(
               After(opening, steps).reservations[i].participantId, After(opening, steps).reservations[j].participantId)
    ensures matchId in After(opening, steps).matches
    ensures var db := After(opening, steps);
            var (db', s) := SettleTx(db, matchId, key, now, delaySeconds, newId).value;
            && db'.journal == db.journal
                 + [PostingOf(db.matches[matchId], matchId, key, db.reservations[i], db.reservations[j], db'.accounts)]
            && s.transactionId == |db.journal| && s.fingerprint == db'.journal[|db.journal|].fingerprint
  {
    ReachableHolds(opening, steps);
    var db := After(opening, steps);
    SettleSucceedsIff(opening, steps, matchId, key, now, delaySeconds, newId);
    hide Run, SettleTx, Inv, DecisionContext, Eligible;
    EligibleIff(opening, db, matchId, now, delaySeconds);
    var m: nat, n: nat :| SettlesPair(db, matchId, now, delaySeconds, m, n);
    PairIsPosted(opening, db, matchId, key, now, delaySeconds, newId, i, j);
  }

  lemma PairIsPosted(
    opening: map<Id, nat>, db: Db, matchId: Id, key: string, now: int, delaySeconds: int, newId: Id, i: nat, j: nat)
    requires Inv(opening, db) && matchId in db.matches && SettleTx(db, matchId, key, now, delaySeconds, newId).Ok?
    requires FindFirst(db.settlements, SettlementWithKey(key)).None?
    requires db.matches[matchId].result.Some? || db.matches[matchId].status == Voided
    requires i < |db.reservations| && j < |db.reservations|
    requires db.reservations[i].matchId == db.reservations[j].matchId == matchId
    requires TextBefore(db.reservations[i].participantId, db.reservations[j].participantId)
    ensures var (db', s) := SettleTx(db, matchId, key, now, delaySeconds, newId).value;
            && db'.journal == db.journal
                 + [PostingOf(db.matches[matchId], matchId, key, db.reservations[i], db.reservations[j], db'.accounts)]
            && s.transactionId == |db.journal| && s.fingerprint == db'.journal[|db.journal|].fingerprint
  {
    hide SettleTx, PostSettlement, DecisionContext, PaidOnce, UsersAgree, Books, SettlementsValid, IsPayout,
         AfterSettlement, Eligible, TypeOf, PostingOf, RowValid, Recipients, CreditAll, AccountsValid, Total;
    var c := DecisionContext(db, matchId, delaySeconds);
    var a, b := db.reservations[i], db.reservations[j];
    SettleKeepsPosted(db, matchId, key, now, delaySeconds, newId);
    ContextReadsResult(db, matchId, delaySeconds);
    ContextReadsVersion(db, matchId, delaySeconds);
    EligibleMeans(c, now);
    var x, y := EligibleRowsArePair(db, matchId, c, now);
    PairIsInOrder(db, matchId, c.reservations, x, y, i, j);
    AllAccountsValid(db);
    EscrowOfPair(db, matchId, c.reservations, x, y);
    TotalOfPair(a, b);
    hide RowsValid, MatchesValid, EscrowAgrees, SortedBy, Filter;
    PostingIs(db, db.matches[matchId], c, a, b, key, SettleFingerprint(c, now));
  }

  /** Marking rows and storing the settlement leave journal and accounts as the posting made them. */
  lemma SettleKeepsPosted(db: Db, matchId: Id, key: string, now: int, delaySeconds: int, newId: Id)
    requires matchId in db.matches && SettleTx(db, matchId, key, now, delaySeconds, newId).Ok?
    requires FindFirst(db.settlements, SettlementWithKey(key)).None?
    ensures var c := DecisionContext(db, matchId, delaySeconds);
            var outcome :=
                PostSettlement(
                  db, matchId, TypeOf(c), c.winner, c.reservations, LedgerKey(key), SettleFingerprint(c, now));
            var (db', s) := SettleTx(db, matchId, key, now, delaySeconds, newId).value;
            && Eligible(c, now) && outcome.Ok?
            && db'.journal == outcome.value.0.journal && db'.accounts == outcome.value.0.accounts
            && s.transactionId == outcome.value.1 && s.fingerprint == SettleFingerprint(c, now)
  {
    SettlePassed(db, matchId, key, now, delaySeconds, newId);
    hide SettleTx, PostSettlement, DecisionContext, Eligible, MarkSettled, SettleFingerprint;
  }

  lemma ContextReadsVersion(db: Db, matchId: Id, delaySeconds: int)
    requires matchId in db.matches
    ensures DecisionContext(db, matchId, delaySeconds).resultVersion
         == var game := db.matches[matchId]; if game.result.Some? then Some(game.result.value.version) else None
  {
    hide SortedBy, Filter, FindFirst;
  }

  lemma ByParticipantIsTotal()
    ensures TotalOrder(ByParticipant())
  {
    forall a: Reservation, b: Reservation ensures ByParticipant()(a, b) || ByParticipant()(b, a) {
      PrecedesIsTotal(a.participantId, b.participantId);
    }
    forall a: Reservation, b: Reservation, c: Reservation | ByParticipant()(a, b) && ByParticipant()(b, c)
      ensures ByParticipant()(a, c)
    {
      PrecedesIsTransitive(a.participantId, b.participantId, c.participantId);
    }
  }

  /** The pair is listed with the smaller participant first. */
  lemma PairIsInOrder(db: Db, matchId: Id, rows: seq<Reservation>, x: nat, y: nat, i: nat, j: nat)
    requires rows == SortedBy(Filter(db.reservations, OfMatch(matchId)), ByParticipant())
    requires IsPair(db, matchId, rows, x, y)
    requires i < |db.reservations| && j < |db.reservations|
    requires db.reservations[i].matchId == db.reservations[j].matchId == matchId
    requires TextBefore(db.reservations[i].participantId, db.reservations[j].participantId)
    ensures x == i && y == j && rows == [db.reservations[i], db.reservations[j]]
  {
    hide SortedBy, Filter;
    ByParticipantIsTotal();
    SortIsOrdered(Filter(db.reservations, OfMatch(matchId)), ByParticipant());
    assert ByParticipant()(rows[0], rows[1]);
    TextOrderIsStrict(db.reservations[i].participantId, db.reservations[j].participantId);
    PrecedesIff(db.reservations[j].participantId, db.reservations[i].participantId);
    PrecedesIff(db.reservations[i].participantId, db.reservations[j].participantId);
    assert i in {x, y} && j in {x, y};
  }

  lemma PostingIs(
    db: Db, game: Match, c: Context, a: Reservation, b: Reservation, key: string, fingerprint: Fingerprint)
    requires ReadyToPay(db, a, b) && a.amount == b.amount && c.reservations == [a, b]
    requires c.matchStatus == game.status && (game.result.Some? || game.status == Voided)
    requires c.isDraw == (game.result.Some? && game.result.value.isDraw)
    requires c.winner == (if game.result.Some? then game.result.value.winner else None)
    requires TypeOf(c) == WinnerTakesAll ==> c.winner == Some(a.participantId) || c.winner == Some(b.participantId)
    requires fingerprint == SettlementFingerprint(
               a.matchId, if game.result.Some? then Some(game.result.value.id) else None,
               if game.result.Some? then Some(game.result.value.version) else None, Some(TypeOf(c)),
                   a.amount + b.amount)
    requires PostSettlement(db, a.matchId, TypeOf(c), c.winner, [a, b], LedgerKey(key), fingerprint).Ok?
    ensures var posted := PostSettlement(db, a.matchId, TypeOf(c), c.winner, [a, b], LedgerKey(key), fingerprint).value;
            && posted.0.journal == db.journal + [PostingOf(game, a.matchId, key, a, b, posted.0.accounts)]
            && posted.1 == |db.journal| && posted.0.journal[|db.journal|].fingerprint == fingerprint
  {
    hide PostSettlement, Recipients, CreditAll, Total;
    var posted := PostSettlement(db, a.matchId, TypeOf(c), c.winner, [a, b], LedgerKey(key), fingerprint).value;
    var debit := Entry(MatchEscrow(a.matchId), Debit, 2 * a.amount, 0, 1);
    var x, y := UserAvailable(a.userId), UserAvailable(b.userId);
    if TypeOf(c) == WinnerTakesAll {
      PostWinner(db, c.winner, a, b, LedgerKey(key), fingerprint);
      var w := if c.winner == Some(a.participantId) then x else y;
      var credit := Entry(w, Credit, 2 * a.amount, Balance(posted.0.accounts, w), 2);
      assert [debit] + [credit] == [debit, credit];
      assert CreditsOf(game, a, b, posted.0.accounts) == [credit];
    } else {
      PostStakesBack(db, TypeOf(c), c.winner, a, b, LedgerKey(key), fingerprint);
      var e := Entry(x, Credit, a.amount, Balance(posted.0.accounts, x), 2);
      var f := Entry(y, Credit, b.amount, Balance(posted.0.accounts, y), 3);
      assert [debit] + [e, f] == [debit, e, f];
      assert CreditsOf(game, a, b, posted.0.accounts) == [e, f];
    }
  }

  // ----- Views -----

  /** Of two rows the first was created earlier, or at the same time with the smaller identifier. */
  predicate ListedBefore(a: Reservation, b: Reservation) {
    if a.createdAt == b.createdAt then TextBefore(a.id, b.id) else a.createdAt < b.createdAt
  }

  lemma ByCreationIsTotal()
    ensures TotalOrder(ByCreation())
  {
    forall a: Reservation, b: Reservation ensures ByCreation()(a, b) || ByCreation()(b, a) {
      PrecedesIsTotal(a.id, b.id);
    }
    forall a: Reservation, b: Reservation, c: Reservation | ByCreation()(a, b) && ByCreation()(b, c)
      ensures ByCreation()(a, c)
    {
      if a.createdAt == b.createdAt == c.createdAt {
        PrecedesIsTransitive(a.id, b.id, c.id);
      }
    }
  }

  /**
    In every reachable state a listing holds rows of the match, in the order of their creation, at
    most the limit; every other row of the match comes after them, and there is one only if the limit is reached.
   */
  lemma ListingIsInOrder(opening: map<Id, nat>, steps: seq<Step>, matchId: Id, limit: int)
    requires limit >= 0
    ensures var db := After(opening, steps);
            var rows := ListMatch(db, matchId, limit);
            && |rows| <= limit
            && (forall r :: r in rows ==> r in db.reservations && r.matchId == matchId)
            && (forall m, n :: 0 <= m < n < |rows| ==> ListedBefore(rows[m], rows[n]))
            && (forall r :: r in db.reservations && r.matchId == matchId && r !in rows ==>
                  |rows| == limit && forall n :: 0 <= n < |rows| ==> ListedBefore(rows[n], r))
  {
    ReachableHolds(opening, steps);
    hide Run, MatchesValid, SettlementsValid, PaidOnce, EscrowAgrees, UsersAgree, Books;
    var db := After(opening, steps);
    CreatedInOrder(db, matchId);
    hide Inv, RowsValid, ListedBefore, SortedBy, Filter;
    var sorted := SortedBy(Filter(db.reservations, OfMatch(matchId)), ByCreation());
    var rows := ListMatch(db, matchId, limit);
    forall r | r in sorted && r !in rows
      ensures |rows| == limit && forall n :: 0 <= n < |rows| ==> ListedBefore(rows[n], r)
    {
      var k :| 0 <= k < |sorted| && sorted[k] == r;
      assert forall n :: 0 <= n < |rows| ==> rows[n] == sorted[n];
      assert k >= |rows|;
    }
  }

  lemma CreatedInOrder(db: Db, matchId: Id)
    requires RowsValid(db)
    ensures var sorted := SortedBy(Filter(db.reservations, OfMatch(matchId)), ByCreation());
            && (forall r :: r in sorted <==> r in db.reservations && r.matchId == matchId)
            && (forall m, n :: 0 <= m < n < |sorted| ==> ListedBefore(sorted[m], sorted[n]))
            && Distinct(sorted)
  {
    hide RowValid;
    var found := Filter(db.reservations, OfMatch(matchId));
    var sorted := SortedBy(found, ByCreation());
    DistinctFilter(db.reservations, OfMatch(matchId));
    DistinctSort(found, ByCreation());
    forall r ensures r in sorted <==> r in db.reservations && r.matchId == matchId {
      SortMembers(found, ByCreation(), r);
      FilterMembers(db.reservations, OfMatch(matchId), r);
    }
    ByCreationIsTotal();
    SortIsOrdered(found, ByCreation());
    forall m, n | 0 <= m < n < |sorted| ensures ListedBefore(sorted[m], sorted[n]) {
      assert sorted[m] in sorted && sorted[n] in sorted;
      IdsDiffer(db, sorted[m], sorted[n]);
      PrecedesIff(sorted[m].id, sorted[n].id);
    }
  }

  /** The sum of the match's stakes that are still in escrow. */
  function Waiting(rows: seq<Reservation>, matchId: Id): int {
    if rows == [] then 0
    else
      var last := rows[|rows| - 1];
      Waiting(rows[..|rows| - 1], matchId)
      + if last.matchId == matchId && (last.status == Reserved || last.status == Released) then last.amount else 0
  }

  lemma {:induction false} WaitingIsOpen(rows: seq<Reservation>, matchId: Id)
    ensures Waiting(rows, matchId) == Total(rows, OpenStake(matchId))
  {
    if rows == [] {
    } else {
      var n := |rows| - 1;
      WaitingIsOpen(rows[..n], matchId);
      assert rows == rows[..n] + [rows[n]];
      TotalAppend(rows[..n], [rows[n]], OpenStake(matchId));
      assert [rows[n]][1..] == [];
      assert Total([rows[n]], OpenStake(matchId)) == OpenStake(matchId)(rows[n]);
    }
  }

  /** How many of the rows are the match's. */
  function Counted(rows: seq<Reservation>, matchId: Id): nat {
    if rows == [] then 0 else Counted(rows[1..], matchId) + if rows[0].matchId == matchId then 1 else 0
  }

  lemma {:induction false} CountedIsFiltered(rows: seq<Reservation>, matchId: Id)
    ensures |Filter(rows, OfMatch(matchId))| == Counted(rows, matchId)
  {
    if rows != [] {
      CountedIsFiltered(rows[1..], matchId);
    }
  }

  /** Every figure of a reconciliation in a reachable state, from the stored rows and accounts. */
  lemma ReconciliationAnswers(opening: map<Id, nat>, steps: seq<Step>, matchId: Id)
    ensures var db := After(opening, steps);
            ReconcileQuery(db, matchId)
            == Reconciliation(true, Waiting(db.reservations, matchId), Waiting(db.reservations, matchId),
                              Counted(db.reservations, matchId))
    ensures Balance(After(opening, steps).accounts, MatchEscrow(matchId))
         == Waiting(After(opening, steps).reservations, matchId)
  {
    var db := After(opening, steps);
    EscrowAlwaysReconciles(opening, steps, matchId);
    ReachableHolds(opening, steps);
    hide Run;
    WaitingIsOpen(db.reservations, matchId);
    ReconciliationSum(db, matchId);
    CountedIsFiltered(db.reservations, matchId);
    SortIsPermutation(Filter(db.reservations, OfMatch(matchId)), ByCreation());
    RowsOfMatch(db, matchId, ByCreation());
    AtMostTwoRows(db, matchId, SortedBy(Filter(db.reservations, OfMatch(matchId)), ByCreation()));
    hide Inv, SortedBy, Filter, Total;
  }

  /**
    The rows a refund lists, whatever their number: reserved rows of the match in the order of their
    identifiers, as many as asked for between one and a hundred, ten if nothing is asked; those left
    out come after.
   */
  lemma RefundsAreListedInOrder(db: Db, matchId: Id, limit: Option<int>)
    requires RowsValid(db)
    ensures var rows := ListRefundable(db, matchId, Clamp(limit));
            var size := if limit == None then 10 else if limit.value < 1 then 1
                        else if limit.value <= 100 then limit.value else 100;
            && |rows| <= size
            && (forall r :: r in rows ==> IsReserved(db, matchId, r))
            && (forall m, n :: 0 <= m < n < |rows| ==> TextBefore(rows[m].id, rows[n].id))
            && (forall r :: r in db.reservations && IsReserved(db, matchId, r) && r !in rows ==>
                  |rows| == size && forall n :: 0 <= n < |rows| ==> TextBefore(rows[n].id, r.id))
  {
    hide RowsValid, TextBefore, SortedBy, Filter, IsReserved;
    ReservedAreSorted(db, matchId);
    FirstAreBefore(SortedBy(Filter(db.reservations, Refundable(matchId)), ById()), Clamp(limit));
  }

  lemma FirstAreBefore(sorted: seq<Reservation>, size: nat)
    requires forall m, n :: 0 <= m < n < |sorted| ==> TextBefore(sorted[m].id, sorted[n].id)
    ensures var rows := Take(sorted, size);
            && |rows| <= size
            && (forall r :: r in rows ==> r in sorted)
            && (forall m, n :: 0 <= m < n < |rows| ==> TextBefore(rows[m].id, rows[n].id))
            && (forall r :: r in sorted && r !in rows ==>
                  |rows| == size && forall n :: 0 <= n < |rows| ==> TextBefore(rows[n].id, r.id))
  {
    hide TextBefore;
    var rows := Take(sorted, size);
    assert forall n :: 0 <= n < |rows| ==> rows[n] == sorted[n];
    forall r | r in sorted && r !in rows
      ensures |rows| == size && forall n :: 0 <= n < |rows| ==> TextBefore(rows[n].id, r.id)
    {
      var k :| 0 <= k < |sorted| && sorted[k] == r;
      assert k >= |rows|;
    }
  }
}
