/**
  What every committed transaction of match finance keeps: the rows are consistent with each
  other, the journal replays to the stored balances, each escrow holds exactly the open stakes
  of its match, each user's balance follows from their rows, and no stake is paid out twice.
 */
module MatchFinanceInvariant {
  import opened Wrappers
  import opened Rows
  import opened Ledger
  import opened MatchEntryPolicies
  import opened MatchFinance

  // ----- The invariant -----

  predicate TakesPart(game: Match, participantId: Id, userId: Id) {
    exists i :: 0 <= i < |game.participants|
                && game.participants[i].id == participantId && game.participants[i].userId == userId
  }

  predicate HasStake(game: Match, amount: int) {
    var requirement := ParseRequirement(game.configuration);
    requirement.Ok? && requirement.value.amount == amount
  }

  /** The accounts a funded row names are those of its user and its match, and exist. */
  predicate AccountsValid(db: Db, r: Reservation) {
    if r.amount == 0 then r.status == NotRequired && r.ledgerAccountId.None? && r.escrowAccountId.None?
    else
      && r.amount > 0
      && r.status in {Reserved, Released, Refunded, Settled}
      && r.ledgerAccountId == Some(UserAvailable(r.userId)) && UserAvailable(r.userId) in db.accounts
      && r.escrowAccountId == Some(MatchEscrow(r.matchId)) && MatchEscrow(r.matchId) in db.accounts
  }

  /** A row is settled by the settlement of its match or not at all. */
  predicate SettledBy(settlements: seq<Settlement>, r: Reservation) {
    if r.settlementId.None? then r.status != Settled
    else
      var s := FindFirst(settlements, SettlementOf(r.matchId));
      s.Some? && r.settlementId == Some(s.value.id)
      && r.status == if s.value.settlementType == WinnerTakesAll then Settled else Refunded
  }

  predicate RowValid(db: Db, r: Reservation) {
    && r.matchId in db.matches
    && TakesPart(db.matches[r.matchId], r.participantId, r.userId)
    && HasStake(db.matches[r.matchId], r.amount)
    && r.assetCode == ARENA_POINT
    && AccountsValid(db, r)
    && SettledBy(db.settlements, r)
  }

  ghost predicate RowsValid(db: Db) {
    && (forall i :: 0 <= i < |db.reservations| ==> RowValid(db, db.reservations[i]))
    && (forall i, j :: 0 <= i < j < |db.reservations| ==>
          && db.reservations[i].id != db.reservations[j].id
          && !(db.reservations[i].matchId == db.reservations[j].matchId
               && db.reservations[i].participantId == db.reservations[j].participantId))
  }

  predicate SettledEntry(db: Db, s: Settlement, participantId: Id) {
    exists k :: 0 <= k < |db.reservations|
                && db.reservations[k].matchId == s.matchId
                && db.reservations[k].participantId == participantId
                && db.reservations[k].settlementId == Some(s.id)
  }

  /** A settlement distributes both stakes and has finished every participant's reservation. */
  predicate SettlementValid(db: Db, s: Settlement) {
    && s.matchId in db.matches
    && |db.matches[s.matchId].participants| == 2
    && (forall i :: 0 <= i < 2 ==> SettledEntry(db, s, db.matches[s.matchId].participants[i].id))
    && s.total > 0
    && HasStake(db.matches[s.matchId], s.total / 2) && s.total % 2 == 0
    && s.fingerprint.SettlementFingerprint?
    && s.fingerprint.settledMatch == s.matchId
    && s.fingerprint.settlementType == Some(s.settlementType)
    && if s.settlementType == WinnerTakesAll then
         && s.status == SettlementSettled && s.distributed == s.total && s.refunded == 0
         && s.winner.Some?
         && (s.winner.value == db.matches[s.matchId].participants[0].id
           || s.winner.value == db.matches[s.matchId].participants[1].id)
       else
         s.status == SettlementRefunded && s.distributed == 0 && s.refunded == s.total && s.winner.None?
  }

  ghost predicate SettlementsValid(db: Db) {
    && (forall i :: 0 <= i < |db.settlements| ==> SettlementValid(db, db.settlements[i]))
    && (forall i, j :: 0 <= i < j < |db.settlements| ==>
          db.settlements[i].matchId != db.settlements[j].matchId && db.settlements[i].id != db.settlements[j].id
          && db.settlements[i].key != db.settlements[j].key)
  }

  predicate MatchesValid(db: Db) {
    forall m :: m in db.matches ==> ValidParticipants(db.matches[m].participants)
  }

  /** One for a posting that pays the reservation's stake out of escrow. */
  function PaysOut(reservationId: Id, matchId: Id): Posting -> int {
    (p: Posting) => if p.reference == ForRefund(reservationId) || p.reference == ForSettlement(matchId) then 1 else 0
  }

  function Payouts(journal: seq<Posting>, r: Reservation): int {
    Total(journal, PaysOut(r.id, r.matchId))
  }

  /** A stake has been paid out once if its row says so, and never otherwise; no payout lacks its row. */
  ghost predicate PaidOnce(db: Db) {
    && (forall i :: 0 <= i < |db.reservations| ==>
          Payouts(db.journal, db.reservations[i]) == if db.reservations[i].status in {Refunded, Settled} then 1 else 0)
    && (forall k :: 0 <= k < |db.journal| ==> ReferenceKnown(db, db.journal[k].reference))
  }

  predicate ReferenceKnown(db: Db, reference: Reference) {
    match reference
    case ForMatchEntry(_) => true
    case ForRefund(id) => FindFirst(db.reservations, WithId(id)).Some?
    case ForSettlement(m) => FindFirst(db.settlements, SettlementOf(m)).Some?
  }

  function OpenStake(matchId: Id): Reservation -> int {
    (r: Reservation) => if r.matchId == matchId && HoldsStake(r) then r.amount else 0
  }

  /** Every match's escrow holds the sum of its open stakes. */
  ghost predicate EscrowAgrees(db: Db) {
    forall m :: Balance(db.accounts, MatchEscrow(m)) == Total(db.reservations, OpenStake(m))
  }

  /** What a row has changed in its user's balance so far. */
  function NetEffect(settlements: seq<Settlement>, userId: Id): Reservation -> int {
    (r: Reservation) =>
      if r.userId != userId then 0
      else if HoldsStake(r) then -r.amount
      else if r.settlementId.None? then 0
      else
        var s := FindFirst(settlements, SettlementOf(r.matchId));
        (if s.Some? then ReceivedAmount(s.value, r.participantId, r.amount) else 0) - r.amount
  }

  /** Opening balance, minus open stakes, plus what each settlement shows as received minus the stake. */
  ghost predicate UsersAgree(opening: map<Id, nat>, db: Db) {
    forall u :: Balance(db.accounts, UserAvailable(u))
                == OpeningBalance(opening, UserAvailable(u)) + Total(db.reservations, NetEffect(db.settlements, u))
  }

  ghost predicate Inv(opening: map<Id, nat>, db: Db) {
    && MatchesValid(db)
    && RowsValid(db)
    && SettlementsValid(db)
    && PaidOnce(db)
    && EscrowAgrees(db)
    && UsersAgree(opening, db)
    && Books(opening, db.accounts, db.journal)
  }

  lemma InitialHolds(opening: map<Id, nat>)
    ensures Inv(opening, Initial(opening))
  {
    var db := Initial(opening);
    forall a ensures Balance(db.accounts, a) == OpeningBalance(opening, a) {
      if a.UserAvailable? && a.user in opening {
        assert UserAvailable(a.user) in (set u | u in opening :: UserAvailable(u));
      }
    }
  }

  // ----- Small facts -----

  /** A lookup by a column that is unique among the rows finds the row. */
  lemma {:induction false} FindUnique<T>(rows: seq<T>, p: T -> bool, k: nat)
    requires k < |rows| && p(rows[k])
    requires forall i :: 0 <= i < |rows| && i != k ==> !p(rows[i])
    ensures FindFirst(rows, p) == Some(rows[k])
  {
    if k > 0 {
      FindUnique(rows[1..], p, k - 1);
    }
  }

  lemma {:induction false} FindAppend<T>(rows: seq<T>, x: T, p: T -> bool)
    ensures FindFirst(rows + [x], p) ==
            if FindFirst(rows, p).Some? then FindFirst(rows, p) else if p(x) then Some(x) else None
  {
    if rows == [] {
      assert [x][1..] == [];
    } else {
      assert (rows + [x])[1..] == rows[1..] + [x];
      FindAppend(rows[1..], x, p);
    }
  }

  lemma {:induction false} FindMapped<T>(rows: seq<T>, rows': seq<T>, p: T -> bool)
    requires |rows| == |rows'|
    requires forall i :: 0 <= i < |rows| ==> p(rows[i]) == p(rows'[i])
    ensures FindFirst(rows, p).Some? == FindFirst(rows', p).Some?
  {
    if rows == [] {
    } else {
      FindMapped(rows[1..], rows'[1..], p);
    }
  }

  /** Updating the one row with an identifier is a change at one index. */
  lemma MapAtIndex(rows: seq<Reservation>, f: Reservation -> Reservation, k: nat)
    requires k < |rows|
    requires forall i :: 0 <= i < |rows| && i != k ==> f(rows[i]) == rows[i]
    ensures MapRows(rows, f) == rows[k := f(rows[k])]
  {
  }

  lemma TotalAppendOne<T>(rows: seq<T>, x: T, w: T -> int)
    ensures Total(rows + [x], w) == Total(rows, w) + w(x)
  {
    TotalAppend(rows, [x], w);
    TotalSingle(x, w);
  }

  lemma {:induction false} TotalZero<T>(rows: seq<T>, w: T -> int)
    requires forall i :: 0 <= i < |rows| ==> w(rows[i]) == 0
    ensures Total(rows, w) == 0
  {
    if rows == [] {
    } else {
      TotalZero(rows[1..], w);
    }
  }

  /** One open row's stake is part of the open sum, which is never less. */
  lemma {:induction false} OpenSumCovers(rows: seq<Reservation>, matchId: Id, k: nat)
    requires k < |rows|
    requires forall i :: 0 <= i < |rows| ==> rows[i].amount >= 0
    ensures Total(rows, OpenStake(matchId)) >= OpenStake(matchId)(rows[k])
  {
    if k == 0 {
      OpenSumNonNegative(rows[1..], matchId);
    } else {
      OpenSumCovers(rows[1..], matchId, k - 1);
    }
  }

  lemma {:induction false} OpenSumNonNegative(rows: seq<Reservation>, matchId: Id)
    requires forall i :: 0 <= i < |rows| ==> rows[i].amount >= 0
    ensures Total(rows, OpenStake(matchId)) >= 0
  {
    if rows == [] {
    } else {
      OpenSumNonNegative(rows[1..], matchId);
    }
  }

  /** A settled match has a reservation for every participant, so none is left to create. */
  lemma SettledMatchIsFullyEntered(db: Db, matchId: Id, participantId: Id, userId: Id)
    requires SettlementsValid(db)
    requires matchId in db.matches && TakesPart(db.matches[matchId], participantId, userId)
    requires FindFirst(db.settlements, SettlementOf(matchId)).Some?
    ensures FindFirst(db.reservations, OfParticipant(matchId, participantId)).Some?
  {
    var s := FindFirst(db.settlements, SettlementOf(matchId));
    var j :| 0 <= j < |db.settlements| && db.settlements[j] == s.value;
    assert SettlementValid(db, db.settlements[j]);
    var ps := db.matches[matchId].participants;
    var i :| 0 <= i < |ps| && ps[i].id == participantId && ps[i].userId == userId;
    assert SettledEntry(db, s.value, ps[i].id);
    var k :| 0 <= k < |db.reservations| && db.reservations[k].matchId == matchId
             && db.reservations[k].participantId == participantId
               && db.reservations[k].settlementId == Some(s.value.id);
    assert OfParticipant(matchId, participantId)(db.reservations[k]);
  }

  // ----- Adding a reservation -----

  lemma AddedRowKeepsRows(db: Db, db': Db, r: Reservation)
    requires RowsValid(db)
    requires db'.matches == db.matches && db'.settlements == db.settlements
    requires db'.reservations == db.reservations + [r]
    requires forall a :: a in db.accounts ==> a in db'.accounts
    requires RowValid(db', r)
    requires FindFirst(db.reservations, WithId(r.id)).None?
    requires FindFirst(db.reservations, OfParticipant(r.matchId, r.participantId)).None?
    ensures RowsValid(db')
  {
    forall i | 0 <= i < |db.reservations|
      ensures RowValid(db', db'.reservations[i])
      ensures db'.reservations[i].id != r.id
      ensures !(db'.reservations[i].matchId == r.matchId && db'.reservations[i].participantId == r.participantId)
    {
      assert RowValid(db, db.reservations[i]);
      assert !WithId(r.id)(db.reservations[i]);
      assert !OfParticipant(r.matchId, r.participantId)(db.reservations[i]);
    }
  }

  lemma AddedRowKeepsSettlements(db: Db, db': Db, r: Reservation)
    requires SettlementsValid(db)
    requires db'.matches == db.matches && db'.settlements == db.settlements
    requires db'.reservations == db.reservations + [r]
    ensures SettlementsValid(db')
  {
    forall i | 0 <= i < |db'.settlements| ensures SettlementValid(db', db'.settlements[i]) {
      var s := db.settlements[i];
      assert SettlementValid(db, s);
      forall j | 0 <= j < 2 ensures SettledEntry(db', s, db.matches[s.matchId].participants[j].id) {
        assert SettledEntry(db, s, db.matches[s.matchId].participants[j].id);
        var k :| 0 <= k < |db.reservations| && db.reservations[k].matchId == s.matchId
                 && db.reservations[k].participantId == db.matches[s.matchId].participants[j].id
                 && db.reservations[k].settlementId == Some(s.id);
        assert db'.reservations[k] == db.reservations[k];
      }
    }
  }

  /** A new reservation has not been paid out, whether or not a reservation posting came with it. */
  lemma AddedRowKeepsPaidOnce(db: Db, db': Db, r: Reservation)
    requires PaidOnce(db)
    requires db'.settlements == db.settlements
    requires db'.reservations == db.reservations + [r]
    requires db'.journal == db.journal
             || exists p: Posting :: p.reference.ForMatchEntry? && db'.journal == db.journal + [p]
    requires r.status in {NotRequired, Reserved}
    requires FindFirst(db.reservations, WithId(r.id)).None?
    requires FindFirst(db.settlements, SettlementOf(r.matchId)).None?
    ensures PaidOnce(db')
  {
    forall q: Reservation ensures Payouts(db'.journal, q) == Payouts(db.journal, q) {
      if db'.journal != db.journal {
        var p: Posting :| p.reference.ForMatchEntry? && db'.journal == db.journal + [p];
        TotalAppendOne(db.journal, p, PaysOut(q.id, q.matchId));
      }
    }
    forall k | 0 <= k < |db.journal| ensures PaysOut(r.id, r.matchId)(db.journal[k]) == 0 {
      assert ReferenceKnown(db, db.journal[k].reference);
    }
    TotalZero(db.journal, PaysOut(r.id, r.matchId));
    forall k | 0 <= k < |db'.journal| ensures ReferenceKnown(db', db'.journal[k].reference) {
      if k < |db.journal| {
        assert ReferenceKnown(db, db.journal[k].reference);
        if db.journal[k].reference.ForRefund? {
          FindAppend(db.reservations, r, WithId(db.journal[k].reference.reservationId));
        }
      }
    }
  }

  lemma FreeReservationKeepsInvariant(opening: map<Id, nat>, db: Db, r: Reservation)
    requires Inv(opening, db)
    requires r.status == NotRequired && r.amount == 0 && r.settlementId.None?
    requires FindFirst(db.reservations, WithId(r.id)).None?
    requires FindFirst(db.reservations, OfParticipant(r.matchId, r.participantId)).None?
    requires RowValid(db, r)
    ensures Inv(opening, db.(reservations := db.reservations + [r]))
  {
    hide Books, PaidOnce, SettlementsValid, RowsValid;
    var db' := db.(reservations := db.reservations + [r]);
    assert RowValid(db', r);
    AddedRowKeepsRows(db, db', r);
    AddedRowKeepsSettlements(db, db', r);
    if FindFirst(db.settlements, SettlementOf(r.matchId)).Some? {
      SettledMatchIsFullyEntered(db, r.matchId, r.participantId, r.userId);
    }
    AddedRowKeepsPaidOnce(db, db', r);
    forall m ensures Total(db'.reservations, OpenStake(m)) == Total(db.reservations, OpenStake(m)) {
      TotalAppendOne(db.reservations, r, OpenStake(m));
    }
    forall u ensures Total(db'.reservations, NetEffect(db.settlements, u))
        == Total(db.reservations, NetEffect(db.settlements, u)) {
      TotalAppendOne(db.reservations, r, NetEffect(db.settlements, u));
    }
  }

  // ----- Postings -----

  /** A transfer of `amount` posted as a debit of `from` and a credit of `to`. */
  ghost predicate IsTransfer(db: Db, posted: Db, p: Posting, from: AccountId, to: AccountId, amount: int) {
    && posted.journal == db.journal + [p]
    && posted.matches == db.matches && posted.reservations == db.reservations && posted.settlements == db.settlements
    && (forall i :: 0 <= i < |db.journal| ==> db.journal[i].key != p.key)
    && from != to
    && p.entries == [Entry(from, Debit, amount, Balance(posted.accounts, from), 1),
                     Entry(to, Credit, amount, Balance(posted.accounts, to), 2)]
    && from in posted.accounts && to in posted.accounts
    && (forall a :: a in db.accounts ==> a in posted.accounts)
    && (forall a :: Balance(posted.accounts, a) ==
                    Balance(db.accounts, a) + (if a == from then -amount else if a == to then amount else 0))
  }

  lemma FreshKey(journal: seq<Posting>, key: string)
    requires Postable(journal, key)
    ensures forall i :: 0 <= i < |journal| ==> journal[i].key != key
  {
    forall i | 0 <= i < |journal| ensures journal[i].key != key {
      assert !PostingWithKey(key)(journal[i]);
    }
  }

  lemma PostReservationTransfers(db: Db, matchId: Id, userId: Id, amount: int, key: string, fingerprint: Fingerprint)
    requires PostReservation(db, matchId, userId, amount, key, fingerprint).Ok?
    ensures var (posted, t) := PostReservation(db, matchId, userId, amount, key, fingerprint).value;
            && t == |db.journal| < |posted.journal|
            && IsTransfer(db, posted, posted.journal[t], UserAvailable(userId), MatchEscrow(matchId), amount)
            && posted.journal[t].reference == ForMatchEntry(matchId)
            && Balance(db.accounts, UserAvailable(userId)) >= amount
  {
    FreshKey(db.journal, LedgerKey(key));
  }

  lemma PostRefundTransfers(db: Db, reservationId: Id, amount: int, key: string, fingerprint: Fingerprint)
    requires PostRefund(db, reservationId, amount, key, fingerprint).Ok?
    requires forall i :: 0 <= i < |db.reservations| ==> AccountsValid(db, db.reservations[i])
    ensures var (posted, t) := PostRefund(db, reservationId, amount, key, fingerprint).value;
            var row := FindFirst(db.reservations, WithId(reservationId));
            && row.Some? && row.value.status == Reserved
            && t == |db.journal| < |posted.journal|
            && IsTransfer(db, posted, posted.journal[t], MatchEscrow(row.value.matchId),
              UserAvailable(row.value.userId), amount)
            && posted.journal[t].reference == ForRefund(reservationId)
            && Balance(db.accounts, MatchEscrow(row.value.matchId)) >= amount
  {
    FreshKey(db.journal, key);
    var row := FindFirst(db.reservations, WithId(reservationId)).value;
    var i :| 0 <= i < |db.reservations| && db.reservations[i] == row;
    assert AccountsValid(db, db.reservations[i]);
  }

  lemma TransferKeepsBooks(
    opening: map<Id, nat>, db: Db, posted: Db, p: Posting, from: AccountId, to: AccountId, amount: int)
    requires Books(opening, db.accounts, db.journal)
    requires IsTransfer(db, posted, p, from, to, amount)
    requires 0 < amount <= Balance(db.accounts, from)
    ensures Books(opening, posted.accounts, posted.journal)
  {
    var debit, credit := p.entries[0], p.entries[1];
    assert p.entries[..1] == [debit];
    assert [debit][..0] == [];
    assert Imbalance([debit]) == -amount;
    forall a ensures Net(p.entries, a) == (if a == from then -amount else if a == to then amount else 0) {
      assert Net([debit], a) == if a == from then -amount else 0;
    }
    PostingKeepsBooks(opening, db.accounts, posted.accounts, db.journal, p);
  }

  // ----- A reservation with a stake -----

  lemma FundedReservationKeepsInvariant(
    opening: map<Id, nat>, db: Db, posted: Db, p: Posting, r: Reservation)
    requires Inv(opening, db)
    requires IsTransfer(db, posted, p, UserAvailable(r.userId), MatchEscrow(r.matchId), r.amount)
    requires p.reference.ForMatchEntry?
    requires 0 < r.amount <= Balance(db.accounts, UserAvailable(r.userId))
    requires r.status == Reserved && r.settlementId.None?
    requires FindFirst(db.reservations, WithId(r.id)).None?
    requires FindFirst(db.reservations, OfParticipant(r.matchId, r.participantId)).None?
    requires RowValid(posted, r)
    ensures Inv(opening, posted.(reservations := posted.reservations + [r]))
  {
    hide Books, PaidOnce, SettlementsValid, RowsValid, EscrowAgrees, UsersAgree;
    var db' := posted.(reservations := posted.reservations + [r]);
    assert RowValid(db', r);
    AddedRowKeepsRows(db, db', r);
    AddedRowKeepsSettlements(db, db', r);
    if FindFirst(db.settlements, SettlementOf(r.matchId)).Some? {
      SettledMatchIsFullyEntered(db, r.matchId, r.participantId, r.userId);
    }
    AddedRowKeepsPaidOnce(db, db', r);
    StakeLeavesUser(opening, db, posted, p, r);
    TransferKeepsBooks(opening, db, posted, p, UserAvailable(r.userId), MatchEscrow(r.matchId), r.amount);
  }

  /** What left the user's account is in the escrow. */
  lemma StakeLeavesUser(opening: map<Id, nat>, db: Db, posted: Db, p: Posting, r: Reservation)
    requires EscrowAgrees(db) && UsersAgree(opening, db)
    requires IsTransfer(db, posted, p, UserAvailable(r.userId), MatchEscrow(r.matchId), r.amount)
    requires r.status == Reserved && r.settlementId.None?
    ensures EscrowAgrees(posted.(reservations := posted.reservations + [r]))
    ensures UsersAgree(opening, posted.(reservations := posted.reservations + [r]))
  {
    forall m ensures Total(db.reservations + [r], OpenStake(m)) ==
                     Total(db.reservations, OpenStake(m)) + if m == r.matchId then r.amount else 0 {
      TotalAppendOne(db.reservations, r, OpenStake(m));
    }
    forall u ensures Total(db.reservations + [r], NetEffect(db.settlements, u)) ==
                     Total(db.reservations, NetEffect(db.settlements, u)) - if u == r.userId then r.amount else 0 {
      TotalAppendOne(db.reservations, r, NetEffect(db.settlements, u));
    }
  }

  /** A reservation that was newly made is a valid row, free or posted. */
  lemma ReserveMakesValidRow(db: Db, matchId: Id, userId: Id, key: string, now: int, newId: Id)
    requires ReserveTx(db, matchId, userId, key, now, newId).Ok?
    requires ReserveTx(db, matchId, userId, key, now, newId).value.0 != db
    ensures var (db', r) := ReserveTx(db, matchId, userId, key, now, newId).value;
            && FindFirst(db.reservations, WithId(r.id)).None?
            && FindFirst(db.reservations, OfParticipant(r.matchId, r.participantId)).None?
            && r.settlementId.None?
            && if r.amount == 0 then
                 r.status == NotRequired && RowValid(db, r) && db' == db.(reservations := db.reservations + [r])
               else
                 var outcome := PostReservation(db, r.matchId, r.userId, r.amount, key, r.fingerprint);
                 && r.amount > 0 && r.status == Reserved && outcome.Ok?
                 && RowValid(outcome.value.0, r)
                 && db' == outcome.value.0.(reservations := outcome.value.0.reservations + [r])
  {
    var Entrant(game, p) := FindContext(db, userId, matchId).value;
    var i :| 0 <= i < |game.participants| && game.participants[i] == p;
    assert TakesPart(game, p.id, p.userId);
    RequiredExactlyWhenPositive(game.configuration);
  }

  lemma ReserveKeepsInvariant(opening: map<Id, nat>, db: Db, matchId: Id, userId: Id, key: string, now: int, newId: Id)
    requires Inv(opening, db)
    ensures Inv(opening, Committed(db, ReserveTx(db, matchId, userId, key, now, newId)))
  {
    var outcome := ReserveTx(db, matchId, userId, key, now, newId);
    if outcome.Ok? && outcome.value.0 != db {
      var r := outcome.value.1;
      ReserveMakesValidRow(db, matchId, userId, key, now, newId);
      if r.amount == 0 {
        FreeReservationKeepsInvariant(opening, db, r);
      } else {
        var (posted, t) := PostReservation(db, r.matchId, r.userId, r.amount, key, r.fingerprint).value;
        PostReservationTransfers(db, r.matchId, r.userId, r.amount, key, r.fingerprint);
        FundedReservationKeepsInvariant(opening, db, posted, posted.journal[t], r);
      }
    }
  }

  // ----- Changing one reservation -----

  /** `db'` differs from `db` in the reservation at `k`, whose identity and stake stay. */
  ghost predicate ChangesRow(db: Db, db': Db, k: nat, r: Reservation) {
    && k < |db.reservations|
    && db'.matches == db.matches
    && db'.reservations == db.reservations[k := r]
    && r == db.reservations[k].(status := r.status, refundTransactionId := r.refundTransactionId,
                                settlementId := r.settlementId, outcome := r.outcome)
  }

  /** Two equal-length tables with the same identifiers look up the same references. */
  lemma ReferencesStayKnown(db: Db, db': Db, k: nat, r: Reservation, i: nat)
    requires ChangesRow(db, db', k, r) && db'.settlements == db.settlements
    requires i < |db.journal| && ReferenceKnown(db, db.journal[i].reference)
    ensures ReferenceKnown(db', db.journal[i].reference)
  {
    if db.journal[i].reference.ForRefund? {
      FindMapped(db.reservations, db'.reservations, WithId(db.journal[i].reference.reservationId));
    }
  }

  lemma ChangedRowKeepsSettlements(db: Db, db': Db, k: nat, r: Reservation)
    requires SettlementsValid(db)
    requires ChangesRow(db, db', k, r) && db'.settlements == db.settlements
    requires db.reservations[k].settlementId.None? || r.settlementId == db.reservations[k].settlementId
    ensures SettlementsValid(db')
  {
    forall i | 0 <= i < |db'.settlements| ensures SettlementValid(db', db'.settlements[i]) {
      var s := db.settlements[i];
      assert SettlementValid(db, s);
      forall j | 0 <= j < 2 ensures SettledEntry(db', s, db.matches[s.matchId].participants[j].id) {
        assert SettledEntry(db, s, db.matches[s.matchId].participants[j].id);
        var n :| 0 <= n < |db.reservations| && db.reservations[n].matchId == s.matchId
                 && db.reservations[n].participantId == db.matches[s.matchId].participants[j].id
                 && db.reservations[n].settlementId == Some(s.id);
        assert db'.reservations[n].settlementId == Some(s.id);
      }
    }
  }

  lemma ReleaseRowKeepsInvariant(opening: map<Id, nat>, db: Db, k: nat)
    requires Inv(opening, db)
    requires k < |db.reservations| && db.reservations[k].status == Reserved
    ensures Inv(opening, db.(reservations := db.reservations[k := db.reservations[k].(status := Released)]))
  {
    hide Books, EscrowAgrees, UsersAgree, RowsValid, PaidOnce, SettlementsValid;
    var r := db.reservations[k].(status := Released);
    RowIsUnsettled(db, k);
    ChangedRowKeepsSettlements(db, db.(reservations := db.reservations[k := r]), k, r);
    ReleasedRowKeepsRows(db, k, r);
    ReleasedRowKeepsPaidOnce(db, k, r);
    ReleasedRowKeepsAgreement(opening, db, k);
  }

  lemma ReleasedRowKeepsRows(db: Db, k: nat, r: Reservation)
    requires RowsValid(db)
    requires k < |db.reservations| && db.reservations[k].status == Reserved
             && r == db.reservations[k].(status := Released)
    ensures RowsValid(db.(reservations := db.reservations[k := r]))
  {
    var db' := db.(reservations := db.reservations[k := r]);
    assert RowValid(db, db.reservations[k]);
    forall i | 0 <= i < |db'.reservations| ensures RowValid(db', db'.reservations[i]) {
      assert RowValid(db, db.reservations[i]);
    }
  }

  lemma ReleasedRowKeepsPaidOnce(db: Db, k: nat, r: Reservation)
    requires PaidOnce(db)
    requires k < |db.reservations| && db.reservations[k].status == Reserved
             && r == db.reservations[k].(status := Released)
    ensures PaidOnce(db.(reservations := db.reservations[k := r]))
  {
    var db' := db.(reservations := db.reservations[k := r]);
    forall i | 0 <= i < |db.journal| ensures ReferenceKnown(db', db.journal[i].reference) {
      ReferencesStayKnown(db, db', k, r, i);
    }
    forall i | 0 <= i < |db'.reservations|
      ensures Payouts(db'.journal, db'.reservations[i]) == if db'.reservations[i].status in {Refunded, Settled}
              then 1 else 0
    {
      assert Payouts(db.journal, db.reservations[i]) == if db.reservations[i].status in {Refunded, Settled}
          then 1 else 0;
    }
  }

  /** A released stake is still in escrow. */
  lemma ReleasedRowKeepsAgreement(opening: map<Id, nat>, db: Db, k: nat)
    requires EscrowAgrees(db) && UsersAgree(opening, db)
    requires k < |db.reservations| && db.reservations[k].status == Reserved
    ensures EscrowAgrees(db.(reservations := db.reservations[k := db.reservations[k].(status := Released)]))
    ensures UsersAgree(opening, db.(reservations := db.reservations[k := db.reservations[k].(status := Released)]))
  {
    var r := db.reservations[k].(status := Released);
    forall m ensures Total(db.reservations[k := r], OpenStake(m)) == Total(db.reservations, OpenStake(m)) {
      TotalUpdate(db.reservations, k, r, OpenStake(m));
    }
    forall u ensures Total(db.reservations[k := r], NetEffect(db.settlements, u))
        == Total(db.reservations, NetEffect(db.settlements, u)) {
      TotalUpdate(db.reservations, k, r, NetEffect(db.settlements, u));
    }
  }

  lemma ReleaseAfterRow(db: Db, matchId: Id, k: nat)
    requires k < |db.reservations|
    ensures ReleaseTx(db.(reservations := db.reservations[k := ReleasedRow(matchId)(db.reservations[k])]), matchId)
         == ReleaseTx(db, matchId)
  {
  }

  /** The release of a match is the release of its reserved rows one after the other. */
  lemma {:induction false} ReleaseKeepsInvariant(opening: map<Id, nat>, db: Db, matchId: Id, n: nat)
    requires Inv(opening, db)
    requires n <= |db.reservations|
    requires forall i :: n <= i < |db.reservations| ==> ReleasedRow(matchId)(db.reservations[i]) == db.reservations[i]
    ensures Inv(opening, ReleaseTx(db, matchId))
    decreases n
  {
    hide Inv;
    if n == 0 {
      NothingToRelease(db, matchId);
    } else {
      var k := n - 1;
      var r := ReleasedRow(matchId)(db.reservations[k]);
      ReleaseAfterRow(db, matchId, k);
      if r != db.reservations[k] {
        ReleaseRowKeepsInvariant(opening, db, k);
      } else {
        assert db.reservations[k := r] == db.reservations;
      }
      ReleaseKeepsInvariant(opening, db.(reservations := db.reservations[k := r]), matchId, k);
    }
  }

  lemma NothingToRelease(db: Db, matchId: Id)
    requires forall i :: 0 <= i < |db.reservations| ==> ReleasedRow(matchId)(db.reservations[i]) == db.reservations[i]
    ensures ReleaseTx(db, matchId) == db
  {
  }

  // ----- Refunding -----

  /** A refund that goes through posts one transfer and marks the one row. */
  lemma RefundOneChangesOneRow(db: Db, key: string, k: nat)
    requires RowsValid(db)
    requires k < |db.reservations|
    requires RefundOne(db, key, db.reservations[k]).Ok?
    ensures var row := db.reservations[k];
            var outcome := PostRefund(db, row.id, row.amount, RefundKey(key, row.id), RefundFingerprint(row));
            var marked := row.(status := Refunded, refundTransactionId := Some(|db.journal|));
            && outcome.Ok? && row.status == Reserved && outcome.value.1 == |db.journal|
            && FindFirst(db.reservations, WithId(row.id)) == Some(row)
            && RefundOne(db, key, row) == Ok((outcome.value.0.(reservations := db.reservations[k := marked]), marked))
  {
    hide RowValid, PostRefund, MapRows;
    var row := db.reservations[k];
    FindUnique(db.reservations, WithId(row.id), k);
    PostRefundKeepsRows(db, row.id, row.amount, RefundKey(key, row.id), RefundFingerprint(row));
    MapAtIndex(db.reservations, RefundedRow(row.id, |db.journal|), k);
  }

  lemma PostRefundKeepsRows(db: Db, reservationId: Id, amount: int, key: string, fingerprint: Fingerprint)
    requires PostRefund(db, reservationId, amount, key, fingerprint).Ok?
    ensures PostRefund(db, reservationId, amount, key, fingerprint).value.0.reservations == db.reservations
    ensures PostRefund(db, reservationId, amount, key, fingerprint).value.1 == |db.journal|
  {
  }

  lemma RefundedRowKeepsAgreement(opening: map<Id, nat>, db: Db, posted: Db, p: Posting, k: nat, r: Reservation)
    requires EscrowAgrees(db) && UsersAgree(opening, db)
    requires k < |db.reservations| && db.reservations[k].status == Reserved
    requires r.status == Refunded
             && r == db.reservations[k].(status := Refunded, refundTransactionId := r.refundTransactionId)
    requires r.settlementId.None?
    requires IsTransfer(db, posted, p, MatchEscrow(r.matchId), UserAvailable(r.userId), r.amount)
    ensures EscrowAgrees(posted.(reservations := posted.reservations[k := r]))
    ensures UsersAgree(opening, posted.(reservations := posted.reservations[k := r]))
  {
    forall m ensures Total(db.reservations[k := r], OpenStake(m)) ==
                     Total(db.reservations, OpenStake(m)) - if m == r.matchId then r.amount else 0 {
      TotalUpdate(db.reservations, k, r, OpenStake(m));
    }
    forall u ensures Total(db.reservations[k := r], NetEffect(db.settlements, u)) ==
                     Total(db.reservations, NetEffect(db.settlements, u)) + if u == r.userId then r.amount else 0 {
      TotalUpdate(db.reservations, k, r, NetEffect(db.settlements, u));
    }
  }

  lemma RefundedRowKeepsRows(db: Db, posted: Db, k: nat, r: Reservation)
    requires RowsValid(db)
    requires posted.matches == db.matches && posted.settlements == db.settlements
             && posted.reservations == db.reservations
    requires forall a :: a in db.accounts ==> a in posted.accounts
    requires k < |db.reservations| && db.reservations[k].status == Reserved
    requires r == db.reservations[k].(status := Refunded, refundTransactionId := r.refundTransactionId)
    ensures RowsValid(posted.(reservations := posted.reservations[k := r]))
  {
    var db' := posted.(reservations := posted.reservations[k := r]);
    assert RowValid(db, db.reservations[k]);
    forall i | 0 <= i < |db'.reservations| ensures RowValid(db', db'.reservations[i]) {
      assert RowValid(db, db.reservations[i]);
    }
  }

  /** The refund's posting is the first payout of its reservation and touches no other. */
  lemma RefundedRowKeepsPaidOnce(db: Db, posted: Db, p: Posting, k: nat, r: Reservation)
    requires RowsValid(db) && PaidOnce(db)
    requires posted.journal == db.journal + [p] && p.reference == ForRefund(r.id)
    requires posted.settlements == db.settlements && posted.reservations == db.reservations
             && posted.matches == db.matches
    requires k < |db.reservations| && db.reservations[k].status == Reserved
    requires r == db.reservations[k].(status := Refunded, refundTransactionId := r.refundTransactionId)
    ensures PaidOnce(posted.(reservations := posted.reservations[k := r]))
  {
    hide RowValid;
    var db' := posted.(reservations := posted.reservations[k := r]);
    forall i | 0 <= i < |db'.reservations|
      ensures Payouts(db'.journal, db'.reservations[i]) == if db'.reservations[i].status in {Refunded, Settled}
              then 1 else 0
    {
      var q := db.reservations[i];
      assert Payouts(db.journal, q) == if q.status in {Refunded, Settled} then 1 else 0;
      TotalAppendOne(db.journal, p, PaysOut(q.id, q.matchId));
    }
    forall i | 0 <= i < |db'.journal| ensures ReferenceKnown(db', db'.journal[i].reference) {
      if i < |db.journal| {
        ReferencesStayKnown(db, db.(reservations := db'.reservations), k, r, i);
      } else {
        assert WithId(r.id)(db'.reservations[k]);
      }
    }
  }

  lemma RefundOneKeepsInvariant(opening: map<Id, nat>, db: Db, key: string, k: nat)
    requires Inv(opening, db)
    requires k < |db.reservations| && RefundOne(db, key, db.reservations[k]).Ok?
    ensures Inv(opening, RefundOne(db, key, db.reservations[k]).value.0)
  {
    var row := db.reservations[k];
    RefundOneChangesOneRow(db, key, k);
    RowIsUnsettled(db, k);
    var posted := PostRefund(db, row.id, row.amount, RefundKey(key, row.id), RefundFingerprint(row)).value.0;
    AllAccountsValid(db);
    PostRefundTransfers(db, row.id, row.amount, RefundKey(key, row.id), RefundFingerprint(row));
    FinishRefund(opening, db, posted, posted.journal[|db.journal|], k,
      row.(status := Refunded, refundTransactionId := Some(|db.journal|)));
  }

  lemma AllAccountsValid(db: Db)
    requires RowsValid(db)
    ensures forall i :: 0 <= i < |db.reservations| ==> AccountsValid(db, db.reservations[i])
  {
    forall i | 0 <= i < |db.reservations| ensures AccountsValid(db, db.reservations[i]) {
      assert RowValid(db, db.reservations[i]);
    }
  }

  lemma RowIsUnsettled(db: Db, k: nat)
    requires RowsValid(db)
    requires k < |db.reservations| && HoldsStake(db.reservations[k])
    ensures db.reservations[k].settlementId.None? && db.reservations[k].amount > 0
  {
    assert RowValid(db, db.reservations[k]);
  }

  lemma FinishRefund(opening: map<Id, nat>, db: Db, posted: Db, p: Posting, k: nat, r: Reservation)
    requires Inv(opening, db)
    requires k < |db.reservations| && db.reservations[k].status == Reserved
    requires r == db.reservations[k].(status := Refunded, refundTransactionId := r.refundTransactionId)
    requires r.settlementId.None? && 0 < r.amount <= Balance(db.accounts, MatchEscrow(r.matchId))
    requires IsTransfer(db, posted, p, MatchEscrow(r.matchId), UserAvailable(r.userId), r.amount)
    requires p.reference == ForRefund(r.id)
    ensures Inv(opening, posted.(reservations := posted.reservations[k := r]))
  {
    hide Books, PaidOnce, EscrowAgrees, UsersAgree, SettlementsValid, RowsValid;
    var db' := posted.(reservations := posted.reservations[k := r]);
    RefundedRowKeepsRows(db, posted, k, r);
    RefundedRowKeepsPaidOnce(db, posted, p, k, r);
    RefundedRowKeepsAgreement(opening, db, posted, p, k, r);
    TransferKeepsBooks(opening, db, posted, p, MatchEscrow(r.matchId), UserAvailable(r.userId), r.amount);
    ChangedRowKeepsSettlements(db, db', k, r);
  }

  /** The rows still to refund are rows of the table, each once. */
  ghost predicate RowsFrom(db: Db, rows: seq<Reservation>) {
    && (forall i :: 0 <= i < |rows| ==> rows[i] in db.reservations)
    && (forall i, j :: 0 <= i < j < |rows| ==> rows[i].id != rows[j].id)
  }

  lemma RestStaysInTable(db: Db, db': Db, rows: seq<Reservation>, k: nat, r: Reservation)
    requires RowsFrom(db, rows) && rows != []
    requires k < |db.reservations| && db.reservations[k].id == rows[0].id
    requires db'.reservations == db.reservations[k := r]
    ensures RowsFrom(db', rows[1..])
  {
    forall i | 0 <= i < |rows[1..]| ensures rows[1..][i] in db'.reservations {
      assert rows[i + 1] in db.reservations;
      var j :| 0 <= j < |db.reservations| && db.reservations[j] == rows[i + 1];
      assert db'.reservations[j] == rows[i + 1];
    }
  }

  /** One round of the loop leaves the rest of the rows refundable. */
  lemma RefundRoundKeepsInvariant(opening: map<Id, nat>, db: Db, key: string, rows: seq<Reservation>)
    requires Inv(opening, db) && RowsFrom(db, rows) && rows != []
    requires RefundOne(db, key, rows[0]).Ok?
    ensures Inv(opening, RefundOne(db, key, rows[0]).value.0)
    ensures RowsFrom(RefundOne(db, key, rows[0]).value.0, rows[1..])
  {
    assert rows[0] in db.reservations;
    var k :| 0 <= k < |db.reservations| && db.reservations[k] == rows[0];
    var (next, marked) := RefundOne(db, key, rows[0]).value;
    RefundOneKeepsInvariant(opening, db, key, k);
    RefundOneChangesOneRow(db, key, k);
    RestStaysInTable(db, next, rows, k, marked);
  }

  lemma RefundRowsUnfold(db: Db, key: string, rows: seq<Reservation>, done: seq<Reservation>)
    requires rows != []
    ensures RefundOne(db, key, rows[0]).Err? ==>
            RefundRows(db, key, rows, done) == Err(RefundOne(db, key, rows[0]).error)
    ensures RefundOne(db, key, rows[0]).Ok? ==>
              RefundRows(db, key, rows, done) ==
              RefundRows(RefundOne(db, key, rows[0]).value.0, key, rows[1..],
                done + [RefundOne(db, key, rows[0]).value.1])
  {
  }

  lemma {:induction false} RefundRowsKeepInvariant(
    opening: map<Id, nat>, db: Db, key: string, rows: seq<Reservation>, done: seq<Reservation>)
    requires Inv(opening, db)
    requires RowsFrom(db, rows)
    ensures Inv(opening, Committed(db, RefundRows(db, key, rows, done)))
    decreases rows
  {
    hide Inv, RefundOne;
    if rows != [] {
      RefundRowsUnfold(db, key, rows, done);
      if RefundOne(db, key, rows[0]).Ok? {
        RefundRoundKeepsInvariant(opening, db, key, rows);
        var (next, marked) := RefundOne(db, key, rows[0]).value;
        RefundRowsKeepInvariant(opening, next, key, rows[1..], done + [marked]);
      }
    }
  }

  lemma ListedRowsAreFromTable(db: Db, matchId: Id, limit: int)
    requires RowsValid(db)
    ensures RowsFrom(db, ListRefundable(db, matchId, limit))
    ensures forall i :: 0 <= i < |ListRefundable(db, matchId, limit)| ==>
              Refundable(matchId)(ListRefundable(db, matchId, limit)[i])
  {
    var found := Filter(db.reservations, Refundable(matchId));
    var sorted := SortedBy(found, ById());
    DistinctFilter(db.reservations, Refundable(matchId));
    DistinctSort(found, ById());
    forall i | 0 <= i < |sorted| ensures sorted[i] in db.reservations && Refundable(matchId)(sorted[i]) {
      SortMembers(found, ById(), sorted[i]);
      FilterMembers(db.reservations, Refundable(matchId), sorted[i]);
    }
  }

  lemma RefundKeepsInvariant(
    opening: map<Id, nat>, db: Db, matchId: Id, key: string, reason: RefundReason, limit: Option<int>)
    requires Inv(opening, db)
    ensures Inv(opening, Committed(db, RefundTx(db, matchId, key, reason, limit)))
  {
    var rows := ListRefundable(db, matchId, Clamp(limit));
    ListedRowsAreFromTable(db, matchId, Clamp(limit));
    RefundRowsKeepInvariant(opening, db, key, rows, []);
  }

  // ----- Settling -----

  /** The settled rows: the two at `i` and `j` are all the match has, and both stakes are in escrow. */
  ghost predicate IsPair(db: Db, matchId: Id, rows: seq<Reservation>, i: nat, j: nat) {
    && i < |db.reservations| && j < |db.reservations| && i != j
    && rows == [db.reservations[i], db.reservations[j]]
    && rows[0].matchId == rows[1].matchId == matchId
    && HoldsStake(rows[0]) && HoldsStake(rows[1])
    && rows[0].participantId != rows[1].participantId && rows[0].userId != rows[1].userId
    && rows[0].id != rows[1].id
    && rows[0].amount == rows[1].amount > 0
    && (forall n :: 0 <= n < |db.reservations| && n != i && n != j ==> db.reservations[n].matchId != matchId)
  }

  lemma RowsOfMatch(db: Db, matchId: Id, leq: (Reservation, Reservation) -> bool)
    requires RowsValid(db)
    ensures Distinct(SortedBy(Filter(db.reservations, OfMatch(matchId)), leq))
    ensures forall r ::
              r in SortedBy(Filter(db.reservations, OfMatch(matchId)), leq) <==>
              r in db.reservations && r.matchId == matchId
  {
    var found := Filter(db.reservations, OfMatch(matchId));
    DistinctFilter(db.reservations, OfMatch(matchId));
    DistinctSort(found, leq);
    forall r ensures r in SortedBy(found, leq) <==> r in db.reservations && r.matchId == matchId {
      SortMembers(found, leq, r);
      FilterMembers(db.reservations, OfMatch(matchId), r);
    }
  }

  lemma ParticipantsDiffer(db: Db, i: nat, j: nat)
    requires MatchesValid(db) && RowsValid(db)
    requires i < |db.reservations| && j < |db.reservations| && i != j
    requires db.reservations[i].matchId == db.reservations[j].matchId
    ensures db.reservations[i].participantId != db.reservations[j].participantId
    ensures db.reservations[i].userId != db.reservations[j].userId
    ensures db.reservations[i].amount == db.reservations[j].amount
  {
    var a, b := db.reservations[i], db.reservations[j];
    assert RowValid(db, a) && RowValid(db, b);
    var ps := db.matches[a.matchId].participants;
    assert TakesPart(db.matches[a.matchId], a.participantId, a.userId);
    assert TakesPart(db.matches[a.matchId], b.participantId, b.userId);
    var x :| 0 <= x < |ps| && ps[x].id == a.participantId && ps[x].userId == a.userId;
    var y :| 0 <= y < |ps| && ps[y].id == b.participantId && ps[y].userId == b.userId;
    assert x != y;
  }

  lemma EligibleMeans(c: Context, now: int)
    requires Eligible(c, now)
    ensures !c.settlementExists && |c.reservations| == 2
    ensures HoldsStake(c.reservations[0]) && HoldsStake(c.reservations[1])
    ensures TypeOf(c) == WinnerTakesAll ==>
              c.winner == Some(c.reservations[0].participantId) || c.winner == Some(c.reservations[1].participantId)
    ensures c.escrowBalance == Total(c.reservations, AmountOf())
  {
    assert !Applies(c, now, AlreadySettled) && !Applies(c, now, ParticipantCountInvalid);
    assert !Applies(c, now, ReservationAlreadyRefunded) && !Applies(c, now, ReservationNotReleased);
    assert AwaitsPayout(c, c.reservations[0]) && AwaitsPayout(c, c.reservations[1]);
    assert !Applies(c, now, WinnerNotParticipant) && !Applies(c, now, EscrowBalanceMismatch);
  }

  /** Two open rows that are all the rows of a match form a pair. */
  lemma TwoOpenRowsArePair(db: Db, matchId: Id, a: Reservation, b: Reservation) returns (i: nat, j: nat)
    requires MatchesValid(db) && RowsValid(db)
    requires a != b && HoldsStake(a) && HoldsStake(b)
    requires forall r :: r in [a, b] <==> r in db.reservations && r.matchId == matchId
    ensures IsPair(db, matchId, [a, b], i, j)
  {
    assert a in [a, b] && b in [a, b];
    i :| 0 <= i < |db.reservations| && db.reservations[i] == a;
    j :| 0 <= j < |db.reservations| && db.reservations[j] == b;
    ParticipantsDiffer(db, i, j);
    RowIsUnsettled(db, i);
    forall n | 0 <= n < |db.reservations| && n != i && n != j ensures db.reservations[n].matchId != matchId {
      assert db.reservations[n] !in [a, b];
    }
  }

  lemma EligibleRowsArePair(db: Db, matchId: Id, c: Context, now: int) returns (i: nat, j: nat)
    requires MatchesValid(db) && RowsValid(db)
    requires c.reservations == SortedBy(Filter(db.reservations, OfMatch(matchId)), ByParticipant())
    requires Eligible(c, now)
    ensures IsPair(db, matchId, c.reservations, i, j)
  {
    var rows := c.reservations;
    EligibleMeans(c, now);
    RowsOfMatch(db, matchId, ByParticipant());
    assert rows == [rows[0], rows[1]];
    i, j := TwoOpenRowsArePair(db, matchId, rows[0], rows[1]);
  }

  // ----- The settlement's posting -----

  function Receives(settlementType: SettlementType, winner: Option<Id>, total: int, r: Reservation): int {
    if settlementType != WinnerTakesAll then r.amount else if winner == Some(r.participantId) then total else 0
  }

  /** The posting empties the escrow and credits each of the two users what they receive. */
  ghost predicate IsPayout(
    db: Db, posted: Db, p: Posting, settlementType: SettlementType, winner: Option<Id>, a: Reservation,
    b: Reservation) {
    var escrow := MatchEscrow(a.matchId);
    var total := a.amount + b.amount;
    && posted.journal == db.journal + [p] && p.reference == ForSettlement(a.matchId)
    && posted.matches == db.matches && posted.reservations == db.reservations && posted.settlements == db.settlements
    && (forall x :: x in db.accounts ==> x in posted.accounts)
    && (forall i :: 0 <= i < |db.journal| ==> db.journal[i].key != p.key)
    && Balanced(p)
    && (forall i :: 0 <= i < |p.entries| ==>
      p.entries[i].balanceAfter == Balance(posted.accounts, p.entries[i].account))
    && (forall x :: Net(p.entries, x) ==
                    (if x == escrow then -total else 0)
                    + (if x == UserAvailable(a.userId) then Receives(settlementType, winner, total, a) else 0)
                    + (if x == UserAvailable(b.userId) then Receives(settlementType, winner, total, b) else 0))
    && (forall x :: Balance(posted.accounts, x) == Balance(db.accounts, x) + Net(p.entries, x))
    && (forall i :: 0 <= i < |p.entries| ==> p.entries[i].account in posted.accounts)
    && Balance(posted.accounts, escrow) == 0
  }

  /** The entries of a payout to one recipient. */
  lemma NetOfTwo(x: Entry, y: Entry, a: AccountId)
    ensures Net([x, y], a) == (if x.account == a then Signed(x) else 0) + (if y.account == a then Signed(y) else 0)
    ensures Imbalance([x, y]) == Signed(x) + Signed(y)
  {
    assert [x, y][..1] == [x];
    assert [x][..0] == [];
    assert Net([x], a) == if x.account == a then Signed(x) else 0;
    assert Imbalance([x]) == Signed(x);
  }

  lemma NetOfThree(x: Entry, y: Entry, z: Entry, a: AccountId)
    ensures Net([x, y, z], a) ==
            (if x.account == a then Signed(x) else 0) + (if y.account == a then Signed(y) else 0)
              + (if z.account == a then Signed(z) else 0)
    ensures Imbalance([x, y, z]) == Signed(x) + Signed(y) + Signed(z)
  {
    assert [x, y, z][..2] == [x, y];
    NetOfTwo(x, y, a);
  }

  lemma TotalOfPair(a: Reservation, b: Reservation)
    ensures Total([a, b], AmountOf()) == a.amount + b.amount
  {
    assert [a, b][1..] == [b];
    TotalSingle(b, AmountOf());
  }

  /** The winner alone is credited when one takes all. */
  lemma WinnerRecipients(winner: Option<Id>, a: Reservation, b: Reservation, total: int)
    requires a.ledgerAccountId.Some? && b.ledgerAccountId.Some?
    requires a.participantId != b.participantId
    requires winner == Some(a.participantId) || winner == Some(b.participantId)
    ensures Recipients(WinnerTakesAll, winner, [a, b], total) ==
            [Recipient(if winner == Some(a.participantId) then a.ledgerAccountId.value else b.ledgerAccountId.value,
              total)]
  {
    assert [a, b][1..] == [b];
    assert [b][1..] == [];
    assert Recipients(WinnerTakesAll, winner, [b], total) ==
           if winner == Some(b.participantId) then [Recipient(b.ledgerAccountId.value, total)] else [];
  }

  lemma RefundRecipients(settlementType: SettlementType, winner: Option<Id>, a: Reservation, b: Reservation, total: int)
    requires a.ledgerAccountId.Some? && b.ledgerAccountId.Some?
    requires settlementType != WinnerTakesAll
    ensures Recipients(settlementType, winner, [a, b], total) ==
            [Recipient(a.ledgerAccountId.value, a.amount), Recipient(b.ledgerAccountId.value, b.amount)]
  {
    assert [a, b][1..] == [b];
    assert [b][1..] == [];
    assert Recipients(settlementType, winner, [b], total) == [Recipient(b.ledgerAccountId.value, b.amount)];
  }

  lemma CreditOne(accounts: Accounts, r: Recipient)
    requires r.account in accounts
    ensures var next := Increment(accounts, r.account, r.credit);
            CreditAll(accounts, [r], []) == Ok((next, [Entry(r.account, Credit, r.credit, next[r.account].balance, 2)]))
  {
    var next := Increment(accounts, r.account, r.credit);
    var e := Entry(r.account, Credit, r.credit, next[r.account].balance, 2);
    assert CreditAll(accounts, [r], []) == CreditAll(next, [], [] + [e]);
    assert [] + [e] == [e];
  }

  lemma CreditTwo(accounts: Accounts, r: Recipient, s: Recipient)
    requires r.account in accounts && s.account in accounts && r.account != s.account
    ensures var next := Increment(Increment(accounts, r.account, r.credit), s.account, s.credit);
            CreditAll(accounts, [r, s], []) ==
            Ok((next, [Entry(r.account, Credit, r.credit, next[r.account].balance, 2),
                       Entry(s.account, Credit, s.credit, next[s.account].balance, 3)]))
  {
    assert [r, s][1..] == [s];
    assert [s][1..] == [];
    var first := Increment(accounts, r.account, r.credit);
    var e := Entry(r.account, Credit, r.credit, first[r.account].balance, 2);
    assert [] + [e] == [e];
    var next := Increment(first, s.account, s.credit);
    var f := Entry(s.account, Credit, s.credit, next[s.account].balance, 3);
    assert CreditAll(first, [s], [e]) == CreditAll(next, [], [e] + [f]);
    assert [e] + [f] == [e, f];
  }

  predicate ReadyToPay(db: Db, a: Reservation, b: Reservation) {
    && AccountsValid(db, a) && AccountsValid(db, b)
    && a.matchId == b.matchId && a.userId != b.userId && a.participantId != b.participantId
    && a.amount > 0 && b.amount > 0
    && Balance(db.accounts, MatchEscrow(a.matchId)) == a.amount + b.amount
  }

  /** One recipient takes the whole escrow. */
  lemma PostWinner(db: Db, winner: Option<Id>, a: Reservation, b: Reservation, key: string, fingerprint: Fingerprint)
    requires ReadyToPay(db, a, b)
    requires winner == Some(a.participantId) || winner == Some(b.participantId)
    ensures var escrow, total := MatchEscrow(a.matchId), a.amount + b.amount;
            var account := UserAvailable(if winner == Some(a.participantId) then a.userId else b.userId);
            var debited := Increment(db.accounts, escrow, -total);
            var accounts := Increment(debited, account, total);
            PostSettlement(db, a.matchId, WinnerTakesAll, winner, [a, b], key, fingerprint) ==
            Post(db.(accounts := accounts),
                 Posting(MatchWinnerSettlement, key, fingerprint, ForSettlement(a.matchId),
                         [Entry(escrow, Debit, total, 0, 1),
                           Entry(account, Credit, total, accounts[account].balance, 2)]))
  {
    var escrow, total := MatchEscrow(a.matchId), a.amount + b.amount;
    TotalOfPair(a, b);
    WinnerRecipients(winner, a, b, total);
    var debited := Increment(db.accounts, escrow, -total);
    var r := Recipients(WinnerTakesAll, winner, [a, b], total)[0];
    CreditOne(debited, r);
    var e := CreditAll(debited, [r], []).value.1[0];
    assert [Entry(escrow, Debit, total, 0, 1)] + [e] == [Entry(escrow, Debit, total, 0, 1), e];
  }

  /** Both recipients get their own stake back. */
  lemma PostStakesBack(
    db: Db, settlementType: SettlementType, winner: Option<Id>, a: Reservation, b: Reservation, key: string,
    fingerprint: Fingerprint)
    requires ReadyToPay(db, a, b)
    requires settlementType != WinnerTakesAll
    ensures var escrow, total := MatchEscrow(a.matchId), a.amount + b.amount;
            var x, y := UserAvailable(a.userId), UserAvailable(b.userId);
            var debited := Increment(db.accounts, escrow, -total);
            var accounts := Increment(Increment(debited, x, a.amount), y, b.amount);
            PostSettlement(db, a.matchId, settlementType, winner, [a, b], key, fingerprint) ==
            Post(db.(accounts := accounts),
                 Posting(PostingTypeOf(settlementType), key, fingerprint, ForSettlement(a.matchId),
                         [Entry(escrow, Debit, total, 0, 1),
                          Entry(x, Credit, a.amount, accounts[x].balance, 2),
                          Entry(y, Credit, b.amount, accounts[y].balance, 3)]))
  {
    var escrow, total := MatchEscrow(a.matchId), a.amount + b.amount;
    TotalOfPair(a, b);
    RefundRecipients(settlementType, winner, a, b, total);
    var debited := Increment(db.accounts, escrow, -total);
    var r, s := Recipient(UserAvailable(a.userId), a.amount), Recipient(UserAvailable(b.userId), b.amount);
    CreditTwo(debited, r, s);
    var es := CreditAll(debited, [r, s], []).value.1;
    assert [Entry(escrow, Debit, total, 0, 1)] + es == [Entry(escrow, Debit, total, 0, 1), es[0], es[1]];
  }

  lemma WinnerPayout(db: Db, posted: Db, p: Posting, winner: Option<Id>, a: Reservation, b: Reservation)
    requires ReadyToPay(db, a, b)
    requires winner == Some(a.participantId) || winner == Some(b.participantId)
    requires Postable(db.journal, p.key) && p.reference == ForSettlement(a.matchId)
    requires var escrow, total := MatchEscrow(a.matchId), a.amount + b.amount;
             var account := UserAvailable(if winner == Some(a.participantId) then a.userId else b.userId);
             var accounts := Increment(Increment(db.accounts, escrow, -total), account, total);
             && p.entries
               == [Entry(escrow, Debit, total, 0, 1), Entry(account, Credit, total, accounts[account].balance, 2)]
             && posted == db.(accounts := accounts, journal := db.journal + [p])
    ensures IsPayout(db, posted, p, WinnerTakesAll, winner, a, b)
  {
    FreshKey(db.journal, p.key);
    forall x ensures Net(p.entries, x) == (if p.entries[0].account == x then Signed(p.entries[0]) else 0)
                                        + (if p.entries[1].account == x then Signed(p.entries[1]) else 0) {
      NetOfTwo(p.entries[0], p.entries[1], x);
    }
    NetOfTwo(p.entries[0], p.entries[1], MatchEscrow(a.matchId));
  }

  lemma StakesBackPayout(
    db: Db, posted: Db, p: Posting, settlementType: SettlementType, winner: Option<Id>, a: Reservation, b: Reservation)
    requires ReadyToPay(db, a, b)
    requires settlementType != WinnerTakesAll
    requires Postable(db.journal, p.key) && p.reference == ForSettlement(a.matchId)
    requires var escrow, total := MatchEscrow(a.matchId), a.amount + b.amount;
             var x, y := UserAvailable(a.userId), UserAvailable(b.userId);
             var accounts := Increment(Increment(Increment(db.accounts, escrow, -total), x, a.amount), y, b.amount);
             && p.entries == [Entry(escrow, Debit, total, 0, 1),
                              Entry(x, Credit, a.amount, accounts[x].balance, 2),
                              Entry(y, Credit, b.amount, accounts[y].balance, 3)]
             && posted == db.(accounts := accounts, journal := db.journal + [p])
    ensures IsPayout(db, posted, p, settlementType, winner, a, b)
  {
    FreshKey(db.journal, p.key);
    var escrow, x, y := MatchEscrow(a.matchId), UserAvailable(a.userId), UserAvailable(b.userId);
    StakesBackNet(p.entries, escrow, x, y, a.amount, b.amount);
    StakesBackBalances(db.accounts, escrow, x, y, a.amount, b.amount);
  }

  lemma StakesBackBalances(accounts: Accounts, escrow: AccountId, x: AccountId, y: AccountId, m: int, n: int)
    requires escrow in accounts && x in accounts && y in accounts && escrow != x && escrow != y && x != y
    ensures var after := Increment(Increment(Increment(accounts, escrow, -(m + n)), x, m), y, n);
            forall a :: Balance(after, a) ==
                        Balance(accounts, a) + (if a == escrow then -(m + n) else 0) + (if a == x then m else 0)
                          + (if a == y then n else 0)
  {
  }

  lemma StakesBackNet(es: seq<Entry>, escrow: AccountId, x: AccountId, y: AccountId, m: int, n: int)
    requires |es| == 3 && escrow != x && escrow != y && x != y
    requires es[0].account == escrow && es[0].direction == Debit && es[0].amount == m + n
    requires es[1].account == x && es[1].direction == Credit && es[1].amount == m
    requires es[2].account == y && es[2].direction == Credit && es[2].amount == n
    ensures Imbalance(es) == 0
    ensures forall a ::
              Net(es, a)
              == (if a == escrow then -(m + n) else 0) + (if a == x then m else 0) + (if a == y then n else 0)
  {
    assert es == [es[0], es[1], es[2]];
    forall a
      ensures Net(es, a)
              == (if a == escrow then -(m + n) else 0) + (if a == x then m else 0) + (if a == y then n else 0)
    {
      NetOfThree(es[0], es[1], es[2], a);
    }
    NetOfThree(es[0], es[1], es[2], escrow);
  }

  /** With the stakes of a pair in its escrow, the posting succeeds exactly when its key is new. */
  lemma PayoutOfPair(
    db: Db, settlementType: SettlementType, winner: Option<Id>, a: Reservation, b: Reservation, key: string,
    fingerprint: Fingerprint)
    requires ReadyToPay(db, a, b)
    requires settlementType == WinnerTakesAll ==> winner == Some(a.participantId) || winner == Some(b.participantId)
    ensures var outcome := PostSettlement(db, a.matchId, settlementType, winner, [a, b], key, fingerprint);
            if !Postable(db.journal, key) then outcome == Err(PersistenceFailure)
            else
              && outcome.Ok? && outcome.value.1 == |db.journal| < |outcome.value.0.journal|
              && IsPayout(db, outcome.value.0, outcome.value.0.journal[|db.journal|], settlementType, winner, a, b)
  {
    if settlementType == WinnerTakesAll {
      PostWinner(db, winner, a, b, key, fingerprint);
    } else {
      PostStakesBack(db, settlementType, winner, a, b, key, fingerprint);
    }
    if Postable(db.journal, key) {
      var posted := PostSettlement(db, a.matchId, settlementType, winner, [a, b], key, fingerprint).value.0;
      if settlementType == WinnerTakesAll {
        WinnerPayout(db, posted, posted.journal[|db.journal|], winner, a, b);
      } else {
        StakesBackPayout(db, posted, posted.journal[|db.journal|], settlementType, winner, a, b);
      }
    }
  }

  // ----- The settlement's rows -----

  function AsSettled(r: Reservation, s: Settlement, winner: Option<Id>): Reservation {
    r.(status := if s.settlementType == WinnerTakesAll then Settled else Refunded,
       settlementId := Some(s.id), outcome := Some(OutcomeOf(s.settlementType, winner, r)))
  }

  lemma MarkSettledOne(table: seq<Reservation>, r: Reservation, s: Settlement, winner: Option<Id>, k: nat)
    requires k < |table| && table[k] == r
    requires forall i :: 0 <= i < |table| && i != k ==> table[i].id != r.id
    ensures MapRows(table, SettledRow(r.id, s, OutcomeOf(s.settlementType, winner, r)))
            == table[k := AsSettled(r, s, winner)]
  {
    MapAtIndex(table, SettledRow(r.id, s, OutcomeOf(s.settlementType, winner, r)), k);
  }

  lemma MarkSettledPair(db: Db, matchId: Id, rows: seq<Reservation>, s: Settlement, winner: Option<Id>, i: nat, j: nat)
    requires RowsValid(db) && IsPair(db, matchId, rows, i, j)
    ensures MarkSettled(db.reservations, rows, s, winner) ==
            db.reservations[i := AsSettled(rows[0], s, winner)][j := AsSettled(rows[1], s, winner)]
  {
    hide MapRows, SettledRow, OutcomeOf, RowValid;
    var a, b := rows[0], rows[1];
    var half := db.reservations[i := AsSettled(a, s, winner)];
    assert forall n :: 0 <= n < |half| ==> half[n].id == db.reservations[n].id;
    MarkSettledOne(db.reservations, a, s, winner, i);
    MarkSettledOne(half, b, s, winner, j);
    MarkSettledUnfold(db.reservations, a, b, s, winner);
  }

  lemma MarkSettledUnfold(table: seq<Reservation>, a: Reservation, b: Reservation, s: Settlement, winner: Option<Id>)
    ensures MarkSettled(table, [a, b], s, winner) ==
            MapRows(MapRows(table, SettledRow(a.id, s, OutcomeOf(s.settlementType, winner, a))),
                    SettledRow(b.id, s, OutcomeOf(s.settlementType, winner, b)))
  {
    assert [a, b][1..] == [b];
    assert [b][1..] == [];
    var half := MapRows(table, SettledRow(a.id, s, OutcomeOf(s.settlementType, winner, a)));
    assert MarkSettled(half, [b], s, winner) ==
           MarkSettled(MapRows(half, SettledRow(b.id, s, OutcomeOf(s.settlementType, winner, b))), [], s, winner);
  }

  /** The settlement row says what the posting paid. */
  predicate Records(db: Db, s: Settlement, matchId: Id, a: Reservation, b: Reservation, winner: Option<Id>) {
    && s.matchId == matchId && s.total == a.amount + b.amount
    && s.fingerprint.SettlementFingerprint? && s.fingerprint.settledMatch == matchId
    && s.fingerprint.settlementType == Some(s.settlementType)
    && (if s.settlementType == WinnerTakesAll then
          && s.status == SettlementSettled && s.distributed == s.total && s.refunded == 0 && s.winner == winner
          && (winner == Some(a.participantId) || winner == Some(b.participantId))
        else s.status == SettlementRefunded && s.distributed == 0 && s.refunded == s.total && s.winner.None?)
    && FindFirst(db.settlements, SettlementOf(matchId)).None?
    && FindFirst(db.settlements, SettlementWithId(s.id)).None?
    && FindFirst(db.settlements, SettlementWithKey(s.key)).None?
  }

  /** The rows after the settlement `s` of the pair at `i` and `j`. */
  function AfterSettlement(posted: Db, rows: seq<Reservation>, s: Settlement, winner: Option<Id>, i: nat, j: nat): Db
    requires i < |posted.reservations| && j < |posted.reservations| && |rows| == 2
  {
    posted.(settlements := posted.settlements + [s],
            reservations := posted.reservations[i := AsSettled(rows[0], s, winner)][j := AsSettled(rows[1], s, winner)])
  }

  lemma LookupAfterSettlement(db: Db, s: Settlement, m: Id)
    requires FindFirst(db.settlements, SettlementOf(s.matchId)).None?
    ensures FindFirst(db.settlements + [s], SettlementOf(m)) ==
            if m == s.matchId then Some(s) else FindFirst(db.settlements, SettlementOf(m))
  {
    FindAppend(db.settlements, s, SettlementOf(m));
  }

  lemma SettlementKeepsRows(
    db: Db, posted: Db, matchId: Id, rows: seq<Reservation>, s: Settlement, winner: Option<Id>, i: nat, j: nat)
    requires RowsValid(db) && IsPair(db, matchId, rows, i, j)
    requires posted.matches == db.matches && posted.reservations == db.reservations
             && posted.settlements == db.settlements
    requires forall x :: x in db.accounts ==> x in posted.accounts
    requires Records(db, s, matchId, rows[0], rows[1], winner)
    ensures RowsValid(AfterSettlement(posted, rows, s, winner, i, j))
  {
    var db' := AfterSettlement(posted, rows, s, winner, i, j);
    forall n | 0 <= n < |db'.reservations|
      ensures RowValid(db', db'.reservations[n])
      ensures db'.reservations[n].id == db.reservations[n].id
      ensures db'.reservations[n].matchId == db.reservations[n].matchId
      ensures db'.reservations[n].participantId == db.reservations[n].participantId
    {
      assert RowValid(db, db.reservations[n]);
      RowAfterSettlement(db, db', rows, s, winner, i, j, n);
    }
  }

  /** Each row stays valid: the pair as settled by `s`, the others with the settlement they had. */
  lemma RowAfterSettlement(
    db: Db, db': Db, rows: seq<Reservation>, s: Settlement, winner: Option<Id>, i: nat, j: nat, n: nat)
    requires n < |db.reservations| && RowValid(db, db.reservations[n])
    requires IsPair(db, s.matchId, rows, i, j)
    requires db'.matches == db.matches && db'.settlements == db.settlements + [s]
    requires db'.reservations == db.reservations[i := AsSettled(rows[0], s, winner)][j := AsSettled(rows[1], s, winner)]
    requires forall x :: x in db.accounts ==> x in db'.accounts
    requires FindFirst(db.settlements, SettlementOf(s.matchId)).None?
    ensures RowValid(db', db'.reservations[n])
  {
    LookupAfterSettlement(db, s, db.reservations[n].matchId);
    if n != i && n != j {
      assert db'.reservations[n] == db.reservations[n];
    }
  }

  lemma SettledEntryStays(db: Db, db': Db, s: Settlement, participantId: Id)
    requires SettledEntry(db, s, participantId)
    requires |db'.reservations| == |db.reservations|
    requires forall n :: 0 <= n < |db.reservations| && db.reservations[n].matchId == s.matchId ==>
             db'.reservations[n] == db.reservations[n]
    ensures SettledEntry(db', s, participantId)
  {
    var n :| 0 <= n < |db.reservations| && db.reservations[n].matchId == s.matchId
             && db.reservations[n].participantId == participantId && db.reservations[n].settlementId == Some(s.id);
    assert db'.reservations[n] == db.reservations[n];
  }

  lemma AtMostTwoSides(ps: seq<Participant>)
    requires ValidParticipants(ps)
    ensures |ps| <= 2
  {
    var sides := seq(|ps|, i requires 0 <= i < |ps| => ps[i].side);
    forall i | 0 <= i < |sides| ensures sides[i] in [SideA, SideB] {
      assert sides[i] == SideA || sides[i] == SideB;
    }
    DistinctFromPool(sides, [SideA, SideB]);
  }

  /** Both participants of the match are the two reservations' participants. */
  lemma PairIsAllParticipants(db: Db, a: Reservation, b: Reservation)
    requires RowValid(db, a) && RowValid(db, b) && MatchesValid(db)
    requires a.matchId == b.matchId && a.participantId != b.participantId
    ensures var ps := db.matches[a.matchId].participants;
            && |ps| == 2
            && {ps[0].id, ps[1].id} == {a.participantId, b.participantId}
  {
    var ps := db.matches[a.matchId].participants;
    var x :| 0 <= x < |ps| && ps[x].id == a.participantId && ps[x].userId == a.userId;
    var y :| 0 <= y < |ps| && ps[y].id == b.participantId && ps[y].userId == b.userId;
    assert x != y;
    AtMostTwoSides(ps);
  }

  lemma NewSettlementIsValid(
    db: Db, posted: Db, matchId: Id, rows: seq<Reservation>, s: Settlement, winner: Option<Id>, i: nat, j: nat)
    requires MatchesValid(db) && RowsValid(db) && IsPair(db, matchId, rows, i, j)
    requires posted.matches == db.matches && posted.reservations == db.reservations
             && posted.settlements == db.settlements
    requires Records(db, s, matchId, rows[0], rows[1], winner)
    ensures SettlementValid(AfterSettlement(posted, rows, s, winner, i, j), s)
  {
    var db' := AfterSettlement(posted, rows, s, winner, i, j);
    assert RowValid(db, db.reservations[i]) && RowValid(db, db.reservations[j]);
    PairIsAllParticipants(db, rows[0], rows[1]);
    assert db'.reservations[i].settlementId == Some(s.id) && db'.reservations[j].settlementId == Some(s.id);
    assert SettledEntry(db', s, rows[0].participantId);
    assert SettledEntry(db', s, rows[1].participantId);
    assert s.total / 2 == rows[0].amount;
  }

  lemma OlderSettlementStaysValid(db: Db, db': Db, t: Settlement)
    requires SettlementValid(db, t)
    requires db'.matches == db.matches && |db'.reservations| == |db.reservations|
    requires forall n :: 0 <= n < |db.reservations| && db.reservations[n].matchId == t.matchId ==>
             db'.reservations[n] == db.reservations[n]
    ensures SettlementValid(db', t)
  {
    forall q | 0 <= q < 2 ensures SettledEntry(db', t, db.matches[t.matchId].participants[q].id) {
      SettledEntryStays(db, db', t, db.matches[t.matchId].participants[q].id);
    }
  }

  lemma SettlementKeepsSettlements(
    db: Db, posted: Db, matchId: Id, rows: seq<Reservation>, s: Settlement, winner: Option<Id>, i: nat, j: nat)
    requires MatchesValid(db) && RowsValid(db) && SettlementsValid(db) && IsPair(db, matchId, rows, i, j)
    requires posted.matches == db.matches && posted.reservations == db.reservations
             && posted.settlements == db.settlements
    requires Records(db, s, matchId, rows[0], rows[1], winner)
    ensures SettlementsValid(AfterSettlement(posted, rows, s, winner, i, j))
  {
    hide SettlementValid, RowsValid, MatchesValid;
    var db' := AfterSettlement(posted, rows, s, winner, i, j);
    NewSettlementIsValid(db, posted, matchId, rows, s, winner, i, j);
    forall k | 0 <= k < |db.settlements|
      ensures SettlementValid(db', db'.settlements[k])
      ensures db'.settlements[k].matchId != matchId && db'.settlements[k].id != s.id && db'.settlements[k].key != s.key
    {
      var t := db.settlements[k];
      assert SettlementValid(db, t);
      assert !SettlementOf(matchId)(t) && !SettlementWithId(s.id)(t) && !SettlementWithKey(s.key)(t);
      OlderSettlementStaysValid(db, db', t);
    }
  }

  lemma OpenStakesAfterSettlement(
    db: Db, matchId: Id, rows: seq<Reservation>, s: Settlement, winner: Option<Id>, i: nat, j: nat, m: Id)
    requires IsPair(db, matchId, rows, i, j)
    ensures Total(db.reservations[i := AsSettled(rows[0], s, winner)][j := AsSettled(rows[1], s, winner)],
            OpenStake(m)) ==
            Total(db.reservations, OpenStake(m)) - if m == matchId then rows[0].amount + rows[1].amount else 0
  {
    TotalUpdate(db.reservations, i, AsSettled(rows[0], s, winner), OpenStake(m));
    TotalUpdate(db.reservations[i := AsSettled(rows[0], s, winner)], j, AsSettled(rows[1], s, winner), OpenStake(m));
  }

  /** What the view of the settlement shows a participant as received. */
  lemma ViewShowsCredit(s: Settlement, db: Db, a: Reservation, b: Reservation, r: Reservation, winner: Option<Id>)
    requires Records(db, s, s.matchId, a, b, winner)
    ensures ReceivedAmount(s, r.participantId, r.amount) == Receives(s.settlementType, winner, s.total, r)
  {
  }

  lemma EffectsAfterSettlement(
    db: Db, matchId: Id, rows: seq<Reservation>, s: Settlement, winner: Option<Id>, i: nat, j: nat, u: Id)
    requires IsPair(db, matchId, rows, i, j)
    requires Records(db, s, matchId, rows[0], rows[1], winner)
    ensures Total(db.reservations[i := AsSettled(rows[0], s, winner)][j := AsSettled(rows[1], s, winner)],
            NetEffect(db.settlements + [s], u)) ==
            Total(db.reservations, NetEffect(db.settlements, u))
            + (if u == rows[0].userId then Receives(s.settlementType, winner, s.total, rows[0]) else 0)
            + (if u == rows[1].userId then Receives(s.settlementType, winner, s.total, rows[1]) else 0)
  {
    var a, b := AsSettled(rows[0], s, winner), AsSettled(rows[1], s, winner);
    var w := NetEffect(db.settlements + [s], u);
    forall n | 0 <= n < |db.reservations|
        ensures NetEffect(db.settlements, u)(db.reservations[n]) == w(db.reservations[n]) {
      LookupAfterSettlement(db, s, db.reservations[n].matchId);
    }
    TotalCongruent(db.reservations, NetEffect(db.settlements, u), w);
    TotalUpdate(db.reservations, i, a, w);
    TotalUpdate(db.reservations[i := a], j, b, w);
    LookupAfterSettlement(db, s, matchId);
    ViewShowsCredit(s, db, rows[0], rows[1], rows[0], winner);
    ViewShowsCredit(s, db, rows[0], rows[1], rows[1], winner);
  }

  /** What each of the two rows now says its user received is what the posting credited. */
  lemma SettlementKeepsAgreement(
    opening: map<Id, nat>, db: Db, posted: Db, p: Posting, matchId: Id, rows: seq<Reservation>, s: Settlement,
      winner: Option<Id>, i: nat, j: nat)
    requires EscrowAgrees(db) && UsersAgree(opening, db)
    requires IsPair(db, matchId, rows, i, j)
    requires IsPayout(db, posted, p, s.settlementType, winner, rows[0], rows[1])
    requires Records(db, s, matchId, rows[0], rows[1], winner)
    ensures EscrowAgrees(AfterSettlement(posted, rows, s, winner, i, j))
    ensures UsersAgree(opening, AfterSettlement(posted, rows, s, winner, i, j))
  {
    var db' := AfterSettlement(posted, rows, s, winner, i, j);
    forall m ensures Balance(db'.accounts, MatchEscrow(m)) == Total(db'.reservations, OpenStake(m)) {
      OpenStakesAfterSettlement(db, matchId, rows, s, winner, i, j, m);
    }
    forall u ensures Balance(db'.accounts, UserAvailable(u)) ==
                     OpeningBalance(opening, UserAvailable(u))
                       + Total(db'.reservations, NetEffect(db'.settlements, u)) {
      EffectsAfterSettlement(db, matchId, rows, s, winner, i, j, u);
    }
  }

  lemma ReferenceAfterSettlement(db: Db, db': Db, s: Settlement, reference: Reference)
    requires ReferenceKnown(db, reference)
    requires db'.settlements == db.settlements + [s] && FindFirst(db.settlements, SettlementOf(s.matchId)).None?
    requires |db'.reservations| == |db.reservations|
    requires forall n :: 0 <= n < |db.reservations| ==> db'.reservations[n].id == db.reservations[n].id
    ensures ReferenceKnown(db', reference)
  {
    match reference
    case ForMatchEntry(_) =>
    case ForRefund(id) => FindMapped(db.reservations, db'.reservations, WithId(id));
    case ForSettlement(m) => LookupAfterSettlement(db, s, m);
  }

  lemma SettlementKeepsPaidOnce(
    db: Db, posted: Db, p: Posting, matchId: Id, rows: seq<Reservation>, s: Settlement, winner: Option<Id>, i: nat,
    j: nat)
    requires PaidOnce(db)
    requires IsPair(db, matchId, rows, i, j)
    requires IsPayout(db, posted, p, s.settlementType, winner, rows[0], rows[1])
    requires Records(db, s, matchId, rows[0], rows[1], winner)
    ensures PaidOnce(AfterSettlement(posted, rows, s, winner, i, j))
  {
    hide ReferenceKnown, Balanced, Net;
    var db' := AfterSettlement(posted, rows, s, winner, i, j);
    forall n | 0 <= n < |db'.reservations|
      ensures Payouts(db'.journal, db'.reservations[n]) == if db'.reservations[n].status in {Refunded, Settled}
              then 1 else 0
    {
      var q := db.reservations[n];
      assert Payouts(db.journal, q) == if q.status in {Refunded, Settled} then 1 else 0;
      TotalAppendOne(db.journal, p, PaysOut(q.id, q.matchId));
    }
    forall k | 0 <= k < |db'.journal| ensures ReferenceKnown(db', db'.journal[k].reference) {
      if k < |db.journal| {
        ReferenceAfterSettlement(db, db', s, db.journal[k].reference);
      } else {
        NewSettlementIsKnown(db, db', s);
      }
    }
  }

  lemma NewSettlementIsKnown(db: Db, db': Db, s: Settlement)
    requires db'.settlements == db.settlements + [s] && FindFirst(db.settlements, SettlementOf(s.matchId)).None?
    ensures ReferenceKnown(db', ForSettlement(s.matchId))
  {
    LookupAfterSettlement(db, s, s.matchId);
  }

  lemma SettlementKeepsInvariant(
    opening: map<Id, nat>, db: Db, posted: Db, p: Posting, matchId: Id, rows: seq<Reservation>, s: Settlement,
      winner: Option<Id>, i: nat, j: nat)
    requires Inv(opening, db)
    requires IsPair(db, matchId, rows, i, j)
    requires IsPayout(db, posted, p, s.settlementType, winner, rows[0], rows[1])
    requires Records(db, s, matchId, rows[0], rows[1], winner)
    ensures Inv(opening, AfterSettlement(posted, rows, s, winner, i, j))
  {
    hide Books, PaidOnce, EscrowAgrees, UsersAgree, SettlementsValid, RowsValid;
    SettlementKeepsRows(db, posted, matchId, rows, s, winner, i, j);
    SettlementKeepsSettlements(db, posted, matchId, rows, s, winner, i, j);
    SettlementKeepsAgreement(opening, db, posted, p, matchId, rows, s, winner, i, j);
    SettlementKeepsPaidOnce(db, posted, p, matchId, rows, s, winner, i, j);
    SettlementKeepsBooks(opening, db, posted, p, rows[0], rows[1], s.settlementType, winner);
  }

  lemma SettlementKeepsBooks(
    opening: map<Id, nat>, db: Db, posted: Db, p: Posting, a: Reservation, b: Reservation,
      settlementType: SettlementType, winner: Option<Id>)
    requires Books(opening, db.accounts, db.journal)
    requires IsPayout(db, posted, p, settlementType, winner, a, b)
    requires a.amount > 0 && b.amount > 0
    ensures Books(opening, posted.accounts, posted.journal)
  {
    PostingKeepsBooks(opening, db.accounts, posted.accounts, db.journal, p);
  }

  /** The escrow of a match whose only rows are an open pair holds their two stakes. */
  lemma EscrowOfPair(db: Db, matchId: Id, rows: seq<Reservation>, i: nat, j: nat)
    requires EscrowAgrees(db) && IsPair(db, matchId, rows, i, j)
    ensures Balance(db.accounts, MatchEscrow(matchId)) == rows[0].amount + rows[1].amount
  {
    var w := OpenStake(matchId);
    var none := db.reservations[i := rows[0].(status := NotRequired)];
    TotalUpdate(db.reservations, i, rows[0].(status := NotRequired), w);
    TotalUpdate(none, j, rows[1].(status := NotRequired), w);
    TotalZero(none[j := rows[1].(status := NotRequired)], w);
  }

  // ----- Every step -----

  /** The context in which a settlement is decided. */
  function DecisionContext(db: Db, matchId: Id, delaySeconds: int): (c: Context)
    requires matchId in db.matches
  {
    EffectiveContext(FindSettlementContext(db, matchId).value, delaySeconds)
  }

  /** The branches a settlement that went through has passed. */
  lemma SettlePassed(db: Db, matchId: Id, key: string, now: int, delaySeconds: int, newId: Id)
    requires SettleTx(db, matchId, key, now, delaySeconds, newId).Ok?
    requires FindFirst(db.settlements, SettlementWithKey(key)).None?
    ensures matchId in db.matches
    ensures var c := DecisionContext(db, matchId, delaySeconds);
            var fingerprint := SettleFingerprint(c, now);
            var outcome :=
                PostSettlement(db, matchId, TypeOf(c), c.winner, c.reservations, LedgerKey(key), fingerprint);
            && c.reservations == SortedBy(Filter(db.reservations, OfMatch(matchId)), ByParticipant())
            && c.matchId == matchId
            && Eligible(c, now) && FindFirst(db.settlements, SettlementOf(matchId)).None? && outcome.Ok?
            && var s := NewSettlement(c, TypeOf(c), Total(c.reservations, AmountOf()), outcome.value.1, key,
              fingerprint, newId);
            && FindFirst(outcome.value.0.settlements, SettlementWithId(newId)).None?
            && SettleTx(db, matchId, key, now, delaySeconds, newId).value ==
               (outcome.value.0.(settlements := outcome.value.0.settlements + [s],
                                 reservations :=
                                   MarkSettled(outcome.value.0.reservations, c.reservations, s, c.winner)), s)
  {
  }

  /** A settlement that went through is that of a pair, posted and recorded. */
  lemma SettleRecordsPair(
    db: Db, matchId: Id, key: string, now: int, delaySeconds: int, newId: Id) returns (i: nat, j: nat)
    requires MatchesValid(db) && RowsValid(db) && EscrowAgrees(db)
    requires SettleTx(db, matchId, key, now, delaySeconds, newId).Ok?
    requires FindFirst(db.settlements, SettlementWithKey(key)).None?
    ensures matchId in db.matches
    ensures var (db', s) := SettleTx(db, matchId, key, now, delaySeconds, newId).value;
            var c := DecisionContext(db, matchId, delaySeconds);
            && Eligible(c, now)
            && IsPair(db, matchId, c.reservations, i, j)
            && Records(db, s, matchId, c.reservations[0], c.reservations[1], c.winner)
            && var outcome :=
              PostSettlement(db, matchId, s.settlementType, c.winner, c.reservations, LedgerKey(key), s.fingerprint);
            && outcome.Ok? && |db.journal| < |outcome.value.0.journal|
            && IsPayout(db, outcome.value.0, outcome.value.0.journal[|db.journal|], s.settlementType, c.winner,
              c.reservations[0], c.reservations[1])
            && db' == AfterSettlement(outcome.value.0, c.reservations, s, c.winner, i, j)
  {
    SettlePassed(db, matchId, key, now, delaySeconds, newId);
    var c := DecisionContext(db, matchId, delaySeconds);
    var s := SettleTx(db, matchId, key, now, delaySeconds, newId).value.1;
    i, j := EligibleRowsArePair(db, matchId, c, now);
    EligibleMeans(c, now);
    PairPaysOut(db, matchId, c, i, j, s.settlementType, LedgerKey(key), s.fingerprint);
    MarkSettledPair(db, matchId, c.reservations, s, c.winner, i, j);
    TotalOfPair(c.reservations[0], c.reservations[1]);
  }

  /** Posting the settlement of an eligible pair succeeds exactly when its journal key is new. */
  lemma PairPaysOut(
    db: Db, matchId: Id, c: Context, i: nat, j: nat, settlementType: SettlementType, key: string,
    fingerprint: Fingerprint)
    requires RowsValid(db) && EscrowAgrees(db)
    requires IsPair(db, matchId, c.reservations, i, j)
    requires settlementType == WinnerTakesAll ==>
               c.winner == Some(c.reservations[0].participantId) || c.winner == Some(c.reservations[1].participantId)
    ensures c.reservations == [c.reservations[0], c.reservations[1]]
    ensures var outcome := PostSettlement(db, matchId, settlementType, c.winner, c.reservations, key, fingerprint);
            if !Postable(db.journal, key) then outcome == Err(PersistenceFailure)
            else
              && outcome.Ok? && outcome.value.1 == |db.journal| < |outcome.value.0.journal|
              && IsPayout(db, outcome.value.0, outcome.value.0.journal[|db.journal|], settlementType, c.winner,
                c.reservations[0], c.reservations[1])
  {
    AllAccountsValid(db);
    EscrowOfPair(db, matchId, c.reservations, i, j);
    PayoutOfPair(db, settlementType, c.winner, c.reservations[0], c.reservations[1], key, fingerprint);
  }

  lemma SettleKeepsInvariant(
    opening: map<Id, nat>, db: Db, matchId: Id, key: string, now: int, delaySeconds: int, newId: Id)
    requires Inv(opening, db)
    ensures Inv(opening, Committed(db, SettleTx(db, matchId, key, now, delaySeconds, newId)))
  {
    var outcome := SettleTx(db, matchId, key, now, delaySeconds, newId);
    if outcome.Ok? && FindFirst(db.settlements, SettlementWithKey(key)).None? {
      var i, j := SettleRecordsPair(db, matchId, key, now, delaySeconds, newId);
      var s := outcome.value.1;
      var c := DecisionContext(db, matchId, delaySeconds);
      var posted := PostSettlement(db, matchId, s.settlementType, c.winner, c.reservations, LedgerKey(key),
          s.fingerprint).value.0;
      SettlementKeepsInvariant(opening, db, posted, posted.journal[|db.journal|], matchId, c.reservations, s, c.winner,
        i, j);
    }
  }

  /** Elsewhere only matches, wallets and account status change. */
  ghost predicate LeavesFinanceAlone(db: Db, db': Db) {
    && db'.journal == db.journal && db'.reservations == db.reservations && db'.settlements == db.settlements
    && (forall m :: m in db.matches ==>
          m in db'.matches && db'.matches[m].participants == db.matches[m].participants
          && db'.matches[m].configuration == db.matches[m].configuration)
    && (forall a :: a in db.accounts ==> a in db'.accounts)
    && (forall a :: Balance(db'.accounts, a) == Balance(db.accounts, a))
  }

  lemma EnvironmentKeepsRows(db: Db, db': Db)
    requires LeavesFinanceAlone(db, db') && RowsValid(db)
    ensures RowsValid(db')
  {
    forall i | 0 <= i < |db.reservations| ensures RowValid(db', db.reservations[i]) {
      assert RowValid(db, db.reservations[i]);
    }
  }

  lemma EnvironmentKeepsSettlements(db: Db, db': Db)
    requires LeavesFinanceAlone(db, db') && SettlementsValid(db)
    ensures SettlementsValid(db')
  {
    forall i | 0 <= i < |db.settlements| ensures SettlementValid(db', db.settlements[i]) {
      var s := db.settlements[i];
      assert SettlementValid(db, s);
      forall q | 0 <= q < 2 ensures SettledEntry(db', s, db.matches[s.matchId].participants[q].id) {
        SettledEntryStays(db, db', s, db.matches[s.matchId].participants[q].id);
      }
    }
  }

  lemma EnvironmentKeepsPaidOnce(db: Db, db': Db)
    requires LeavesFinanceAlone(db, db') && PaidOnce(db)
    ensures PaidOnce(db')
  {
    forall k | 0 <= k < |db.journal| ensures ReferenceKnown(db', db.journal[k].reference) {
      assert ReferenceKnown(db, db.journal[k].reference);
    }
  }

  predicate IsEnvironment(step: Step) {
    step.AddMatch? || step.ChangeMatch? || step.SetWallet? || step.SetUserAccount?
  }

  lemma EnvironmentMovesNothing(db: Db, step: Step)
    requires MatchesValid(db) && IsEnvironment(step)
    ensures LeavesFinanceAlone(db, Next(db, step)) && MatchesValid(Next(db, step))
  {
  }

  lemma EnvironmentStepKeepsInvariant(opening: map<Id, nat>, db: Db, step: Step)
    requires Inv(opening, db) && IsEnvironment(step)
    ensures Inv(opening, Next(db, step))
  {
    hide RowsValid, SettlementsValid, PaidOnce, Next, IsEnvironment, Replays;
    var db' := Next(db, step);
    EnvironmentMovesNothing(db, step);
    EnvironmentKeepsRows(db, db');
    EnvironmentKeepsSettlements(db, db');
    EnvironmentKeepsPaidOnce(db, db');
  }

  lemma StepKeepsInvariant(opening: map<Id, nat>, db: Db, step: Step)
    requires Inv(opening, db)
    ensures Inv(opening, Next(db, step))
  {
    hide Inv;
    match step
    case Reserve(matchId, userId, key, now, newId) =>
        ReserveKeepsInvariant(opening, db, matchId, userId, key, now, newId);
    case Release(matchId) => ReleaseKeepsInvariant(opening, db, matchId, |db.reservations|);
    case Refund(matchId, key, reason, limit) => RefundKeepsInvariant(opening, db, matchId, key, reason, limit);
    case Settle(matchId, key, now, delaySeconds, newId) =>
        SettleKeepsInvariant(opening, db, matchId, key, now, delaySeconds, newId);
    case AddMatch(_, _) => EnvironmentStepKeepsInvariant(opening, db, step);
    case ChangeMatch(_, _) => EnvironmentStepKeepsInvariant(opening, db, step);
    case SetWallet(_, _) => EnvironmentStepKeepsInvariant(opening, db, step);
    case SetUserAccount(_, _) => EnvironmentStepKeepsInvariant(opening, db, step);
  }

  /** Every state of every run satisfies the invariant. */
  lemma {:induction false} RunKeepsInvariant(opening: map<Id, nat>, db: Db, steps: seq<Step>)
    requires Inv(opening, db)
    ensures Inv(opening, Run(db, steps))
  {
    if steps == [] {
    } else {
      RunKeepsInvariant(opening, db, steps[..|steps| - 1]);
      StepKeepsInvariant(opening, Run(db, steps[..|steps| - 1]), steps[|steps| - 1]);
    }
  }
}
