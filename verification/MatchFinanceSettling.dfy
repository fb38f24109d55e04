/**
  When a settlement goes through in a reachable state, what it does, and why it is refused: said of
  the stored rows alone, the match with its result and disputes, the reservations and the keys.
 */
module MatchFinanceSettling {
  import opened Wrappers
  import opened Rows
  import opened Ledger
  import opened MatchEntryPolicies
  import opened MatchFinance
  import opened MatchFinanceInvariant
  import opened MatchFinanceTheorems

  // ----- When a match can be settled -----

  predicate DisputesClosed(game: Match) {
    forall i :: 0 <= i < |game.disputes| ==>
      game.disputes[i].status in {Resolved, Rejected, DisputeCancelled, DisputeExpired}
  }

  /**
    When the waiting time is over: at the resolution of the first dispute, else at the stored time,
    else the delay after completion; never for a match without any of these.
   */
  predicate TimeHasCome(game: Match, now: int, delaySeconds: int) {
    if game.disputes != [] && game.disputes[0].resolvedAt.Some? then game.disputes[0].resolvedAt.value <= now
    else if game.settlementEligibleAt.Some? then game.settlementEligibleAt.value <= now
    else game.completedAt.Some? && game.completedAt.value + 1000 * delaySeconds <= now
  }

  /** The match was voided, or it is complete with a standing result and the waiting time is over. */
  predicate ResultStands(game: Match, now: int, delaySeconds: int) {
    || game.status == Voided
    || (&& game.status == Completed
        && game.result.Some? && (game.result.value.status == Confirmed || game.result.value.status == AdminResolved)
        && TimeHasCome(game, now, delaySeconds))
  }

  /** The reservation's stake waits in escrow: released at the start, or still reserved in a voided match. */
  predicate Awaits(game: Match, r: Reservation) {
    r.status == Released || (r.status == Reserved && game.status == Voided)
  }

  /** A won match names one of the two as its winner; nothing is asked of a voided match or a draw. */
  predicate WinnerIsOneOf(game: Match, a: Reservation, b: Reservation) {
    || game.status == Voided
    || game.result.None?
    || game.result.value.isDraw
    || game.result.value.winner == Some(a.participantId)
    || game.result.value.winner == Some(b.participantId)
  }

  /** The reservations at `i` and `j` can be settled now. */
  predicate SettlesPair(db: Db, matchId: Id, now: int, delaySeconds: int, i: nat, j: nat)
    requires matchId in db.matches
  {
    var game := db.matches[matchId];
    && i < j < |db.reservations|
    && db.reservations[i].matchId == matchId && db.reservations[j].matchId == matchId
    && Awaits(game, db.reservations[i]) && Awaits(game, db.reservations[j])
    && WinnerIsOneOf(game, db.reservations[i], db.reservations[j])
    && DisputesClosed(game) && ResultStands(game, now, delaySeconds)
  }

  predicate HasSettlement(db: Db, matchId: Id) {
    exists k :: 0 <= k < |db.settlements| && db.settlements[k].matchId == matchId
  }

  predicate JournalHas(db: Db, key: string) {
    exists k :: 0 <= k < |db.journal| && db.journal[k].key == key
  }

  // ----- The context read from the rows -----

  /** The reasons that look at the match alone. */
  lemma MatchReasons(db: Db, matchId: Id, now: int, delaySeconds: int)
    requires matchId in db.matches
    ensures var c := DecisionContext(db, matchId, delaySeconds);
            var game := db.matches[matchId];
            && (Applies(c, now, ActiveDisputeExists) <==> !DisputesClosed(game))
            && (DisputesClosed(game) ==>
                  (ResultStands(game, now, delaySeconds) <==>
                   && !Applies(c, now, MatchNotFinal) && !Applies(c, now, ResultNotFinal)
                   && !Applies(c, now, SettlementDelayNotElapsed)))
  {
    hide SortedBy, Filter, Total;
    var game := db.matches[matchId];
    if DisputesClosed(game) && game.disputes != [] {
      assert IsTerminal()(game.disputes[0]);
      assert FindFirst(game.disputes, IsTerminal()) == Some(game.disputes[0]);
    }
    if !DisputesClosed(game) {
      var i :| 0 <= i < |game.disputes|
               && game.disputes[i].status !in {Resolved, Rejected, DisputeCancelled, DisputeExpired};
      var status := game.disputes[i].status;
      assert status.Open? || status.AwaitingResponse? || status.UnderReview?;
      assert IsActive(game.disputes[i]);
    }
  }

  /** The settlement's kind and winner as the context has them. */
  lemma ContextReadsResult(db: Db, matchId: Id, delaySeconds: int)
    requires matchId in db.matches
    ensures var c := DecisionContext(db, matchId, delaySeconds);
            var game := db.matches[matchId];
            && c.matchId == matchId && c.matchStatus == game.status
            && c.reservations == SortedBy(Filter(db.reservations, OfMatch(matchId)), ByParticipant())
            && c.isDraw == (game.result.Some? && game.result.value.isDraw)
            && c.winner == (if game.result.Some? then game.result.value.winner else None)
            && c.resultId == (if game.result.Some? then Some(game.result.value.id) else None)
            && (DisputesClosed(game) ==>
                  c.terminalDisputeId == if game.disputes == [] then None else Some(game.disputes[0].id))
  {
    hide SortedBy, Filter, Total, ByParticipant, OfMatch;
    var game := db.matches[matchId];
    if DisputesClosed(game) && game.disputes != [] {
      assert IsTerminal()(game.disputes[0]);
      assert FindFirst(game.disputes, IsTerminal()) == Some(game.disputes[0]);
    }
  }

  /** Two reservations of a match are all it has. */
  lemma PairIsListed(db: Db, matchId: Id, i: nat, j: nat)
    requires MatchesValid(db) && RowsValid(db) && i < j < |db.reservations|
    requires db.reservations[i].matchId == matchId && db.reservations[j].matchId == matchId
    ensures var rows := SortedBy(Filter(db.reservations, OfMatch(matchId)), ByParticipant());
            var a, b := db.reservations[i], db.reservations[j];
            (rows == [a, b] || rows == [b, a]) && a.id != b.id
  {
    hide RowValid, SortedBy, Filter, ByParticipant, OfMatch, ValidParticipants;
    var rows := SortedBy(Filter(db.reservations, OfMatch(matchId)), ByParticipant());
    var a, b := db.reservations[i], db.reservations[j];
    RowsOfMatch(db, matchId, ByParticipant());
    AtMostTwoRows(db, matchId, rows);
    assert a in rows && b in rows && a.id != b.id;
    var m :| 0 <= m < |rows| && rows[m] == a;
    var n :| 0 <= n < |rows| && rows[n] == b;
    assert m != n && |rows| == 2;
  }

  /** What the context says of two reservations, in either order, that are all of the match. */
  lemma PairReasons(c: Context, game: Match, a: Reservation, b: Reservation, now: int)
    requires c.reservations == [a, b] || c.reservations == [b, a]
    requires c.matchStatus == game.status
    requires c.isDraw == (game.result.Some? && game.result.value.isDraw)
    requires c.winner == (if game.result.Some? then game.result.value.winner else None)
    requires game.result.Some? || game.status == Voided
    ensures !Applies(c, now, ParticipantCountInvalid)
    ensures Awaits(game, a) && Awaits(game, b) <==>
            !Applies(c, now, ReservationAlreadyRefunded) && !Applies(c, now, ReservationNotReleased)
    ensures WinnerIsOneOf(game, a, b) <==> !Applies(c, now, WinnerNotParticipant)
    ensures a.assetCode == ARENA_POINT && b.assetCode == ARENA_POINT ==> !Applies(c, now, AssetMismatch)
  {
    hide Total;
    assert c.reservations[0] in {a, b} && c.reservations[1] in {a, b};
    assert AwaitsPayout(c, a) == Awaits(game, a) && AwaitsPayout(c, b) == Awaits(game, b);
    assert SomeNotAwaiting(c) <==> !AwaitsPayout(c, c.reservations[0]) || !AwaitsPayout(c, c.reservations[1]);
    assert WinnerTakesPart(c) <==>
           c.winner == Some(c.reservations[0].participantId) || c.winner == Some(c.reservations[1].participantId);
  }

  /** A match is eligible exactly when it has no settlement and two of its reservations can be settled. */
  lemma EligibleIff(opening: map<Id, nat>, db: Db, matchId: Id, now: int, delaySeconds: int)
    requires Inv(opening, db) && matchId in db.matches
    ensures Eligible(DecisionContext(db, matchId, delaySeconds), now) <==>
            !HasSettlement(db, matchId)
            && exists i: nat, j: nat :: SettlesPair(db, matchId, now, delaySeconds, i, j)
  {
    hide Applies, DecisionContext, PaidOnce, EscrowAgrees, UsersAgree, Books, SettlementsValid, Awaits, WinnerIsOneOf;
    MatchReasons(db, matchId, now, delaySeconds);
    SettledReason(db, matchId, now, delaySeconds);
    if Eligible(DecisionContext(db, matchId, delaySeconds), now) {
      EligiblePairSettles(opening, db, matchId, now, delaySeconds);
    } else if i: nat, j: nat :| SettlesPair(db, matchId, now, delaySeconds, i, j) {
      PairIsEligible(opening, db, matchId, now, delaySeconds, i, j);
    }
  }

  lemma SettledReason(db: Db, matchId: Id, now: int, delaySeconds: int)
    requires matchId in db.matches
    ensures Applies(DecisionContext(db, matchId, delaySeconds), now, AlreadySettled) <==> HasSettlement(db, matchId)
  {
    hide SortedBy, Filter, Total;
    if HasSettlement(db, matchId) {
      var k :| 0 <= k < |db.settlements| && db.settlements[k].matchId == matchId;
      assert SettlementOf(matchId)(db.settlements[k]);
    }
  }

  lemma EligiblePairSettles(opening: map<Id, nat>, db: Db, matchId: Id, now: int, delaySeconds: int)
    requires Inv(opening, db) && matchId in db.matches
    requires Eligible(DecisionContext(db, matchId, delaySeconds), now)
    ensures exists i: nat, j: nat :: SettlesPair(db, matchId, now, delaySeconds, i, j)
  {
    hide Applies, DecisionContext, PaidOnce, EscrowAgrees, UsersAgree, Books, SettlementsValid, Awaits, WinnerIsOneOf;
    var c := DecisionContext(db, matchId, delaySeconds);
    MatchReasons(db, matchId, now, delaySeconds);
    ContextReadsResult(db, matchId, delaySeconds);
    var i, j := EligibleRowsArePair(db, matchId, c, now);
    var first, second := if i < j then i else j, if i < j then j else i;
    PairReasons(c, db.matches[matchId], db.reservations[first], db.reservations[second], now);
    assert SettlesPair(db, matchId, now, delaySeconds, first, second);
  }

  lemma PairIsEligible(
    opening: map<Id, nat>, db: Db, matchId: Id, now: int, delaySeconds: int, i: nat, j: nat)
    requires Inv(opening, db) && matchId in db.matches
    requires SettlesPair(db, matchId, now, delaySeconds, i, j)
    ensures !HasSettlement(db, matchId) ==> Eligible(DecisionContext(db, matchId, delaySeconds), now)
  {
    var c := DecisionContext(db, matchId, delaySeconds);
    var a, b := db.reservations[i], db.reservations[j];
    assert RowValid(db, a) && RowValid(db, b);
    hide Applies, DecisionContext, PaidOnce, EscrowAgrees, UsersAgree, Books, SettlementsValid, RowValid, Awaits,
         WinnerIsOneOf;
    MatchReasons(db, matchId, now, delaySeconds);
    SettledReason(db, matchId, now, delaySeconds);
    ContextReadsResult(db, matchId, delaySeconds);
    PairIsListed(db, matchId, i, j);
    PairReasons(c, db.matches[matchId], a, b, now);
    PairMatchesEscrow(opening, db, matchId, now, delaySeconds);
    if !HasSettlement(db, matchId) {
      forall reason: Reason ensures !Applies(c, now, reason) {
        match reason
        case AlreadySettled => case ParticipantCountInvalid => case AssetMismatch => case ActiveDisputeExists =>
        case ReservationAlreadyRefunded => case ReservationNotReleased => case MatchNotFinal => case ResultNotFinal =>
        case WinnerNotParticipant => case SettlementDelayNotElapsed => case EscrowBalanceMismatch =>
      }
    }
  }

  lemma PairMatchesEscrow(opening: map<Id, nat>, db: Db, matchId: Id, now: int, delaySeconds: int)
    requires Inv(opening, db) && matchId in db.matches
    requires var c := DecisionContext(db, matchId, delaySeconds);
             && !Applies(c, now, ParticipantCountInvalid)
             && !Applies(c, now, ReservationAlreadyRefunded) && !Applies(c, now, ReservationNotReleased)
    ensures !Applies(DecisionContext(db, matchId, delaySeconds), now, EscrowBalanceMismatch)
  {
    hide Inv, DecisionContext;
    AwaitingPairMatches(opening, db, matchId, delaySeconds);
  }

  // ----- Settling -----

  /**
    In every reachable state settling commits if and only if the match exists, has no settlement and
    two reservations that can be settled, and neither key, identifier nor journal key is in use or too long.
   */
  lemma SettleCommitsIff(
    opening: map<Id, nat>, steps: seq<Step>, matchId: Id, key: string, now: int, delaySeconds: int, newId: Id)
    ensures var db := After(opening, steps);
            SettleTx(db, matchId, key, now, delaySeconds, newId).Ok? <==>
            && matchId in db.matches && !HasSettlement(db, matchId)
            && (forall k :: 0 <= k < |db.settlements| ==> db.settlements[k].key != key && db.settlements[k].id != newId)
            && |key| <= 121 && !JournalHas(db, "ledger:" + key)
            && exists i: nat, j: nat :: SettlesPair(db, matchId, now, delaySeconds, i, j)
  {
    var db := After(opening, steps);
    ReachableHolds(opening, steps);
    hide Run, Inv, SettleTx, Eligible, DecisionContext, SettlesPair;
    SettleSucceedsIff(opening, steps, matchId, key, now, delaySeconds, newId);
    if matchId in db.matches {
      EligibleIff(opening, db, matchId, now, delaySeconds);
    }
    PostableIff(db, "ledger:" + key);
    KeysAreFree(db, key, newId);
  }

  lemma PostableIff(db: Db, key: string)
    ensures Postable(db.journal, key) <==> |key| <= 128 && !JournalHas(db, key)
  {
    if FindFirst(db.journal, PostingWithKey(key)).Some? {
      var p := FindFirst(db.journal, PostingWithKey(key)).value;
      var k :| 0 <= k < |db.journal| && db.journal[k] == p;
    } else {
      forall k | 0 <= k < |db.journal| ensures db.journal[k].key != key {
        assert !PostingWithKey(key)(db.journal[k]);
      }
    }
  }

  lemma KeysAreFree(db: Db, key: string, newId: Id)
    ensures FindFirst(db.settlements, SettlementWithKey(key)).None?
       <==> forall k :: 0 <= k < |db.settlements| ==> db.settlements[k].key != key
    ensures FindFirst(db.settlements, SettlementWithId(newId)).None?
       <==> forall k :: 0 <= k < |db.settlements| ==> db.settlements[k].id != newId
  {
    if FindFirst(db.settlements, SettlementWithKey(key)).None? {
      forall k | 0 <= k < |db.settlements| ensures db.settlements[k].key != key {
        assert !SettlementWithKey(key)(db.settlements[k]);
      }
    }
    if FindFirst(db.settlements, SettlementWithId(newId)).None? {
      forall k | 0 <= k < |db.settlements| ensures db.settlements[k].id != newId {
        assert !SettlementWithId(newId)(db.settlements[k]);
      }
    }
  }

  /** The kind of settlement the match row calls for. */
  predicate TypeFollows(game: Match, s: Settlement) {
    if game.status == Voided then s.settlementType == VoidRefund && s.winner.None?
    else
      game.result.Some? &&
      if game.result.value.isDraw then s.settlementType == DrawRefund && s.winner.None?
      else s.settlementType == WinnerTakesAll && s.winner == game.result.value.winner && s.winner.Some?
  }

  /** What the settlement row says besides: whose it is, the result and dispute it rests on, and its sums. */
  predicate SettlementSays(game: Match, s: Settlement, matchId: Id, key: string, newId: Id, stake: int) {
    && s.id == newId && s.matchId == matchId && s.key == key && s.total == 2 * stake
    && (if s.settlementType == WinnerTakesAll then
          s.status == SettlementSettled && s.distributed == 2 * stake && s.refunded == 0
        else s.status == SettlementRefunded && s.distributed == 0 && s.refunded == 2 * stake)
    && s.resultId == (if game.result.Some? then Some(game.result.value.id) else None)
    && s.disputeId == (if game.disputes == [] then None else Some(game.disputes[0].id))
  }

  /** What the participant of the reservation gets out of a settlement with this match row. */
  function Prize(game: Match, r: Reservation): int {
    if game.status == Voided || (game.result.Some? && game.result.value.isDraw) then r.amount
    else if game.result.Some? && game.result.value.winner == Some(r.participantId) then 2 * r.amount
    else 0
  }

  /** The reservation as the settlement leaves it. */
  function Finished(game: Match, s: Settlement, r: Reservation): Reservation {
    if game.status == Voided then
      r.(status := Refunded, settlementId := Some(s.id), outcome := Some(VoidRefunded))
    else if game.result.Some? && game.result.value.isDraw then
      r.(status := Refunded, settlementId := Some(s.id), outcome := Some(DrawRefunded))
    else if game.result.Some? && game.result.value.winner == Some(r.participantId) then
      r.(status := Settled, settlementId := Some(s.id), outcome := Some(WinnerCredited))
    else r.(status := Settled, settlementId := Some(s.id), outcome := Some(LoserContributed))
  }

  /** The change of tables that the settlement `s` of the reservations at `i` and `j` is due to make. */
  ghost predicate SettledAsDue(db: Db, db': Db, s: Settlement, i: nat, j: nat) {
    && i < |db.reservations| && j < |db.reservations| && i != j && s.matchId in db.matches
    && var game, a, b := db.matches[s.matchId], db.reservations[i], db.reservations[j];
    && db'.settlements == db.settlements + [s] && db'.matches == db.matches
    && db'.reservations == db.reservations[i := Finished(game, s, a)][j := Finished(game, s, b)]
    && a.amount == b.amount > 0 && a.userId != b.userId && Prize(game, a) + Prize(game, b) == 2 * a.amount
    && forall x :: Balance(db'.accounts, x) == Balance(db.accounts, x)
         - (if x == MatchEscrow(s.matchId) then 2 * a.amount else 0)
         + (if x == UserAvailable(a.userId) then Prize(game, a) else 0)
         + (if x == UserAvailable(b.userId) then Prize(game, b) else 0)
  }

  /**
    A step that settles does what the match row before it says: a voided match and a drawn result
    give every participant the stake back, any other result gives its winner twice the stake and the
    other nothing, out of the escrow and nobody else's account; the two reservations are finished
    accordingly and no other row changes.
   */
  lemma SettlementFollowsTheResult(
    opening: map<Id, nat>, steps: seq<Step>, matchId: Id, key: string, now: int, delaySeconds: int, newId: Id,
    i: nat, j: nat)
    requires SettleTx(After(opening, steps), matchId, key, now, delaySeconds, newId).Ok?
    requires i < j < |After(opening, steps).reservations|
    requires After(opening, steps).reservations[i].matchId == After(opening, steps).reservations[j].matchId == matchId
    ensures matchId in After(opening, steps).matches
    ensures var db := After(opening, steps);
            var (db', s) := SettleTx(db, matchId, key, now, delaySeconds, newId).value;
            && Next(db, Settle(matchId, key, now, delaySeconds, newId)) == db'
            && TypeFollows(db.matches[matchId], s)
            && SettlementSays(db.matches[matchId], s, matchId, key, newId, db.reservations[i].amount)
            && SettledAsDue(db, db', s, i, j)
  {
    ReachableHolds(opening, steps);
    var db := After(opening, steps);
    SettleSucceedsIff(opening, steps, matchId, key, now, delaySeconds, newId);
    hide Run, Inv, SettleTx, DecisionContext, Eligible, TypeFollows, SettlementSays, SettledAsDue, SettlesPair;
    EligibleIff(opening, db, matchId, now, delaySeconds);
    var m: nat, n: nat :| SettlesPair(db, matchId, now, delaySeconds, m, n);
    SettlementDoes(opening, db, matchId, key, now, delaySeconds, newId, m, n, i, j);
  }

  lemma SettlementDoes(
    opening: map<Id, nat>, db: Db, matchId: Id, key: string, now: int, delaySeconds: int, newId: Id,
    m: nat, n: nat, i: nat, j: nat)
    requires Inv(opening, db) && matchId in db.matches && SettlesPair(db, matchId, now, delaySeconds, m, n)
    requires SettleTx(db, matchId, key, now, delaySeconds, newId).Ok?
    requires FindFirst(db.settlements, SettlementWithKey(key)).None?
    requires i < j < |db.reservations| && db.reservations[i].matchId == db.reservations[j].matchId == matchId
    ensures var (db', s) := SettleTx(db, matchId, key, now, delaySeconds, newId).value;
            && TypeFollows(db.matches[matchId], s)
            && SettlementSays(db.matches[matchId], s, matchId, key, newId, db.reservations[i].amount)
            && SettledAsDue(db, db', s, i, j)
  {
    hide SettleTx, PostSettlement, DecisionContext, RowsValid, PaidOnce, EscrowAgrees, UsersAgree, Books,
        SettlementsValid,
         MatchesValid, TimeHasCome, IsPayout, AfterSettlement, Eligible, WinnerIsOneOf, Awaits, TypeOf, SettledAsDue,
         SettlementSays, TypeFollows;
    var (db', s) := SettleTx(db, matchId, key, now, delaySeconds, newId).value;
    var c := DecisionContext(db, matchId, delaySeconds);
    SettlementSaysWhat(db, matchId, key, now, delaySeconds, newId);
    ContextReadsResult(db, matchId, delaySeconds);
    var x, y := SettleRecordsPair(db, matchId, key, now, delaySeconds, newId);
    var posted :=
        PostSettlement(db, matchId, s.settlementType, c.winner, c.reservations, LedgerKey(key), s.fingerprint).value.0;
    PairIsPaid(db, posted, posted.journal[|db.journal|], c, s, x, y, key, newId);
    if i != x {
      DueEitherWay(db, db', s, x, y);
    }
  }

  /** The order of the two reservations does not matter. */
  lemma DueEitherWay(db: Db, db': Db, s: Settlement, i: nat, j: nat)
    requires SettledAsDue(db, db', s, i, j)
    ensures SettledAsDue(db, db', s, j, i)
    ensures db.reservations[i].amount == db.reservations[j].amount
  {
    hide Finished, Prize;
  }

  lemma PairIsPaid(
    db: Db, posted: Db, p: Posting, c: Context, s: Settlement, x: nat, y: nat, key: string, newId: Id)
    requires IsPair(db, s.matchId, c.reservations, x, y)
    requires Records(db, s, s.matchId, c.reservations[0], c.reservations[1], c.winner)
    requires IsPayout(db, posted, p, s.settlementType, c.winner, c.reservations[0], c.reservations[1])
    requires s.matchId in db.matches
    requires var game := db.matches[s.matchId];
             && c.matchStatus == game.status && (game.result.Some? || game.status == Voided)
             && c.isDraw == (game.result.Some? && game.result.value.isDraw)
             && c.winner == (if game.result.Some? then game.result.value.winner else None)
             && c.resultId == (if game.result.Some? then Some(game.result.value.id) else None)
             && c.terminalDisputeId == (if game.disputes == [] then None else Some(game.disputes[0].id))
    requires s.id == newId && s.key == key && s.settlementType == TypeOf(c)
    requires s.resultId == c.resultId && s.disputeId == c.terminalDisputeId
    ensures TypeFollows(db.matches[s.matchId], s)
    ensures SettlementSays(db.matches[s.matchId], s, s.matchId, key, newId, db.reservations[x].amount)
    ensures SettledAsDue(db, AfterSettlement(posted, c.reservations, s, c.winner, x, y), s, x, y)
  {
    PaidByType(db.matches[s.matchId], s, c, db.reservations[x], db.reservations[y]);
    hide Balanced, Net, TypeOf, Receives, AsSettled, Finished, Prize;
  }

  /** The settlement row, from the context it was decided in. */
  lemma SettlementSaysWhat(
    db: Db, matchId: Id, key: string, now: int, delaySeconds: int, newId: Id)
    requires SettleTx(db, matchId, key, now, delaySeconds, newId).Ok?
    requires FindFirst(db.settlements, SettlementWithKey(key)).None?
    ensures matchId in db.matches
    ensures var s := SettleTx(db, matchId, key, now, delaySeconds, newId).value.1;
            var c := DecisionContext(db, matchId, delaySeconds);
            && s.id == newId && s.key == key && s.settlementType == TypeOf(c)
            && s.resultId == c.resultId && s.disputeId == c.terminalDisputeId
  {
    SettlePassed(db, matchId, key, now, delaySeconds, newId);
    hide SettleTx, DecisionContext, PostSettlement, MarkSettled;
  }

  lemma PaidByType(game: Match, s: Settlement, c: Context, a: Reservation, b: Reservation)
    requires c.matchStatus == game.status && (game.result.Some? || game.status == Voided)
    requires c.isDraw == (game.result.Some? && game.result.value.isDraw)
    requires c.winner == (if game.result.Some? then game.result.value.winner else None)
    requires s.settlementType == TypeOf(c) && a.amount == b.amount && a.participantId != b.participantId
    requires if s.settlementType == WinnerTakesAll then
               s.winner == c.winner && (c.winner == Some(a.participantId) || c.winner == Some(b.participantId))
             else s.winner.None?
    ensures TypeFollows(game, s)
    ensures Receives(s.settlementType, c.winner, a.amount + b.amount, a) == Prize(game, a)
    ensures Receives(s.settlementType, c.winner, a.amount + b.amount, b) == Prize(game, b)
    ensures Prize(game, a) + Prize(game, b) == 2 * a.amount
    ensures AsSettled(a, s, c.winner) == Finished(game, s, a) && AsSettled(b, s, c.winner) == Finished(game, s, b)
  {
  }

  // ----- Why settling is refused -----

  function StakeOf(matchId: Id): Reservation -> int {
    (r: Reservation) => if r.matchId == matchId then r.amount else 0
  }

  /** All stakes of a match are the open ones exactly when no reservation with a stake is closed. */
  lemma {:induction false} StakesAreOpenIff(rows: seq<Reservation>, matchId: Id)
    requires forall i :: 0 <= i < |rows| ==> rows[i].amount >= 0
    ensures Total(rows, OpenStake(matchId)) <= Total(rows, StakeOf(matchId))
    ensures Total(rows, OpenStake(matchId)) == Total(rows, StakeOf(matchId))
       <==> forall i :: 0 <= i < |rows| && rows[i].matchId == matchId ==> HoldsStake(rows[i]) || rows[i].amount == 0
  {
    if rows != [] {
      var rest := rows[1..];
      StakesAreOpenIff(rest, matchId);
      assert forall i :: 0 <= i < |rest| ==> rest[i] == rows[i + 1];
      var first := rows[0].matchId == matchId ==> HoldsStake(rows[0]) || rows[0].amount == 0;
      assert (forall i :: 0 <= i < |rows| && rows[i].matchId == matchId ==> HoldsStake(rows[i]) || rows[i].amount == 0)
        <==>
        (first
         && forall i :: 0 <= i < |rest| && rest[i].matchId == matchId ==>
              HoldsStake(rest[i]) || rest[i].amount == 0);
    }
  }

  predicate HasRefunded(db: Db, matchId: Id) {
    exists k :: 0 <= k < |db.reservations| && db.reservations[k].matchId == matchId
      && db.reservations[k].status == Refunded
  }

  /** The escrow read for a match is the sum of its open stakes. */
  lemma EscrowIsRead(db: Db, matchId: Id)
    requires RowsValid(db) && EscrowAgrees(db) && matchId in db.matches
    ensures FindSettlementContext(db, matchId).value.escrowBalance == Total(db.reservations, OpenStake(matchId))
  {
    var rows := SortedBy(Filter(db.reservations, OfMatch(matchId)), ByParticipant());
    RowsOfMatch(db, matchId, ByParticipant());
    var funded := FindFirst(rows, HasEscrow());
    if funded.Some? {
      assert funded.value in db.reservations;
      var k :| 0 <= k < |db.reservations| && db.reservations[k] == funded.value;
      assert RowValid(db, db.reservations[k]);
    } else {
      forall k | 0 <= k < |db.reservations| ensures OpenStake(matchId)(db.reservations[k]) == 0 {
        assert RowValid(db, db.reservations[k]);
        if db.reservations[k].matchId == matchId {
          assert db.reservations[k] in rows;
          var n :| 0 <= n < |rows| && rows[n] == db.reservations[k];
          assert !HasEscrow()(rows[n]);
        }
      }
      TotalZero(db.reservations, OpenStake(matchId));
    }
  }

  /** Before its settlement a match's escrow misses stakes exactly when one was refunded. */
  lemma MismatchIff(opening: map<Id, nat>, db: Db, matchId: Id, now: int, delaySeconds: int)
    requires Inv(opening, db) && matchId in db.matches && !HasSettlement(db, matchId)
    ensures Applies(DecisionContext(db, matchId, delaySeconds), now, EscrowBalanceMismatch)
            <==> HasRefunded(db, matchId)
  {
    hide PaidOnce, UsersAgree, Books, SettlementsValid;
    var found := Filter(db.reservations, OfMatch(matchId));
    TotalSorted(found, ByParticipant(), AmountOf());
    TotalFiltered(db.reservations, OfMatch(matchId), AmountOf(), StakeOf(matchId));
    EscrowIsRead(db, matchId);
    ClosedRowsAreRefunded(db, matchId);
    hide RowsValid, EscrowAgrees, SortedBy, Filter, Total, HoldsStake, HasRefunded;
  }

  lemma ClosedRowsAreRefunded(db: Db, matchId: Id)
    requires RowsValid(db) && !HasSettlement(db, matchId)
    ensures Total(db.reservations, OpenStake(matchId)) == Total(db.reservations, StakeOf(matchId))
       <==> !HasRefunded(db, matchId)
  {
    forall k | 0 <= k < |db.reservations|
      ensures db.reservations[k].amount >= 0
      ensures db.reservations[k].matchId == matchId ==>
                (HoldsStake(db.reservations[k]) || db.reservations[k].amount == 0 <==>
                 db.reservations[k].status != Refunded)
    {
      assert RowValid(db, db.reservations[k]);
    }
    StakesAreOpenIff(db.reservations, matchId);
    hide RowsValid, HoldsStake, Total;
  }

  /** In every reachable state a refused settlement names the first of these reasons that holds. */
  lemma SettleRefusals(
    opening: map<Id, nat>, steps: seq<Step>, matchId: Id, key: string, now: int, delaySeconds: int, newId: Id)
    requires SettleTx(After(opening, steps), matchId, key, now, delaySeconds, newId).Err?
    ensures var db := After(opening, steps);
            SettleTx(db, matchId, key, now, delaySeconds, newId).error ==
            if matchId !in db.matches then SettlementNotFound
            else if exists k :: 0 <= k < |db.settlements| && db.settlements[k].key == key then SettlementKeyConflict
            else if HasSettlement(db, matchId) then SettlementAlreadyExists
            else if !DisputesClosed(db.matches[matchId]) then ActiveDispute
            else if db.matches[matchId].status != Voided && !TimeHasCome(db.matches[matchId], now, delaySeconds) then
              DelayNotElapsed
            else if HasRefunded(db, matchId) then EscrowMismatch
            else if !(exists i: nat, j: nat :: SettlesPair(db, matchId, now, delaySeconds, i, j)) then NotEligible
            else PersistenceFailure
  {
    var db := After(opening, steps);
    ReachableHolds(opening, steps);
    KeysAreFree(db, key, newId);
    if matchId in db.matches {
      if k :| 0 <= k < |db.settlements| && db.settlements[k].key == key {
        SettlementReplayAlwaysConflicts(opening, steps, k, matchId, now, delaySeconds, newId);
      } else {
        hide Run;
        RefusedSettlement(opening, db, matchId, key, now, delaySeconds, newId);
      }
    }
    hide Run, Inv;
  }

  lemma RefusedSettlement(
    opening: map<Id, nat>, db: Db, matchId: Id, key: string, now: int, delaySeconds: int, newId: Id)
    requires Inv(opening, db) && matchId in db.matches
    requires forall k :: 0 <= k < |db.settlements| ==> db.settlements[k].key != key
    requires SettleTx(db, matchId, key, now, delaySeconds, newId).Err?
    ensures SettleTx(db, matchId, key, now, delaySeconds, newId).error ==
            if HasSettlement(db, matchId) then SettlementAlreadyExists
            else if !DisputesClosed(db.matches[matchId]) then ActiveDispute
            else if db.matches[matchId].status != Voided && !TimeHasCome(db.matches[matchId], now, delaySeconds) then
              DelayNotElapsed
            else if HasRefunded(db, matchId) then EscrowMismatch
            else if !(exists i: nat, j: nat :: SettlesPair(db, matchId, now, delaySeconds, i, j)) then NotEligible
            else PersistenceFailure
  {
    hide Inv, SettleTx, DecisionContext, SettlesPair, Eligible, Applies, DisputesClosed, TimeHasCome, HasRefunded;
    KeysAreFree(db, key, newId);
    MatchReasons(db, matchId, now, delaySeconds);
    EligibleIff(opening, db, matchId, now, delaySeconds);
    RefusalUnfolds(opening, db, matchId, key, now, delaySeconds, newId);
    if !HasSettlement(db, matchId) {
      MismatchIff(opening, db, matchId, now, delaySeconds);
      if DisputesClosed(db.matches[matchId]) {
        DelayReason(db, matchId, now, delaySeconds);
      }
    }
  }

  lemma DelayReason(db: Db, matchId: Id, now: int, delaySeconds: int)
    requires matchId in db.matches && DisputesClosed(db.matches[matchId])
    ensures Applies(DecisionContext(db, matchId, delaySeconds), now, SettlementDelayNotElapsed)
       <==> db.matches[matchId].status != Voided && !TimeHasCome(db.matches[matchId], now, delaySeconds)
  {
    hide SortedBy, Filter, Total;
    var game := db.matches[matchId];
    if game.disputes != [] {
      assert IsTerminal()(game.disputes[0]);
      assert FindFirst(game.disputes, IsTerminal()) == Some(game.disputes[0]);
    }
  }

  lemma RefusalUnfolds(
    opening: map<Id, nat>, db: Db, matchId: Id, key: string, now: int, delaySeconds: int, newId: Id)
    requires Inv(opening, db) && matchId in db.matches && FindFirst(db.settlements, SettlementWithKey(key)).None?
    requires SettleTx(db, matchId, key, now, delaySeconds, newId).Err?
    ensures var c := DecisionContext(db, matchId, delaySeconds);
            SettleTx(db, matchId, key, now, delaySeconds, newId).error ==
            if HasSettlement(db, matchId) then SettlementAlreadyExists
            else if Applies(c, now, ActiveDisputeExists) then ActiveDispute
            else if Applies(c, now, SettlementDelayNotElapsed) then DelayNotElapsed
            else if Applies(c, now, EscrowBalanceMismatch) then EscrowMismatch
            else if !Eligible(c, now) then NotEligible
            else PersistenceFailure
  {
    hide Inv, SettleTx, DecisionContext, Applies, Eligible, PostSettlement, HasSettlement;
    var c := DecisionContext(db, matchId, delaySeconds);
    SettledReason(db, matchId, now, delaySeconds);
    if Eligible(c, now) {
      EligiblePosting(opening, db, matchId, key, now, delaySeconds);
    }
    RefusalBranches(db, matchId, key, now, delaySeconds, newId);
    IneligibleOnes(c, now);
  }

  /** The branches of a refused settlement in terms of its context and posting. */
  lemma RefusalBranches(db: Db, matchId: Id, key: string, now: int, delaySeconds: int, newId: Id)
    requires matchId in db.matches && FindFirst(db.settlements, SettlementWithKey(key)).None?
    requires SettleTx(db, matchId, key, now, delaySeconds, newId).Err?
    ensures var c := DecisionContext(db, matchId, delaySeconds);
            var posting := PostSettlement(db, matchId, TypeOf(c), c.winner, c.reservations, LedgerKey(key),
                SettleFingerprint(c, now));
            SettleTx(db, matchId, key, now, delaySeconds, newId).error ==
            if FindFirst(db.settlements, SettlementOf(matchId)).Some? then SettlementAlreadyExists
            else if !Eligible(c, now) then IneligibilityError(c, now)
            else if posting.Err? then posting.error
            else PersistenceFailure
    ensures FindFirst(db.settlements, SettlementOf(matchId)).Some? <==>
            Applies(DecisionContext(db, matchId, delaySeconds), now, AlreadySettled)
  {
    hide PostSettlement, Eligible, SettleFingerprint, IneligibilityError, MarkSettled, SortedBy, Filter, Total;
  }

  lemma EligiblePosting(opening: map<Id, nat>, db: Db, matchId: Id, key: string, now: int, delaySeconds: int)
    requires Inv(opening, db) && matchId in db.matches && Eligible(DecisionContext(db, matchId, delaySeconds), now)
    ensures var c := DecisionContext(db, matchId, delaySeconds);
            var posting := PostSettlement(db, matchId, TypeOf(c), c.winner, c.reservations, LedgerKey(key),
                SettleFingerprint(c, now));
            posting.Err? ==> posting.error == PersistenceFailure
  {
    hide PostSettlement, UsersAgree, Books, PaidOnce, SettlementsValid;
    var c := DecisionContext(db, matchId, delaySeconds);
    var i, j := EligibleRowsArePair(db, matchId, c, now);
    EligibleMeans(c, now);
    PairPaysOut(db, matchId, c, i, j, TypeOf(c), LedgerKey(key), SettleFingerprint(c, now));
  }

  lemma IneligibleOnes(c: Context, now: int)
    ensures Applies(c, now, ActiveDisputeExists) ==> !Eligible(c, now)
    ensures Applies(c, now, SettlementDelayNotElapsed) ==> !Eligible(c, now)
    ensures Applies(c, now, EscrowBalanceMismatch) ==> !Eligible(c, now)
    ensures IneligibilityError(c, now) ==
            if Applies(c, now, ActiveDisputeExists) then ActiveDispute
            else if Applies(c, now, SettlementDelayNotElapsed) then DelayNotElapsed
            else if Applies(c, now, EscrowBalanceMismatch) then EscrowMismatch
            else NotEligible
  {
    hide Applies;
  }
}
