/**
  A concrete run after which an eligible settlement and a permitted refund fail: both share the
  journal's unique key with reservations. The keys are ones the API accepts.
 */
module MatchFinanceWitness {
  import opened Wrappers
  import opened Rows
  import opened Ledger
  import opened MatchEntryPolicies
  import opened MatchFinance
  import opened MatchFinanceInvariant
  import opened MatchFinanceTheorems

  const OPENING: map<Id, nat> := map["u1" := 5, "u2" := 5]

  const PARTICIPANTS := [Participant("p1", SideA, "u1"), Participant("p2", SideB, "u2")]

  const ENTRY := WithEntry(EntryObject(Text("ARENA_POINT"), Text("5"), Undefined))

  const CREATED := Match(Created, ENTRY, PARTICIPANTS, 100, None, None, None, [])

  const VOIDED := Match(Voided, ENTRY, PARTICIPANTS, 100, None, None, None, [])

  const KEY1 := "reserve-1"

  const KEY2 := "refund-01:r1"

  const STEPS := [
    AddMatch("m", CREATED),
    Reserve("m", "u1", KEY1, 0, "r1"),
    Reserve("m", "u2", KEY2, 0, "r2"),
    ChangeMatch("m", VOIDED)]

  function ReservePrint(participantId: Id, userId: Id): Fingerprint {
    ReservationFingerprint(ReserveOperation, "m", participantId, userId, 5)
  }

  function Row(n: nat, participantId: Id, userId: Id, key: string, newId: Id): Reservation {
    NewReservation("m", PARTICIPANTS[0].(id := participantId, userId := userId), 5, Some(n), key,
      ReservePrint(participantId, userId), 0, newId)
  }

  function FirstPosting(): Posting {
    Posting(MatchEntryReservation, LedgerKey(KEY1), ReservePrint("p1", "u1"), ForMatchEntry("m"),
            [Entry(UserAvailable("u1"), Debit, 5, 0, 1), Entry(MatchEscrow("m"), Credit, 5, 5, 2)])
  }

  function SecondPosting(): Posting {
    Posting(MatchEntryReservation, LedgerKey(KEY2), ReservePrint("p2", "u2"), ForMatchEntry("m"),
            [Entry(UserAvailable("u2"), Debit, 5, 0, 1), Entry(MatchEscrow("m"), Credit, 5, 10, 2)])
  }

  function OneReserved(): Db {
    Db(map["m" := CREATED], map["u1" := true],
       map[UserAvailable("u1") := Account(0, true), UserAvailable("u2") := Account(5, true),
           MatchEscrow("m") := Account(5, true)],
       [FirstPosting()], [Row(0, "p1", "u1", KEY1, "r1")], [])
  }

  function BothReserved(status: Match): Db {
    Db(map["m" := status], map["u1" := true, "u2" := true],
       map[UserAvailable("u1") := Account(0, true), UserAvailable("u2") := Account(0, true),
           MatchEscrow("m") := Account(10, true)],
       [FirstPosting(), SecondPosting()], [Row(0, "p1", "u1", KEY1, "r1"), Row(1, "p2", "u2", KEY2, "r2")], [])
  }

  lemma StakeIsFive()
    ensures ParseRequirement(ENTRY) == Ok(Requirement(5, true))
  {
    assert "5"[..0] == "";
    assert DecimalValue("5") == 5;
  }

  lemma MatchAdded()
    ensures Next(Initial(OPENING), STEPS[0])
         == Db(map["m" := CREATED], map[],
           map[UserAvailable("u1") := Account(5, true), UserAvailable("u2") := Account(5, true)], [], [], [])
  {
    var start := Initial(OPENING);
    assert "u1" in OPENING && "u2" in OPENING;
    assert start.accounts == map[UserAvailable("u1") := Account(5, true), UserAvailable("u2") := Account(5, true)];
  }

  lemma FirstReserves()
    ensures Next(Next(Initial(OPENING), STEPS[0]), STEPS[1]) == OneReserved()
  {
    MatchAdded();
    StakeIsFive();
  }

  lemma SecondPosts()
    ensures PostReservation(OneReserved(), "m", "u2", 5, KEY2, ReservePrint("p2", "u2"))
         == Ok((BothReserved(CREATED).(reservations := OneReserved().reservations), 1))
  {
    assert |LedgerKey(KEY1)| == 16 && |LedgerKey(KEY2)| == 19;
    var db := OneReserved();
    var user, escrow := UserAvailable("u2"), MatchEscrow("m");
    assert Opened(Opened(db.accounts, user), escrow) == db.accounts;
    var accounts := Increment(Increment(db.accounts, user, -5), escrow, 5);
    assert accounts == BothReserved(CREATED).accounts;
    assert Postable(db.journal, LedgerKey(KEY2));
    assert [FirstPosting()] + [SecondPosting()] == [FirstPosting(), SecondPosting()];
  }

  lemma SecondReserves()
    ensures Next(OneReserved(), STEPS[2]) == BothReserved(CREATED)
  {
    hide PostReservation;
    StakeIsFive();
    SecondPosts();
  }

  lemma RunOfFour(db: Db, a: Step, b: Step, c: Step, d: Step)
    ensures Run(db, [a, b, c, d]) == Next(Next(Next(Next(db, a), b), c), d)
  {
    hide Next;
    assert [a, b, c, d][..3] == [a, b, c] && [a, b, c][..2] == [a, b] && [a, b][..1] == [a] && [a][..0] == [];
    assert Run(db, [a]) == Next(db, a);
    assert Run(db, [a, b]) == Next(Run(db, [a]), b);
    assert Run(db, [a, b, c]) == Next(Run(db, [a, b]), c);
  }

  lemma MatchVoided()
    ensures Next(BothReserved(CREATED), STEPS[3]) == BothReserved(VOIDED)
  {
  }

  lemma RunReachesVoided()
    ensures After(OPENING, STEPS) == BothReserved(VOIDED)
  {
    hide Next, OneReserved, BothReserved, Initial;
    FirstReserves();
    SecondReserves();
    MatchVoided();
    RunOfFour(Initial(OPENING), STEPS[0], STEPS[1], STEPS[2], STEPS[3]);
    assert STEPS == [STEPS[0], STEPS[1], STEPS[2], STEPS[3]];
  }

  lemma VoidedContext()
    ensures DecisionContext(BothReserved(VOIDED), "m", 0)
         == Context("m", Voided, None, None, None, None, None, None, false, None, None, false,
                    [Row(0, "p1", "u1", KEY1, "r1"), Row(1, "p2", "u2", KEY2, "r2")], 10, false)
  {
    var a, b := Row(0, "p1", "u1", KEY1, "r1"), Row(1, "p2", "u2", KEY2, "r2");
    var rows := [a, b];
    assert rows[1..] == [b] && [b][1..] == [];
    assert Filter(rows, OfMatch("m")) == rows;
    assert Precedes("p1", "p2") by {
      assert "p1"[1..][0] == '1' && "p2"[1..][0] == '2';
    }
    assert SortedBy([b], ByParticipant()) == [b];
    assert SortedBy(rows, ByParticipant()) == rows;
  }

  lemma VoidedIsEligible()
    ensures Eligible(DecisionContext(BothReserved(VOIDED), "m", 0), 0)
  {
    VoidedContext();
    var a, b := Row(0, "p1", "u1", KEY1, "r1"), Row(1, "p2", "u2", KEY2, "r2");
    assert [a, b][1..] == [b] && [b][1..] == [];
    assert Total([], AmountOf()) == 0;
    assert Total([b], AmountOf()) == 5;
    assert Total([a, b], AmountOf()) == 10;
  }

  /** The journal after the run, and which of the keys are taken. */
  lemma TakenKeys()
    ensures var journal := BothReserved(VOIDED).journal;
            && !Postable(journal, LedgerKey(KEY1)) && Postable(journal, LedgerKey("settle-01"))
            && !Postable(journal, RefundKey("refund-01", "r1"))
            && Postable(journal, RefundKey("refund-02", "r1")) && Postable(journal, RefundKey("refund-02", "r2"))
  {
    var journal := BothReserved(VOIDED).journal;
    assert journal[1..] == [SecondPosting()];
    assert RefundKey("refund-01", "r1") == LedgerKey(KEY2) by {
      assert "refund-01" + ":" + "r1" == KEY2;
    }
    assert LedgerKey(KEY1)[7] == 'r' && LedgerKey("settle-01")[7] == 's' && |LedgerKey(KEY2)| == 19;
    assert LedgerKey(KEY2)[15] == '1' && |LedgerKey(KEY1)| == 16;
    forall id | id == "r1" || id == "r2" ensures Postable(journal, RefundKey("refund-02", id)) {
      assert RefundKey("refund-02", id)[15] == '2' && |RefundKey("refund-02", id)| == 19;
    }
  }

  /** An eligible settlement fails under the key of a reservation, and goes through under another. */
  lemma EligibleSettlementCanFail()
    ensures "m" in After(OPENING, STEPS).matches && Eligible(DecisionContext(After(OPENING, STEPS), "m", 0), 0)
    ensures SettleTx(After(OPENING, STEPS), "m", KEY1, 0, 0, "s") == Err(PersistenceFailure)
    ensures SettleTx(After(OPENING, STEPS), "m", "settle-01", 0, 0, "s").Ok?
  {
    RunReachesVoided();
    VoidedIsEligible();
    TakenKeys();
    hide Eligible, DecisionContext, Postable;
    SettleSucceedsIff(OPENING, STEPS, "m", KEY1, 0, 0, "s");
    SettleSucceedsIff(OPENING, STEPS, "m", "settle-01", 0, 0, "s");
  }

  lemma RefundableRows()
    ensures ListRefundable(BothReserved(VOIDED), "m", 10) == BothReserved(VOIDED).reservations
  {
    var a, b := Row(0, "p1", "u1", KEY1, "r1"), Row(1, "p2", "u2", KEY2, "r2");
    var rows := [a, b];
    assert rows[1..] == [b] && [b][1..] == [];
    assert Filter(rows, Refundable("m")) == rows;
    assert Precedes("r1", "r2") by {
      assert "r1"[1..][0] == '1' && "r2"[1..][0] == '2';
    }
    assert SortedBy([b], ById()) == [b];
    assert SortedBy(rows, ById()) == rows;
  }

  /**
    A permitted refund fails when a reservation was keyed like one of its postings, and goes
    through under another key.
   */
  lemma PermittedRefundCanFail()
    ensures RefundAllowed(After(OPENING, STEPS), "m", MatchVoidedBeforeStart)
    ensures RefundTx(After(OPENING, STEPS), "m", "refund-01", MatchVoidedBeforeStart, None).Err?
    ensures RefundTx(After(OPENING, STEPS), "m", "refund-02", MatchVoidedBeforeStart, None).Ok?
  {
    RunReachesVoided();
    RefundableRows();
    TakenKeys();
    var rows := BothReserved(VOIDED).reservations;
    assert rows[0].id == "r1" && rows[1].id == "r2";
    hide Postable;
    RefundSucceedsIff(OPENING, STEPS, "m", "refund-01", MatchVoidedBeforeStart, None);
    RefundSucceedsIff(OPENING, STEPS, "m", "refund-02", MatchVoidedBeforeStart, None);
  }
}
