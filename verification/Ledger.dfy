/**
  The double-entry journal: accounts changed in place, postings that record every
  change with the balance it left behind, and what it means for the two to agree.
 */
module Ledger {
  import opened Rows

  type Id = string

  /** Accounts are unique by owner and purpose. */
  datatype AccountId = UserAvailable(user: Id) | MatchEscrow(matchId: Id)

  datatype Account = Account(balance: int, active: bool)

  type Accounts = map<AccountId, Account>

  datatype Direction = Debit | Credit

  datatype Entry = Entry(account: AccountId, direction: Direction, amount: int, balanceAfter: int, sequence: nat)

  datatype ReservationOperation = ReserveOperation | RefundOperation

  datatype SettlementType = WinnerTakesAll | DrawRefund | VoidRefund

  /** A hash of the listed fields; as a value of this type it is injective. */
  datatype Fingerprint =
    | ReservationFingerprint(operation: ReservationOperation, matchId: Id, participantId: Id, userId: Id, amount: int)
    | SettlementFingerprint(settledMatch: Id, resultId: Option<Id>, resultVersion: Option<nat>,
      settlementType: Option<SettlementType>, total: int)

  import opened Wrappers

  datatype PostingType =
    | MatchEntryReservation | MatchEntryRefund | MatchWinnerSettlement | MatchDrawRefund | MatchVoidRefund

  datatype Reference = ForMatchEntry(entryMatch: Id) | ForRefund(reservationId: Id) | ForSettlement(settledMatch: Id)

  datatype Posting = Posting(
    postingType: PostingType, key: string, fingerprint: Fingerprint, reference: Reference, entries: seq<Entry>)

  // ----- Accounts -----

  /** An account that does not exist yet holds nothing. */
  function Balance(accounts: Accounts, a: AccountId): int {
    if a in accounts then accounts[a].balance else 0
  }

  /** `upsert` with an empty update: the account exists afterwards. */
  function Opened(accounts: Accounts, a: AccountId): Accounts {
    if a in accounts then accounts else accounts[a := Account(0, true)]
  }

  function Increment(accounts: Accounts, a: AccountId, delta: int): Accounts
    requires a in accounts
  {
    accounts[a := accounts[a].(balance := accounts[a].balance + delta)]
  }

  // ----- Entries -----

  function Signed(e: Entry): int {
    if e.direction == Debit then -e.amount else e.amount
  }

  /** What the entries add to account `a`. */
  function Net(entries: seq<Entry>, a: AccountId): int {
    if entries == [] then 0
    else
      var last := entries[|entries| - 1];
      Net(entries[..|entries| - 1], a) + if last.account == a then Signed(last) else 0
  }

  /** Credits minus debits. */
  function Imbalance(entries: seq<Entry>): int {
    if entries == [] then 0
    else Imbalance(entries[..|entries| - 1]) + Signed(entries[|entries| - 1])
  }

  /** All entries of the journal in posting order. */
  function Flatten(journal: seq<Posting>): seq<Entry> {
    if journal == [] then []
    else Flatten(journal[..|journal| - 1]) + journal[|journal| - 1].entries
  }

  /** Equal debits and credits, positive amounts, sequence numbers from one, one entry an account. */
  predicate Balanced(p: Posting) {
    && |p.entries| >= 2
    && Imbalance(p.entries) == 0
    && (forall i :: 0 <= i < |p.entries| ==> p.entries[i].amount > 0 && p.entries[i].sequence == i + 1)
    && (forall i, j :: 0 <= i < j < |p.entries| ==> p.entries[i].account != p.entries[j].account)
  }

  function OpeningBalance(opening: map<Id, nat>, a: AccountId): int {
    if a.UserAvailable? && a.user in opening then opening[a.user] else 0
  }

  /** Replaying the entries from the opening balances meets every recorded balance, none negative. */
  ghost predicate Replays(opening: map<Id, nat>, entries: seq<Entry>) {
    forall i :: 0 <= i < |entries| ==>
      && entries[i].balanceAfter == OpeningBalance(opening, entries[i].account)
        + Net(entries[..i + 1], entries[i].account)
      && entries[i].balanceAfter >= 0
  }

  /** The stored accounts and the journal tell the same story. */
  ghost predicate Books(opening: map<Id, nat>, accounts: Accounts, journal: seq<Posting>) {
    && Replays(opening, Flatten(journal))
    && (forall a :: Balance(accounts, a) == OpeningBalance(opening, a) + Net(Flatten(journal), a))
    && (forall a :: Balance(accounts, a) >= 0)
    && (forall i :: 0 <= i < |journal| ==> Balanced(journal[i]))
    && (forall i, j :: 0 <= i < j < |journal| ==> journal[i].key != journal[j].key)
    && (forall i :: 0 <= i < |Flatten(journal)| ==> Flatten(journal)[i].account in accounts)
  }

  lemma {:induction false} NetConcat(es: seq<Entry>, more: seq<Entry>, a: AccountId)
    ensures Net(es + more, a) == Net(es, a) + Net(more, a)
  {
    if more == [] {
      assert es + more == es;
    } else {
      NetConcat(es, more[..|more| - 1], a);
      assert (es + more)[..|es + more| - 1] == es + more[..|more| - 1];
    }
  }

  lemma FlattenAppend(journal: seq<Posting>, p: Posting)
    ensures Flatten(journal + [p]) == Flatten(journal) + p.entries
  {
    assert (journal + [p])[..|journal|] == journal;
  }

  /** A balanced posting whose recorded balances match the accounts it changed keeps the books. */
  lemma PostingKeepsBooks(
    opening: map<Id, nat>, accounts: Accounts, accounts': Accounts, journal: seq<Posting>, p: Posting)
    requires Books(opening, accounts, journal)
    requires Balanced(p)
    requires forall i :: 0 <= i < |journal| ==> journal[i].key != p.key
    requires forall a :: Balance(accounts', a) == Balance(accounts, a) + Net(p.entries, a)
    requires forall i :: 0 <= i < |p.entries| ==> p.entries[i].balanceAfter == Balance(accounts', p.entries[i].account)
    requires forall a :: Balance(accounts', a) >= 0
    requires forall a :: a in accounts ==> a in accounts'
    requires forall i :: 0 <= i < |p.entries| ==> p.entries[i].account in accounts'
    ensures Books(opening, accounts', journal + [p])
  {
    hide Flatten, Net, Replays, Imbalance, OpeningBalance, Balance;
    FlattenAppend(journal, p);
    forall a ensures Net(Flatten(journal) + p.entries, a) == Net(Flatten(journal), a) + Net(p.entries, a) {
      NetConcat(Flatten(journal), p.entries, a);
    }
    ReplaysConcat(opening, accounts, accounts', Flatten(journal), p.entries);
    hide Balanced;
    var all := Flatten(journal) + p.entries;
    forall i | 0 <= i < |all| ensures all[i].account in accounts' {
      if i < |Flatten(journal)| {
        assert Flatten(journal)[i].account in accounts;
      }
    }
  }

  lemma ReplaysConcat(
    opening: map<Id, nat>, accounts: Accounts, accounts': Accounts, before: seq<Entry>, es: seq<Entry>)
    requires Replays(opening, before)
    requires forall a :: Balance(accounts, a) == OpeningBalance(opening, a) + Net(before, a)
    requires forall i, j :: 0 <= i < j < |es| ==> es[i].account != es[j].account
    requires forall a :: Balance(accounts', a) == Balance(accounts, a) + Net(es, a) >= 0
    requires forall i :: 0 <= i < |es| ==> es[i].balanceAfter == Balance(accounts', es[i].account)
    ensures Replays(opening, before + es)
  {
    var all := before + es;
    forall i | 0 <= i < |all|
      ensures all[i].balanceAfter == OpeningBalance(opening, all[i].account) + Net(all[..i + 1], all[i].account)
      ensures all[i].balanceAfter >= 0
    {
      if i < |before| {
        assert all[..i + 1] == before[..i + 1];
      } else {
        var j := i - |before|;
        assert all[..i + 1] == before + es[..j + 1];
        NetConcat(before, es[..j + 1], all[i].account);
        NetOfLast(es, j);
      }
    }
  }

  /** With one entry an account, the prefix ending at an entry already holds its account's whole change. */
  lemma {:induction false} NetOfLast(es: seq<Entry>, j: nat)
    requires j < |es|
    requires forall i, k :: 0 <= i < k < |es| ==> es[i].account != es[k].account
    ensures Net(es[..j + 1], es[j].account) == Net(es, es[j].account) == Signed(es[j])
  {
    if j + 1 == |es| {
      assert es[..j + 1] == es;
      NetOfOthers(es[..j], es[j].account);
    } else {
      var init := es[..|es| - 1];
      NetOfLast(init, j);
      assert init[..j + 1] == es[..j + 1];
    }
  }

  lemma {:induction false} NetOfOthers(es: seq<Entry>, a: AccountId)
    requires forall i :: 0 <= i < |es| ==> es[i].account != a
    ensures Net(es, a) == 0
  {
    if es == [] {
    } else {
      NetOfOthers(es[..|es| - 1], a);
    }
  }

  // ----- Conservation -----

  function BalanceOf(accounts: Accounts): AccountId -> int {
    (a: AccountId) => Balance(accounts, a)
  }

  function OpeningOf(opening: map<Id, nat>): AccountId -> int {
    (a: AccountId) => OpeningBalance(opening, a)
  }

  function NetOf(entries: seq<Entry>): AccountId -> int {
    (a: AccountId) => Net(entries, a)
  }

  /** The sum of `f` over a finite set of accounts. */
  ghost function SumOver(ids: set<AccountId>, f: AccountId -> int): int {
    if ids == {} then 0
    else
      var a :| a in ids;
      f(a) + SumOver(ids - {a}, f)
  }

  lemma {:induction false} SumPick(ids: set<AccountId>, f: AccountId -> int, a: AccountId)
    requires a in ids
    ensures SumOver(ids, f) == f(a) + SumOver(ids - {a}, f)
  {
    var b :| b in ids && SumOver(ids, f) == f(b) + SumOver(ids - {b}, f);
    if a == b {
    } else {
      SumPick(ids - {b}, f, a);
      SumPick(ids - {a}, f, b);
      assert ids - {a} - {b} == ids - {b} - {a};
    }
  }

  lemma {:induction false} SumAdds(ids: set<AccountId>, f: AccountId -> int, g: AccountId -> int, h: AccountId -> int)
    requires forall a :: f(a) == g(a) + h(a)
    ensures SumOver(ids, f) == SumOver(ids, g) + SumOver(ids, h)
  {
    if ids == {} {
    } else {
      var a :| a in ids;
      SumPick(ids, f, a);
      SumPick(ids, g, a);
      SumPick(ids, h, a);
      SumAdds(ids - {a}, f, g, h);
    }
  }

  lemma {:induction false} SumSame(ids: set<AccountId>, f: AccountId -> int, g: AccountId -> int)
    requires forall a | a in ids :: f(a) == g(a)
    ensures SumOver(ids, f) == SumOver(ids, g)
  {
    if ids == {} {
    } else {
      var a :| a in ids;
      SumPick(ids, f, a);
      SumPick(ids, g, a);
      SumSame(ids - {a}, f, g);
    }
  }

  /** Summed over every account they touch, the entries' net changes add up to credits minus debits. */
  lemma {:induction false} SumOfNets(ids: set<AccountId>, es: seq<Entry>)
    requires forall i :: 0 <= i < |es| ==> es[i].account in ids
    ensures SumOver(ids, NetOf(es)) == Imbalance(es)
  {
    if es == [] {
      SumOfZero(ids, NetOf(es));
    } else {
      var init, last := es[..|es| - 1], es[|es| - 1];
      SumOfNets(ids, init);
      SumPick(ids, NetOf(es), last.account);
      SumPick(ids, NetOf(init), last.account);
      SumSame(ids - {last.account}, NetOf(es), NetOf(init));
    }
  }

  lemma {:induction false} SumOfZero(ids: set<AccountId>, f: AccountId -> int)
    requires forall a | a in ids :: f(a) == 0
    ensures SumOver(ids, f) == 0
  {
    if ids == {} {
    } else {
      var a :| a in ids;
      SumPick(ids, f, a);
      SumOfZero(ids - {a}, f);
    }
  }

  lemma {:induction false} ImbalanceConcat(es: seq<Entry>, more: seq<Entry>)
    ensures Imbalance(es + more) == Imbalance(es) + Imbalance(more)
  {
    if more == [] {
      assert es + more == es;
    } else {
      ImbalanceConcat(es, more[..|more| - 1]);
      assert (es + more)[..|es + more| - 1] == es + more[..|more| - 1];
    }
  }

  lemma {:induction false} JournalIsBalanced(journal: seq<Posting>)
    requires forall i :: 0 <= i < |journal| ==> Balanced(journal[i])
    ensures Imbalance(Flatten(journal)) == 0
  {
    if journal == [] {
    } else {
      JournalIsBalanced(journal[..|journal| - 1]);
      ImbalanceConcat(Flatten(journal[..|journal| - 1]), journal[|journal| - 1].entries);
    }
  }

  /** The accounts that exist hold together what they opened with, so none can outgrow that sum. */
  lemma BooksConserve(opening: map<Id, nat>, accounts: Accounts, journal: seq<Posting>, ids: set<AccountId>)
    requires Books(opening, accounts, journal)
    requires accounts.Keys <= ids
    ensures forall a | a in ids :: 0 <= Balance(accounts, a) <= SumOver(ids, OpeningOf(opening))
    ensures SumOver(ids, BalanceOf(accounts)) == SumOver(ids, OpeningOf(opening))
  {
    SumAdds(ids, BalanceOf(accounts), OpeningOf(opening), NetOf(Flatten(journal)));
    SumOfNets(ids, Flatten(journal));
    JournalIsBalanced(journal);
    forall a | a in ids ensures 0 <= Balance(accounts, a) <= SumOver(ids, OpeningOf(opening)) {
      SumPick(ids, BalanceOf(accounts), a);
      SumOfNonNegative(ids - {a}, BalanceOf(accounts));
    }
  }

  lemma {:induction false} SumOfNonNegative(ids: set<AccountId>, f: AccountId -> int)
    requires forall a :: f(a) >= 0
    ensures SumOver(ids, f) >= 0
  {
    if ids == {} {
    } else {
      var a :| a in ids;
      SumPick(ids, f, a);
      SumOfNonNegative(ids - {a}, f);
    }
  }
}
