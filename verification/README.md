# Arena Core: verified models

A Dafny 4.11 project that models the parts of Arena Core with the most state, branching or
arithmetic, and proves what they keep over every input, every run and every interleaving.
`dafny verify dfyconfig.toml` checks all of it.

Tables are maps or sequences of rows, and a database transaction is one atomic step that commits
or leaves the state unchanged. Where the repository updates rows, files or fields in place, a class
does the same statement by statement, with its rollback, and every method is proved equal to the
function that says what the committed transaction does. The theorems are about those functions and
runs of them. Clocks, random identifiers, hashes, directory listings and failures of the file system
are parameters; hashes are injective because they are values of a datatype.

## Modules

- `Ledger`, `MatchEntryPolicies`, `MatchFinance`: the accounts, the double-entry journal, reservation
  and settlement rows, and each transaction as a function of the rows. A run is any sequence of
  reserve, release, refund and settle calls by any users on any matches, mixed with changes of
  matches, results, disputes, wallets and account status.
- `MatchFinanceInvariant`, `MatchFinanceTheorems`, `MatchFinanceTrace`, `MatchFinanceWitness`: what every
  step keeps, what follows for runs, the one-to-one agreement of rows and postings, and concrete runs
  for what is not true of the code.
- `MatchFinanceSettling`, `MatchFinanceStakes`: when settling, reserving and refunding succeed and what
  they move, said of the stored rows without the functions that compute it; `MatchFinanceJournal`: the
  entries of a settlement's posting, listings and reconciliations.
- `MatchFinanceService`: the services and ledger adapters as they run.
- `Base32`: the authenticator secret's encoding over a 32-bit accumulator (`bv32`), against the
  bit-string definition of section 6 of RFC 4648; `Base32Numbers`: the same as numbers in two bases.
- `RulesetConfig`: the walk over a possibly cyclic heap, against the unfolding of the heap into a tree;
  `RulesetPaths`: the same by the paths that lead somewhere.
- `Sorting`, `CanonicalJson`, `JsonReading`, `AuditPages`: sorted listings, the canonical printer and the
  decision taken on its output, a reader of JSON text that undoes the printer, and pages by cursor.
- `MutationLock`, `SiteAssets`, `SiteSettings`: the promise chain, the files, and the version-checked
  saves and publications it serialises; `SiteSettingsAnswers`: their answers field by field.
- `Identity`, `IdentityTheorems`, `IdentityRoles`, `IdentityService`: users, sessions, tokens and role
  assignments under any interleaving of transactions; `IdentitySessions`, `IdentityAccounts`: when
  sessions, tokens and changes of accounts are good, by their rows. `Mfa`, `MfaService`: the second
  factor; `MfaConfirmations`: when logins, rotations and enrolments are confirmed, by theirs.
- `Rows`, `Text`, `Wrappers`: queries over rows, characters, optional values and results.

## What the proofs found

These are statements about the code as it is; each has a lemma.

- Replaying a successful `settle` never returns the stored record, although
  `packages/match-finance/README.md:26-29` calls settlement idempotent: once a settlement exists the
  fingerprint is recomputed as ineligible, so the same key conflicts for ever
  (`SettlementReplayAlwaysConflicts`). No points move again.
- An eligible settlement can still fail: settlements share the journal's unique key of 128 characters
  with reservations, so a key that already paid for a reservation, or one too long for the prefix, is
  refused. It succeeds if and only if its journal key is new and fits
  (`PostingEligibleSettlementSucceedsIff`, `SettleSucceedsIff`); a run of four steps shows the failure
  (`EligibleSettlementCanFail`). Refunds fail for the same reason only (`RefundSucceedsIff`,
  `PermittedRefundCanFail`). The API accepts keys of 8 to 128 characters
  (`apps/api/src/match-finance/match-finance.dto.ts:6-9`); a refund adds 44 to its key for a row
  identified by a UUID, so none under a key of more than 84 characters ever goes through
  (`LongKeysAlwaysFail`).
- When the notification after a settlement fails, the caller gets an error for a settlement that stays
  (`Settle`), and by the first point no retry under the same key ever returns it.
- `canonicalJson` prints a value like its equals if and only if in none of its objects two keys tie
  under the collation (`PrintsLikeItsEqualsIff`), and ignores key order altogether if and only if the
  collation tells all different keys apart (`KeyOrderIsIgnoredIff`); two keys that compare equal print
  in the order they stand in.
- Base32 text with its padding followed by white space is refused, because padding is stripped before
  white space (`DecodeFailsIff`).
- A save whose read after the commit fails rolls back files that the committed settings refer to.
  Agreement of files and settings survives a save if and only if that does not happen to moved files
  (`SaveKeepsAgreementIff`, `BrokenSaveLosesTheLogo`). A save refused for its version restores the
  root, but the uploads it had moved are gone; it changes nothing if and only if it had moved none
  (`RefusedSaveLosesUploads`, `RefusedSaveChangesNothingIff`).
- Signing out everywhere does not reach a session that is being created (`SigningOutMissesCallsInFlight`):
  it reaches everything if and only if the user is not active or no call in flight holds the current
  version (`SignOutReachesAllIff`). Sessions that existed are gone for good (`RevokedSessionsNeverValidate`),
  and whatever bumps the security version reaches calls in flight too. The session a password change
  leaves out of its revocation keeps its row but is invalid as well (`ExcludedSessionIsInvalidated`).
- "The final active holder of a system role cannot be deleted" and "cannot be removed", say two messages
  of `admin-user-access.service.ts`, but the checks behind them count holders who are suspended,
  unverified or even deleted. Exactly which deletions and removals take the last active holder is
  `StepStrandsIff`; a run of six steps leads there (`LastActiveHolderCanBeLost`). Suspending and
  banning count right (`StatusChangeKeepsAHolder`).

## Model

| member | source | states |
|---|---|---|
| MatchFinanceTheorems.EscrowAlwaysReconciles | packages/match-finance/src/application/admin-match-finance-service.ts:86-92 | after every run, for every match, reconciliation answers consistent: the escrow balance is the sum of the match's reserved and released stakes |
| MatchFinanceTheorems.UserBalanceClosedForm | packages/match-finance/src/domain/match-settlement-policies.ts:73-93 | after every run a user's balance is the opening balance, minus open stakes, plus for each settlement the received amount minus the stake; refunds net to zero |
| MatchFinanceTheorems.ReceiptsAddUp | packages/match-finance/src/domain/match-settlement-policies.ts:73-93 | of a settled match's two participants the winner received twice the stake and the loser nothing, or both their stake; the receipts add up to the total |
| MatchFinanceTheorems.JournalReplaysAndConserves | packages/match-finance/src/infrastructure/prisma-match-settlement-ledger-adapter.ts:21-101 | after every run every posting has equal debits and credits, replaying the entries from the opening balances meets every recorded and stored balance, none negative, and the accounts sum to what they opened with |
| MatchFinanceTheorems.StepConserves | packages/match-finance/src/infrastructure/wallet-ledger-adapter.ts:20-195 | no step of any run changes the sum of all balances |
| MatchFinanceTheorems.StakePaidOutOnce | packages/match-finance/src/application/match-settlement-service.ts:57-107 | over a whole run the postings that pay a reservation's stake out are one if it is refunded or settled and none otherwise |
| MatchFinanceTheorems.PaidOutStaysPaidOut | packages/match-finance/src/application/match-settlement-service.ts:57-107 | whatever happens later, a paid-out reservation keeps its row and is not paid out again |
| MatchFinanceTheorems.SettledEscrowStaysEmpty | packages/match-finance/src/application/match-settlement-service.ts:57-107 | a settled match's escrow is zero for ever after |
| MatchFinanceTheorems.ReservingAgainMovesNothing | packages/match-finance/src/application/match-entry-reservation-service.ts:21-88 | whoever reserved in a match at some point of a run can reserve there again at any later point, under any key, without anything being written |
| MatchFinanceTheorems.RefundingAgainMovesNothing | packages/match-finance/src/application/admin-match-finance-service.ts:32-85 | once every participant of a match has entered and none is still reserved, no refund at any later point of the run writes anything, whatever its key, reason and limit |
| MatchFinanceTheorems.RefundsTouchOnlyReserved | packages/match-finance/src/application/admin-match-finance-service.ts:32-85 | a reservation once released, refunded or settled is left alone by every refund at any later point of the run |
| MatchFinanceTheorems.ReleasedMatchHasNothingToRefund | packages/match-finance/src/infrastructure/prisma-match-finance-repository.ts:223-258 | a release turns exactly the match's reserved rows into released ones, moves no points, and leaves nothing to refund |
| MatchFinanceTheorems.SettlingAgainMovesNothing | packages/match-finance/src/application/match-settlement-service.ts:57-64 | once a match is settled, settling it at any later point of the run under any key writes nothing |
| MatchFinanceTheorems.SettlementReplayAlwaysConflicts | packages/match-finance/src/application/match-settlement-service.ts:50-62 | a key that has settled a match fails with a key conflict for every match ever after |
| MatchFinanceTheorems.RefundFailsOnlyOnItsKey | packages/match-finance/src/infrastructure/wallet-ledger-adapter.ts:131-195 | in every state the invariant holds in, the refund of a reserved row cannot fail its escrow check; it fails if and only if its journal key is taken or longer than 128 characters |
| MatchFinanceTheorems.RefundSucceedsIff | packages/match-finance/src/application/admin-match-finance-service.ts:32-85 | in every reachable state a refund goes through if and only if the match permits it and each row's journal key is new and at most 128 characters long |
| MatchFinanceTheorems.EscrowMismatchIsNeverTheOnlyReason | packages/match-finance/src/domain/match-settlement-policies.ts:47-48 | in every reachable state a mismatched escrow comes with another reason not to settle |
| MatchFinanceTheorems.PostingEligibleSettlementSucceedsIff | packages/match-finance/src/infrastructure/prisma-match-settlement-ledger-adapter.ts:13-102 | posting an eligible settlement succeeds if and only if its journal key is new and at most 128 characters long, and leaves the escrow at zero |
| MatchFinanceTheorems.SettleSucceedsIff | packages/match-finance/src/application/match-settlement-service.ts:28-111 | in every reachable state settle commits if and only if the match exists and is eligible, key and identifier are new, and the journal key is new and at most 128 characters long |
| MatchFinanceTheorems.LongKeysAlwaysFail | packages/database/prisma/schema.prisma:1393 | the journal's key column holds 128 characters: no settlement commits under a key of more than 121, and no refund whose key and row identifier are longer than 120 together |
| MatchFinanceSettling.EligibleIff | packages/match-finance/src/domain/match-settlement-policies.ts:9-50 | in every reachable state a match is eligible if and only if, by its own row, it is over or voided, its result stands, no dispute is open and the time has come, two reservations of its two participants await payout with the same positive stake and a winner among them unless drawn or voided, and nothing has settled it |
| MatchFinanceSettling.SettleCommitsIff | packages/match-finance/src/application/match-settlement-service.ts:28-111 | in every reachable state settle writes a settlement if and only if the stored match and a pair of its reservations meet exactly those conditions, the settlement's key and identifier are unused, and no posting has the journal key |
| MatchFinanceSettling.SettlementFollowsTheResult | packages/match-finance/src/infrastructure/prisma-match-settlement-repository.ts:80-112 | a new settlement refunds a voided match, refunds a draw, and otherwise pays the winner the match's result names: that participant's user gains twice the stake, the other user nothing, a refund gives each user the own stake, the escrow ends at zero, and no other balance and no other match's row changes |
| MatchFinanceSettling.SettleRefusals | packages/match-finance/src/application/match-settlement-service.ts:38-85 | which error a refused settlement meets, told from the stored rows |
| MatchFinanceSettling.MismatchIff | packages/match-finance/src/domain/match-settlement-policies.ts:47-48 | in every reachable state the escrow differs from the listed stakes exactly when the match has a refunded stake, or was settled with one |
| MatchFinanceStakes.ReservationIsDue | packages/match-finance/src/application/match-entry-reservation-service.ts:21-88 | in every reachable state, for a participant of a match whose configuration spells n: which error is met, in order; a first reservation moves exactly n points from the user to the match's escrow and stores one row for n with one posting, one for nothing stores its row alone, and a repeated one returns the stored row and changes nothing |
| MatchFinanceStakes.ReserveSucceedsIff | packages/match-finance/src/application/match-entry-reservation-service.ts:21-88 | in every reachable state a participant's reservation succeeds if and only if the participant has one already, or key and identifier are unused and, for a positive stake, account and wallet are active, the balance covers it and the journal key is new and fits; either way the match must take entries, its deadline lie ahead, its configuration spell a stake, and nobody else's reservation have the key |
| MatchFinanceStakes.StrangersAreRefused | packages/match-finance/src/application/match-entry-reservation-service.ts:35-38 | whoever takes no part in the match is refused, and nothing changes |
| MatchFinanceStakes.UnspelledStakeIsRefused | packages/match-finance/src/domain/match-entry-policies.ts:11-52 | a configuration that spells no stake lets nobody reserve |
| MatchFinanceStakes.RefundIsDue | packages/match-finance/src/application/admin-match-finance-service.ts:32-85 | in every reachable state a refund succeeds if and only if the match permits the reason and every reserved row it reaches has a journal key that is new and fits; it reaches the match's reserved rows, under a limit of one only the row with the smallest identifier, marks exactly those refunded, gives each user the own stake from the escrow, and reports them in the order of their identifiers |
| MatchFinanceJournal.SettlementIsPosted | packages/match-finance/src/infrastructure/prisma-match-settlement-ledger-adapter.ts:13-102 | in every reachable state a new settlement writes one posting, of the type and result the match row has: the escrow's debit first, then the prize, or the stakes in the order of the participants' identifiers, numbered, each with the balance it leaves |
| MatchFinanceJournal.ListingIsInOrder | packages/match-finance/src/infrastructure/prisma-match-finance-repository.ts:213-222 | in every reachable state a match's listing holds its rows by creation and then identifier, up to the limit, and those left out come after |
| MatchFinanceJournal.RefundsAreListedInOrder | packages/match-finance/src/infrastructure/prisma-match-finance-repository.ts:250-259 | a refund lists reserved rows of the match by identifier, as many as asked for between 1 and 100, 10 if nothing is asked, and those left out come after |
| MatchFinanceJournal.ReconciliationAnswers | packages/match-finance/src/application/admin-match-finance-service.ts:86-92 | in every reachable state a reconciliation answers consistent, with the sum of the match's reserved and released rows as both balances, and the number of its rows |
| MatchFinanceWitness.EligibleSettlementCanFail | packages/match-finance/src/application/match-settlement-service.ts:74-83 | a concrete run after which an eligible settlement fails under a reservation's key and succeeds under another |
| MatchFinanceWitness.PermittedRefundCanFail | packages/match-finance/src/application/admin-match-finance-service.ts:55-72 | a concrete run after which a permitted refund fails under one key, because a reservation was keyed like its posting, and succeeds under another |
| MatchFinanceTrace.RowsNameTheirPostings | packages/match-finance/src/infrastructure/prisma-match-finance-repository.ts:159-249 | after every run every funded reservation, refunded reservation and settlement names the posting that moved its points, with its type, fingerprint, reference, accounts and amount, and every other row names none |
| MatchFinanceTrace.PostingsHaveOneOwner | packages/match-finance/src/infrastructure/wallet-ledger-adapter.ts:20-195 | after every run every posting of the journal is named by exactly one stake, refund or settlement |
| MatchFinanceTrace.StepIsTraced | packages/match-finance/src/application/match-settlement-service.ts:28-111 | every step keeps rows and journal pointing at each other |
| MatchFinanceInvariant.InitialHolds | packages/match-finance/src/infrastructure/wallet-ledger-adapter.ts:29-64 | the invariant holds before any match money has moved, for arbitrary non-negative user balances |
| MatchFinanceInvariant.ReserveKeepsInvariant | packages/match-finance/src/application/match-entry-reservation-service.ts:21-88 | a reservation, free or funded, new or repeated, keeps rows, escrows, user balances, payouts and journal consistent |
| MatchFinanceInvariant.ReleaseKeepsInvariant | packages/match-finance/src/infrastructure/prisma-match-finance-repository.ts:223-229 | a release keeps the invariant |
| MatchFinanceInvariant.RefundKeepsInvariant | packages/match-finance/src/application/admin-match-finance-service.ts:32-85 | a refund of any number of rows keeps the invariant |
| MatchFinanceInvariant.SettleKeepsInvariant | packages/match-finance/src/application/match-settlement-service.ts:28-111 | a settlement of any type keeps the invariant |
| MatchFinanceInvariant.StepKeepsInvariant | packages/match-finance/src/application/match-settlement-service.ts:28-111 | every step of a run keeps the invariant |
| MatchFinanceInvariant.RunKeepsInvariant | packages/match-finance/src/application/match-settlement-service.ts:28-111 | every run keeps the invariant |
| MatchEntryPolicies.RequiredExactlyWhenPositive | packages/match-finance/src/domain/match-entry-policies.ts:11-52 | a parsed requirement is required exactly when the stake is positive and stays below ten to the thirteenth; parsing fails exactly on a malformed entry or a contradicting flag |
| MatchEntryPolicies.StakeIsSpelled | packages/match-finance/src/domain/match-entry-policies.ts:33-52 | for every n below ten to the thirteenth a configuration is read as a stake of n if and only if it holds the decimal text of n, printed by division and remainder, in an entry of the right shape with no contradicting flag |
| MatchEntryPolicies.StakeIsUnique | packages/match-finance/src/domain/match-entry-policies.ts:33-52 | no configuration spells two stakes |
| Ledger.PostingKeepsBooks | packages/match-finance/src/infrastructure/prisma-match-settlement-ledger-adapter.ts:51-101 | a posting whose entries record what they left behind keeps accounts and journal in agreement |
| Ledger.BooksConserve | packages/match-finance/src/infrastructure/wallet-ledger-adapter.ts:67-123 | accounts in agreement with a balanced journal sum to their opening balances |
| MatchFinanceService.EvaluateEligibility | packages/match-finance/src/domain/match-settlement-policies.ts:9-50 | the collected reasons are exactly those that apply; eligible exactly when none does, then with the settlement type |
| MatchFinanceService.MatchFinanceTables.LedgerReserve | packages/match-finance/src/infrastructure/wallet-ledger-adapter.ts:20-130 | debits the user, credits the escrow and posts both entries with their balances, or fails, exactly as the transaction function says |
| MatchFinanceService.MatchFinanceTables.LedgerRefund | packages/match-finance/src/infrastructure/wallet-ledger-adapter.ts:131-195 | moves a stake back and posts it, or fails, as the transaction function says |
| MatchFinanceService.MatchFinanceTables.LedgerSettle | packages/match-finance/src/infrastructure/prisma-match-settlement-ledger-adapter.ts:13-102 | empties the escrow into the recipients one by one and posts it, as the transaction function says |
| MatchFinanceService.MatchFinanceTables.InsertReservation | packages/match-finance/src/infrastructure/prisma-match-finance-repository.ts:159-197 | stores a reservation under a new identifier or fails |
| MatchFinanceService.MatchFinanceTables.MarkRefunded | packages/match-finance/src/infrastructure/prisma-match-finance-repository.ts:230-249 | marks one reserved row refunded or fails |
| MatchFinanceService.MatchFinanceTables.InsertSettlement | packages/match-finance/src/infrastructure/prisma-match-settlement-repository.ts:127-168 | stores the settlement and finishes every row of the context with its outcome |
| MatchFinanceService.MatchFinanceTables.Reserve | packages/match-finance/src/application/match-entry-reservation-service.ts:21-88 | reserves or changes nothing, exactly as the transaction function and the step of a run say |
| MatchFinanceService.MatchFinanceTables.Refund | packages/match-finance/src/application/admin-match-finance-service.ts:32-85 | the loop refunds all listed rows or none, exactly as the transaction function and the step of a run say |
| MatchFinanceService.MatchFinanceTables.Reconcile | packages/match-finance/src/application/admin-match-finance-service.ts:86-92 | adds up the open stakes of the listed rows and compares them with the escrow |
| MatchFinanceService.MatchFinanceTables.Settle | packages/match-finance/src/application/match-settlement-service.ts:28-111 | settles or changes nothing, exactly as the step of a run says; when the notification after the commit fails it answers an error although the settlement stays |
| Base32.Base32Encode | packages/identity/src/infrastructure/node-mfa-crypto.ts:19-40 | for every byte sequence the loop over the unmasked accumulator computes the encoding of section 6 of RFC 4648: bits concatenated, filled with zeros to a multiple of five, one letter a group |
| Base32.OnlyLowBitsMatter | packages/identity/src/infrastructure/node-mfa-crypto.ts:25-31 | words that agree on their low bits are read alike, whatever was shifted or overflowed above |
| Base32.PushByte | packages/identity/src/infrastructure/node-mfa-crypto.ts:24-26 | shifting a byte into the word appends its eight bits to the pending ones |
| Base32.PushIndex | packages/identity/src/infrastructure/node-mfa-crypto.ts:56-57 | shifting an index into the word appends its five bits to the pending ones |
| Base32.ShiftsAreShifts | packages/identity/src/infrastructure/node-mfa-crypto.ts:24-36 | the shifts by a computed count are the 32-bit shifts, for every count the loops reach |
| Base32.EncodingLength | packages/identity/src/infrastructure/node-mfa-crypto.ts:19-40 | the text is as long as 8n/5 rounded up |
| Base32Numbers.EncodingSpellsTheBytes | packages/identity/src/infrastructure/node-mfa-crypto.ts:19-40 | without bit strings: the encoding has the bytes' bits in letters rounded up, all of them 'A' to 'Z' or '2' to '7', and read in base 32 it is the number of the bytes in base 256 shifted left by the bits left over |
| Base32.Base32Decode | packages/identity/src/infrastructure/node-mfa-crypto.ts:42-67 | for every text the loop decodes the normalised text bit by bit, or fails at the first character outside the alphabet |
| Base32.DecodeInvertsEncode | packages/identity/src/infrastructure/node-mfa-crypto.ts:19-67 | decoding the encoding of any bytes gives the bytes |
| Base32.AnySpellingDecodes | packages/identity/src/infrastructure/node-mfa-crypto.ts:42-43 | the same for any mix of cases, with white space anywhere and any number of '=' at the end |
| Base32.EncodeInvertsDecodeIff | packages/identity/src/infrastructure/node-mfa-crypto.ts:42-67 | encoding the decoded bytes gives the text back if and only if the left-over bits are fewer than five and zero |
| Base32.DecodeFailsIff | packages/identity/src/infrastructure/node-mfa-crypto.ts:43-54 | any text is refused exactly when, without its trailing '=', some character is neither white space nor turned into letters of the alphabet by the upper-casing |
| Base32.AcceptableAscii | packages/identity/src/infrastructure/node-mfa-crypto.ts:43-54 | of the ASCII characters exactly white space and the letters of either case are accepted |
| Base32Numbers.DecodingSpellsTheText | packages/identity/src/infrastructure/node-mfa-crypto.ts:42-67 | a text decodes exactly when all of it is in the alphabet, to as many bytes as it has whole ones, whose number in base 256 is the text's number in base 32 without the bits left over |
| Base32Numbers.AcceptedAscii | packages/identity/src/infrastructure/node-mfa-crypto.ts:43-54 | by character codes: of the ASCII characters exactly blank, tab, line feed, vertical tab, form feed, carriage return, the letters of either case and '2' to '7' are accepted |
| RulesetConfig.Walk.Visit | packages/game-catalog/src/domain/catalog-policies.ts:77-102 | a visit terminates and passes exactly when the value unfolds to a tree that fits depth, count and path; then the path is as before and the count has grown by the tree's size |
| RulesetConfig.AssertConfiguration | packages/game-catalog/src/domain/catalog-policies.ts:74-103 | on any finite heap, cyclic or shared, the walk passes if and only if the value unfolds to a tree at most 12 deep, of at most 2000 nodes, with only allowed leaves, containers and keys |
| RulesetConfig.UnfoldingIsUnique | packages/game-catalog/src/domain/catalog-policies.ts:77-102 | a value unfolds to at most one tree |
| RulesetConfig.UnfoldingIsAcyclic | packages/game-catalog/src/domain/catalog-policies.ts:87-100 | an object with a finite unfolding is never met again below itself, so the path check refuses only cycles |
| RulesetPaths.PassesIff | packages/game-catalog/src/domain/catalog-policies.ts:74-103 | a configuration passes if and only if at most 2000 paths of child numbers lead somewhere in it, none of more than 12 steps, and each to null, a text, a boolean, a finite number, an array, or a plain object without the keys __proto__, prototype and constructor |
| CanonicalJson.ValueDecodes | packages/game-catalog/src/fixtures/fc26-seed.ts:11-20 | printed values are uniquely decodable up to key order, wherever they end |
| CanonicalJson.TextDecodes | packages/game-catalog/src/fixtures/fc26-seed.ts:16-19 | an escaped string is decoded up to its closing quote |
| CanonicalJson.EqualOutputsAreSame | packages/game-catalog/src/fixtures/fc26-seed.ts:11-20 | two outputs are equal only for values equal up to key order, under any collation |
| CanonicalJson.SamePrintsAlike | packages/game-catalog/src/fixtures/fc26-seed.ts:13-18 | values equal up to key order print alike when no two keys of an object tie |
| CanonicalJson.PrintsLikeItsEqualsIff | packages/game-catalog/src/fixtures/fc26-seed.ts:11-20 | a value prints like every value equal to it up to key order if and only if in none of its objects two keys tie under the collation |
| CanonicalJson.KeyOrderIsIgnoredIff | packages/game-catalog/src/fixtures/fc26-seed.ts:15 | key order is ignored for all values if and only if the collation tells all different keys apart |
| CanonicalJson.TiedKeysPrintApart | packages/game-catalog/src/fixtures/fc26-seed.ts:15 | two members with tied keys, in either order, are the same object and print differently |
| CanonicalJson.ReusedExactlyWhenSame | packages/game-catalog/src/fixtures/fc26-seed.ts:27-39 | if no keys tie in the expected configuration, a ruleset with any stored configuration is reused if and only if it is active with the expected one up to key order, and created if and only if there is none |
| CanonicalJson.ExpectedIsRecognisedIff | packages/game-catalog/src/fixtures/fc26-seed.ts:27-39 | an expected configuration is recognised in every key order if and only if in none of its objects two keys tie |
| JsonReading.CanonicalIsRead | packages/game-catalog/src/fixtures/fc26-seed.ts:11-20 | what is printed is JSON text by the grammar of RFC 8259: an independent reader gives back the same value, in all its objects the keys in order, and nothing is left over |
| JsonReading.EscapesAreShortest | packages/game-catalog/src/fixtures/fc26-seed.ts:11-20 | of all texts that read as one character the printed one is a shortest, with hexadecimal digits in lower case |
| JsonReading.DriftIff | packages/game-catalog/src/fixtures/fc26-seed.ts:28-41 | drift is reported, under the ruleset's key, exactly for a stored ruleset that is not active or not the same |
| AuditPages.WalkServesTheListing | packages/admin-operations/src/infrastructure/prisma-admin-operation-repository.ts:56-94 | after n requests the pages are the first n times the page size rows of the listing the walk began with, for every page size, also when newer events are appended between requests |
| AuditPages.CompleteWalkIsTheListing | packages/admin-operations/src/infrastructure/prisma-admin-operation-repository.ts:56-94 | a walk that ends without a cursor has served the whole sorted listing, every matching event exactly once |
| AuditPages.WalkEnds | packages/admin-operations/src/infrastructure/prisma-admin-operation-repository.ts:84-94 | no walk makes more requests than the listing has full pages, and one more |
| AuditPages.ListingPastCursor | packages/admin-operations/src/infrastructure/prisma-admin-operation-repository.ts:72-82 | what follows a row of the listing is the listing past its cursor |
| AuditPages.ListingIsSound | packages/admin-operations/src/infrastructure/prisma-admin-operation-repository.ts:58-83 | the listing is strictly newest first and holds exactly the selected events |
| AuditPages.PageAnswers | packages/admin-operations/src/infrastructure/prisma-admin-operation-repository.ts:56-94 | a page holds, each later in the order than the one before, events whose fields meet every criterion given, ends of the time range included, behind the cursor, as many as the limit brought between 1 and 100; every other such event comes after all of them, and there is a cursor, at the last event's time and identifier, exactly when there is one |
| AuditPages.CompleteWalkAnswers | packages/admin-operations/src/infrastructure/prisma-admin-operation-repository.ts:56-94 | a walk that ends served, in that order, exactly the events whose fields meet the criteria when it began |
| MutationLock.AtMostOneRuns | apps/api/src/admin-operations/site-asset.service.ts:127-139 | under every interleaving at most one operation is between acquire and release |
| MutationLock.OperationsRunInCallOrder | apps/api/src/admin-operations/site-asset.service.ts:128-133 | operations begin in call order, each after all earlier ones have finished |
| MutationLock.SomeCallerCanStep | apps/api/src/admin-operations/site-asset.service.ts:127-139 | while a caller is not done, it or one before it can take a step |
| MutationLock.EveryWaiterRuns | apps/api/src/admin-operations/site-asset.service.ts:127-139 | every resume and release lowers the number of steps left by one, and at zero every caller is done |
| MutationLock.StepKeepsValid | apps/api/src/admin-operations/site-asset.service.ts:127-139 | every step keeps the chain linked, settled exactly behind done callers, and in order |
| MutationLock.MutationLock.Acquire | apps/api/src/admin-operations/site-asset.service.ts:128-132 | remembers the tail and becomes the tail |
| MutationLock.MutationLock.Begin | apps/api/src/admin-operations/site-asset.service.ts:133-135 | once the awaited promise is settled the operation begins, alone |
| MutationLock.MutationLock.Finish | apps/api/src/admin-operations/site-asset.service.ts:136-138 | the promise is settled however the operation ends, and the next caller can resume |
| SiteAssets.MovesAreReported | apps/api/src/admin-operations/site-asset.service.ts:158-180 | a commit adds to the root exactly the names it reports, all new there; it succeeds if and only if every URL is an asset's whose upload can be moved or whose file is in place |
| SiteAssets.RollbackRestoresRoot | apps/api/src/admin-operations/site-asset.service.ts:182-189 | rolling a commit back restores the root, so no file that was there is removed |
| SiteAssets.DeletesOnlyUnreferenced | apps/api/src/admin-operations/site-asset.service.ts:214-227 | only listed, unreferenced assets are removed, and all of them when no removal fails |
| SiteAssets.CandidatesAreListed | apps/api/src/admin-operations/site-asset.service.ts:229-235 | the candidates are the listed files named like assets |
| SiteAssets.OnlyStaleUploadsGo | apps/api/src/admin-operations/site-asset.service.ts:191-212 | clean-up removes exactly the listed uploads past the retention time that can be removed |
| SiteAssets.CountIsWhatTheRootLost | apps/api/src/admin-operations/site-asset.service.ts:214-227 | the number a clean-up without failures returns is the number of files the root lost |
| SiteAssets.CountIsWhatWaitedTooLong | apps/api/src/admin-operations/site-asset.service.ts:191-212 | the number a clean-up of uploads returns is the number of uploads that went |
| SiteSettings.FilesAgreeAfterAnyRun | apps/api/src/admin-operations/site-settings.service.ts:48-140 | after any run in which no save breaks off after its commit, every asset URL in the stored draft or published settings has a file |
| SiteSettings.SaveKeepsAgreementIff | apps/api/src/admin-operations/site-settings.service.ts:53-104 | a save keeps agreement if and only if it does not move files, commit and then fail to read |
| SiteSettings.PublishKeepsAgreement | apps/api/src/admin-operations/site-settings.service.ts:106-140 | a publication keeps agreement whatever fails |
| SiteSettings.StepKeepsValidIff | apps/api/src/admin-operations/site-settings.service.ts:48-140 | the same for every step, with uploads apart from files and the log consistent in any case |
| SiteSettings.VersionsAreConsecutive | apps/api/src/admin-operations/site-settings.service.ts:58-82 | after any run at all the revision log's versions are exactly one to the current version |
| SiteSettings.OnlyReferencedAssetsRemain | apps/api/src/admin-operations/site-settings.service.ts:84-140 | after a save or publication whose clean-up sees the whole root and fails nowhere, the assets with a file are exactly the ones the stored draft and published settings refer to |
| SiteSettingsAnswers.ShownFilesExist | apps/api/src/admin-operations/site-settings.service.ts:11-18 | after every unbroken run each of the five URL fields of the stored draft and of the published settings that starts with /site-assets/ is the URL of a file in the root |
| SiteSettingsAnswers.SaveSucceedsIff | apps/api/src/admin-operations/site-settings.service.ts:48-104 | in every reachable state a save succeeds if and only if each such field names a file in the root or a movable upload of the same administrator, the version is the stored one (1 before the first), and transaction and read go through; the new draft is stored under the next version, what was published stays, and one revision is logged |
| SiteSettingsAnswers.RefusedSaveAnswers | apps/api/src/admin-operations/site-settings.service.ts:48-104 | which error a refused save meets, and that only a failing read leaves anything stored |
| SiteSettingsAnswers.PublicationSucceedsIff | apps/api/src/admin-operations/site-settings.service.ts:106-140 | a publication succeeds if and only if a row of the expected version is stored and transaction and read go through; it publishes the stored draft, which stays, under the next version |
| SiteSettingsAnswers.CleanUpLeavesTheShown | apps/api/src/admin-operations/site-asset.service.ts:214-235 | after a successful save or publication a file is in the root if and only if it was there or was saved with, and one of the ten fields shows it, it is not named like an asset, or the clean-up did not come to it before a file it could not remove |
| SiteSettingsAnswers.UploadsLeftWaiting | apps/api/src/admin-operations/site-asset.service.ts:191-212 | after a successful save or publication an upload still waits if and only if it was not saved with and is younger than the retention time, was not listed, or cannot be removed |
| SiteSettingsAnswers.UploadIsItsAdministrators | apps/api/src/admin-operations/site-asset.service.ts:158-180 | in every reachable state an upload can be saved with by the administrator who made it, and by nobody else |
| SiteSettingsAnswers.BreaksIff | apps/api/src/admin-operations/site-settings.service.ts:88-102 | a save breaks off after its commit exactly when all of it but the read would succeed and a field shows an upload it moved |
| SiteSettings.RefusedSaveRestores | apps/api/src/admin-operations/site-settings.service.ts:99-102 | a refused transaction leaves root, settings and log as they were |
| SiteSettings.RefusedSaveChangesNothingIff | apps/api/src/admin-operations/site-settings.service.ts:48-104 | a refused save leaves everything as it was if and only if it had moved no upload |
| SiteSettings.RefusedSaveLosesUploads | apps/api/src/admin-operations/site-settings.service.ts:55-102 | after a refused save that had moved files, saving the same settings fails whatever version is expected |
| SiteSettings.BrokenSaveLosesTheLogo | apps/api/src/admin-operations/site-settings.service.ts:88-102 | a concrete upload and save after which the stored logo has no file |
| SiteSettings.SiteSettingsService.CommitReferenced | apps/api/src/admin-operations/site-asset.service.ts:158-180 | the loop moves, skips or stops exactly as the function of the files says |
| SiteSettings.SiteSettingsService.RollbackCommitted | apps/api/src/admin-operations/site-asset.service.ts:182-189 | removes exactly the named files |
| SiteSettings.SiteSettingsService.DeleteUnreferenced | apps/api/src/admin-operations/site-asset.service.ts:214-227 | the loop over unique URLs removes, skips or stops exactly as the function of the root says, and returns its count |
| SiteSettings.SiteSettingsService.CleanupCommitted | apps/api/src/admin-operations/site-asset.service.ts:229-235 | deletes among the listed asset names and returns the count |
| SiteSettings.SiteSettingsService.CleanupStaged | apps/api/src/admin-operations/site-asset.service.ts:191-212 | the loop over uploads does what the function of the uploads says and returns its count |
| SiteSettings.SiteSettingsService.CollectReferences | apps/api/src/admin-operations/site-settings.service.ts:88-95 | the set grown in two loops holds exactly the URLs of the draft and the published settings |
| SiteSettings.SiteSettingsService.StageUpload | apps/api/src/admin-operations/site-asset.service.ts:141-156 | adds one upload under a fresh name |
| SiteSettings.SiteSettingsService.SaveDraft | apps/api/src/admin-operations/site-settings.service.ts:48-104 | moves, stores, cleans up or rolls back exactly as the step of a run says |
| SiteSettings.SiteSettingsService.Publish | apps/api/src/admin-operations/site-settings.service.ts:106-140 | publishes and cleans up exactly as the step of a run says |
| IdentityTheorems.ValidSessionSawNoBump | packages/identity/src/application/identity-services.ts:198-270 | under every interleaving a session that validates saw no bump of its user's version since that version was read |
| IdentityTheorems.StaleSessionsNeverValidate | packages/identity/src/application/identity-services.ts:240-270 | a session whose user was bumped after its version was read never validates again, also after a restore |
| IdentityTheorems.StepBumps | packages/identity/src/infrastructure/prisma-identity-repository.ts:467-535 | exactly the listed operations that take effect increment a version, once, of one user; all others leave every version alone |
| IdentityTheorems.RevocationIsComplete | packages/identity/src/infrastructure/prisma-identity-repository.ts:284-298 | where a revoking operation takes effect no session of the user stays active but the spared one, and nobody else's changes |
| IdentityTheorems.RevokedSessionsNeverValidate | packages/identity/src/infrastructure/prisma-identity-repository.ts:284-298 | a session its user had when a revoking step took effect, signing out everywhere among them, never validates again after any further run, unless it was spared |
| IdentityTheorems.FinishedSessionValidatesIff | packages/identity/src/application/identity-services.ts:198-270 | in every reachable state the session a call in flight writes validates at once if and only if its user is active and was not bumped since the call read the user |
| IdentityTheorems.PasswordChangeIsGuarded | packages/identity/src/application/identity-services.ts:176-192 | a password is replaced only if the one read before is still stored; nobody else's row changes |
| IdentityTheorems.SecondPasswordChangeConflicts | packages/identity/src/application/identity-services.ts:176-182 | of two changes that read the same password the second conflicts |
| IdentityTheorems.ExcludedSessionIsInvalidated | packages/identity/src/infrastructure/prisma-identity-repository.ts:505-535 | the session left out of a password change's revocation keeps its row and fails validation |
| IdentityTheorems.OnlyTheVersionGivesItAway | packages/identity/src/application/identity-services.ts:198-265 | a concrete interleaving with an active, unexpired row of an active user that only its version invalidates |
| IdentityTheorems.SigningOutMissesCallsInFlight | packages/identity/src/application/identity-services.ts:312-321 | a concrete interleaving in which a session being created survives signing out everywhere |
| IdentityTheorems.CallSurvivesSignOutIff | packages/identity/src/application/identity-services.ts:312-321 | a call in flight when its user signs out everywhere yields a valid session if and only if the user is active and the version it read is current |
| IdentityTheorems.SignOutReachesAllIff | packages/identity/src/application/identity-services.ts:312-321 | signing out everywhere reaches every session begun before it if and only if the user is not active or no call in flight holds the current version |
| IdentityTheorems.LifecycleHolds | apps/api/src/admin-operations/admin-user-access.service.ts:232-843 | after every run deletedAt is set exactly when the status is deleted, a suspension has an end exactly when suspended, and active, suspended or banned users have a verified address |
| IdentityTheorems.StatusChangeSucceedsIff | apps/api/src/admin-operations/admin-user-access.service.ts:232-359 | in every reachable state a status change succeeds exactly for another, existing user along the five allowed transitions, with reason and end where required, and not for the only active holder of a system role |
| IdentityTheorems.ResetUsesUpTokens | packages/identity/src/application/token-services.ts:128-151 | a reset uses up its token and every other outstanding one of the user, for good |
| IdentityTheorems.ResetStoresThePassword | packages/identity/src/application/token-services.ts:128-151 | in every reachable state a reset succeeds if and only if the password is acceptable and the token outstanding and in time; then the new password is stored, that user alone is bumped, and none of the user's sessions stays active |
| IdentitySessions.SessionValidatesIff | packages/identity/src/application/identity-services.ts:240-270 | in every reachable state a session is good for a user if and only if its row is the user's, active, before its end and within the idle time of its last use or creation, and the user is active, not deleted, and was not bumped since the session was begun |
| IdentitySessions.SessionAnswers | packages/identity/src/application/identity-services.ts:240-270 | which error a session that is not good meets, told from the row, the user and the log of bumps |
| IdentitySessions.SessionBeginsIff | packages/identity/src/application/identity-services.ts:198-213 | a session begins exactly for an active user at the version given |
| IdentitySessions.SessionsEndOnTime | packages/identity/src/application/identity-services.ts:198-270 | whatever happens, touches included, no session is good at or after its creation plus its time to live |
| IdentitySessions.TouchRestartsIdling | packages/identity/src/infrastructure/prisma-identity-repository.ts:300-305 | a touch lets an active session idle anew from that moment, and changes nothing else about it |
| IdentityAccounts.VerificationSucceedsIff | packages/identity/src/application/token-services.ts:71-90 | in every reachable state a verification succeeds if and only if its token is outstanding and in time and its user is unverified; the user then is verified, active unless deleted, and none of the user's tokens is outstanding |
| IdentityAccounts.OnlyTheNewestTokenIsGood | packages/identity/src/application/token-services.ts:22-48 | issuing a verification token makes every earlier one of the user invalid for any time, and the new one good until it expires |
| IdentityAccounts.OnlyTheNewestResetIsGood | packages/identity/src/application/token-services.ts:95-126 | the same for reset tokens |
| IdentityAccounts.AcceptableIff | packages/identity/src/domain/identity-policies.ts:42-56 | a password is acceptable exactly when its length in units of UTF-16 is between the limits, it has a character that is not white space, by code, and no null character |
| IdentityAccounts.ChangedPasswordIsAsked | packages/identity/src/application/identity-services.ts:153-194 | after a password change, and any run without a further one, another change can begin exactly by giving the new password and an acceptable one that differs |
| IdentityAccounts.ChangeFinishesIff | packages/identity/src/application/identity-services.ts:176-194 | a change is stored exactly while the hash it read is still the stored one; it bumps the user and ends all sessions but the spared one |
| IdentityAccounts.StatusChangeIsStored | apps/api/src/admin-operations/admin-user-access.service.ts:277-433 | an accepted change of status is in the row, with the end of a suspension and no other, one version on; a restriction ends all sessions, a reinstatement none |
| IdentityAccounts.StatusChangeRefusals | apps/api/src/admin-operations/admin-user-access.service.ts:232-358 | which error a refused change of status meets in a reachable state |
| IdentityAccounts.RestrictionIsGuardedIff | apps/api/src/admin-operations/admin-user-access.service.ts:326-358 | in every reachable state restricting an active user is refused for the role exactly when, by the assignments and users, nobody else in use has some system role the user has |
| IdentityAccounts.SuspensionEndsOnTime | packages/identity/src/infrastructure/prisma-identity-repository.ts:176-190 | a suspension is lifted by a sign-in at or after its end and at no earlier time |
| IdentityAccounts.DeletionSucceedsIff | apps/api/src/admin-operations/admin-user-access.service.ts:570-739 | a deletion succeeds exactly for another, known user who is not the only one not deleted with some system role; it stamps the row and ends all sessions, and a second one changes nothing |
| IdentityAccounts.RestoringUndoesDeletion | apps/api/src/admin-operations/admin-user-access.service.ts:741-843 | restoring a deleted user gives the account back, active if verified and pending if not, two versions on, with no session left active |
| IdentityAccounts.AssignmentSucceedsIff | apps/api/src/admin-operations/admin-user-access.service.ts:985-1088 | a known role is assigned to a known user until a time yet to come; the user has the role before that time and not from it on |
| IdentityAccounts.RemovalSucceedsIff | apps/api/src/admin-operations/admin-user-access.service.ts:1091-1162 | an assignment is removed exactly if it is there and its role is no system role, or somebody else removes it and at least two have the role |
| IdentityAccounts.BootstrapSucceedsIff | packages/admin-rbac/src/admin-bootstrap.ts:10-97 | in every reachable state bootstrapping succeeds exactly for an active user, or a pending one with leave to verify, once the role is there; the user then is active and verified and has the role for good |
| Identity.StepKeepsValid | packages/identity/src/infrastructure/prisma-identity-repository.ts:176-535 | every step keeps versions equal to the count of bumps, of users, sessions and calls in flight, and every user's life cycle sound |
| Identity.BumpKeepsValid | apps/api/src/admin-operations/admin-user-access.service.ts:360-383 | a bump of one user keeps what every session and call in flight recorded |
| IdentityRoles.StepStrandsIff | apps/api/src/admin-operations/admin-user-access.service.ts:232-1163 | a step leaves a system role that had an active holder without one if and only if it is a deletion or removal of the only active holder, by somebody else, while the count of that operation still sees another holder; no other step does |
| IdentityRoles.RoleStaysHeldIff | apps/api/src/admin-operations/admin-user-access.service.ts:232-1163 | along every run, at any times, a system role held permanently and by somebody active keeps an active holder throughout if and only if no step is such a deletion or removal |
| IdentityRoles.StatusChangeKeepsAHolder | apps/api/src/admin-operations/admin-user-access.service.ts:326-358 | a suspension or ban leaves every system role that had an active holder at that moment with one |
| IdentityRoles.DeletionStrandsIff | apps/api/src/admin-operations/admin-user-access.service.ts:637-665 | a deletion takes it if and only if each system role of the user has another holder who is not deleted, active or not |
| IdentityRoles.RemovalStrandsIff | apps/api/src/admin-operations/admin-user-access.service.ts:1131-1154 | removing the role takes it if and only if somebody else, deleted or not, is assigned the role |
| IdentityRoles.ReassignedHolderExpires | apps/api/src/admin-operations/admin-user-access.service.ts:1035-1052 | assigning the role again with an end leaves it without an active holder from that end on, when the user was the only one |
| IdentityRoles.LastActiveHolderCanBeLost | apps/api/src/admin-operations/admin-user-access.service.ts:637-665 | a concrete run after which the only active holder of the administrator role can be deleted or lose the role |
| IdentityService.IdentityTables.VerifyEmailAndConsumeToken | packages/identity/src/infrastructure/prisma-identity-repository.ts:397-420 | consumes the token, verifies the address and activates a pending user when asked |
| IdentityService.IdentityTables.ConsumeEmailVerificationToken | packages/identity/src/application/token-services.ts:71-90 | does and answers what the step says |
| IdentityService.IdentityTables.BeginCreateSession | packages/identity/src/application/identity-services.ts:205-213 | checks the user and remembers the version read |
| IdentityService.IdentityTables.FinishCreateSession | packages/identity/src/application/identity-services.ts:221-237 | writes the row with what was read, whatever happened in between |
| IdentityService.IdentityTables.BeginChangePassword | packages/identity/src/application/identity-services.ts:153-176 | checks the policy, then both passwords against the hash read |
| IdentityService.IdentityTables.FinishChangePassword | packages/identity/src/application/identity-services.ts:177-194 | stores, bumps and revokes, or conflicts |
| IdentityService.IdentityTables.ConsumePasswordResetToken | packages/identity/src/application/token-services.ts:128-151 | checks the policy, then stores, consumes, bumps and revokes, or fails |
| IdentityService.IdentityTables.ChangeUserStatus | apps/api/src/admin-operations/admin-user-access.service.ts:232-434 | checks the request, then does and answers what the step says |
| IdentityService.IdentityTables.ChangeStatusInTransaction | apps/api/src/admin-operations/admin-user-access.service.ts:277-433 | changes the status, bumps and revokes, or fails |
| IdentityService.IdentityTables.CountActiveHolders | apps/api/src/admin-operations/admin-user-access.service.ts:326-358 | the loop over the user's system roles finds one without another active holder exactly if there is one |
| IdentityService.IdentityTables.CountUndeletedHolders | apps/api/src/admin-operations/admin-user-access.service.ts:637-665 | the loop finds a role without another holder who is not deleted exactly if there is one |
| IdentityService.IdentityTables.VerifyEmail | apps/api/src/admin-operations/admin-user-access.service.ts:436-568 | verifies, activates a pending user, drops tokens and bumps, once |
| IdentityService.IdentityTables.Delete | apps/api/src/admin-operations/admin-user-access.service.ts:570-739 | revokes, marks deleted and bumps, once |
| IdentityService.IdentityTables.Restore | apps/api/src/admin-operations/admin-user-access.service.ts:741-843 | restores to active if verified, to pending otherwise, and bumps |
| IdentityService.IdentityTables.RevokeSessions | apps/api/src/admin-operations/admin-user-access.service.ts:845-932 | revokes all sessions and bumps |
| IdentityService.IdentityTables.RecoverExpiredSuspension | packages/identity/src/infrastructure/prisma-identity-repository.ts:176-190 | reactivates a user whose suspension has ended |
| IdentityService.IdentityTables.Assign | apps/api/src/admin-operations/admin-user-access.service.ts:985-1088 | assigns or reassigns a role, or refuses, as the step says |
| IdentityService.IdentityTables.Remove | apps/api/src/admin-operations/admin-user-access.service.ts:1091-1162 | removes an assignment or refuses, as the step says |
| IdentityService.IdentityTables.BootstrapAdministrator | packages/admin-rbac/src/admin-bootstrap.ts:10-97 | verifies, activates and assigns the role for good, and rolls everything back when the role is missing |
| Mfa.CodeConsumedByOneLogin | packages/identity/src/infrastructure/prisma-mfa-repository.ts:432-464 | after every run a recovery code is consumed exactly when one login since its issue was confirmed with it, and none was used twice |
| Mfa.UnusedCodesCountDown | packages/identity/src/application/mfa-service.ts:132-150 | after every run unused codes are ten minus the recovery logins since codes were last issued |
| Mfa.ChallengesAreConfirmedOnce | packages/identity/src/infrastructure/prisma-mfa-repository.ts:418-430 | after every run no challenge was confirmed twice, and confirmed ones are consumed |
| Mfa.ConfirmedChallengeIsRefused | packages/identity/src/application/mfa-service.ts:366-392 | a confirmed challenge is refused for ever after |
| Mfa.ConfirmedLoginWasEntitled | packages/identity/src/application/mfa-service.ts:376-443 | a confirmed login had an unconfirmed, unexpired challenge of the account's current version, and the authenticator's code or a code unused until then |
| Mfa.AttemptsAreRolledBack | packages/identity/src/application/mfa-service.ts:426-430 | after every run no challenge shows a failed attempt |
| Mfa.PendingRotationChangesNothing | packages/identity/src/application/mfa-service.ts:154-315 | starting or cancelling a rotation changes no factor, code, session or challenge |
| Mfa.SecretChangesOnlyByRotation | packages/identity/src/application/mfa-service.ts:211-290 | an enabled secret changes only by confirming a rotation, to the candidate that verified, with ten new codes |
| Mfa.FactorSurvivesRuns | packages/identity/src/application/mfa-service.ts:154-315 | over every run without a confirmed rotation of the user, however many were started or cancelled, the enabled secret and the codes survive and consumed codes stay consumed |
| Mfa.RotationNeedsAssurance | packages/identity/src/infrastructure/prisma-mfa-repository.ts:204-225 | whatever changes a rotation came from an active session verified within ten minutes |
| Mfa.IssuingSecuresSessions | packages/identity/src/infrastructure/prisma-mfa-repository.ts:466-536 | enrolment and rotation leave the user only the current session active, verified now |
| Mfa.StepKeepsValid | packages/identity/src/application/mfa-service.ts:64-444 | every step keeps codes and challenges in agreement with the log |
| MfaConfirmations.LoginIsConfirmedIff | packages/identity/src/application/mfa-service.ts:366-444 | in every reachable state a login is confirmed if and only if its challenge was begun, is unconfirmed and in time, its user is active at its version with an enabled factor, and the code is the authenticator's six digits or an unused recovery code; it then uses up the challenge and, without the authenticator, that code |
| MfaConfirmations.ChallengesLastFiveMinutes | packages/identity/src/application/mfa-service.ts:317-364 | a challenge begins exactly for an active account at the version given with an enabled factor, keeps its user and version over every run, and is refused five minutes later |
| MfaConfirmations.RotationConfirmsIff | packages/identity/src/application/mfa-service.ts:154-290 | a rotation begun, with any steps but changes of the factor in between, is confirmed if and only if under ten minutes have passed, the session was verified within ten minutes, the six digits verify the candidate, and the ten codes differ; the candidate and the codes then are the user's |
| MfaConfirmations.CancelledRotationIsGone | packages/identity/src/application/mfa-service.ts:292-315 | a rotation is cancelled exactly for an enabled factor from a session just verified; no code confirms it afterwards, over every run without another start |
| MfaConfirmations.EnrollmentConfirmsIff | packages/identity/src/application/mfa-service.ts:64-152 | an enrolment begins exactly for an active account without an enabled factor, and is confirmed, with any other steps in between, if and only if the six digits verify its secret, the session is the user's and active, and the ten codes differ |
| MfaService.MfaTables.StartTotpEnrollment | packages/identity/src/application/mfa-service.ts:64-100 | does and answers what the step says |
| MfaService.MfaTables.ReplaceCodes | packages/identity/src/infrastructure/prisma-mfa-repository.ts:189-202 | deletes the old codes and inserts the new ones, failing on a repeated hash |
| MfaService.MfaTables.SecureSessions | packages/identity/src/infrastructure/prisma-mfa-repository.ts:466-500 | verifies the current session and revokes the user's others |
| MfaService.MfaTables.ConfirmTotpEnrollment | packages/identity/src/application/mfa-service.ts:102-152 | enables with ten codes or rolls everything back |
| MfaService.MfaTables.StartTotpRotation | packages/identity/src/application/mfa-service.ts:154-209 | does and answers what the step says |
| MfaService.MfaTables.ConfirmTotpRotation | packages/identity/src/application/mfa-service.ts:211-290 | replaces secret and codes or rolls everything back |
| MfaService.MfaTables.CancelTotpRotation | packages/identity/src/application/mfa-service.ts:292-315 | does and answers what the step says |
| MfaService.MfaTables.BeginLoginChallenge | packages/identity/src/application/mfa-service.ts:317-364 | creates a challenge exactly for users with an enabled factor |
| MfaService.MfaTables.ConsumeRecoveryCode | packages/identity/src/infrastructure/prisma-mfa-repository.ts:432-464 | consumes an unused code of an enabled factor or changes nothing |
| MfaService.MfaTables.ConfirmLoginChallenge | packages/identity/src/application/mfa-service.ts:366-444 | confirms and consumes, or rolls back the counted attempt with everything else |

## Left out

- Isolation levels and serialisation failures: a transaction is an atomic step.
- Constraints of the SQL migrations: several of them, as written, refuse rows the services write (the list of ledger reference types, the owner and type check that refuses every escrow account, the release timestamp check that refuses to settle a released row, a refund transaction required of every refunded row). Under them not even the "succeeds if and only if" statements above would hold; the model follows the services.
- Wallet issuance, adjustments and reversals: `reverse` in packages/wallet/src/infrastructure/prisma-wallet-repository.ts takes any posted transaction with an entry outside user accounts, reservations included; it debits the escrow and leaves the row reserved. That reconciliation always answers consistent holds of runs without them.
- Row versions and timestamps of match finance that no decision reads, the width of BIGINT (balances never exceed the opening sum), `assertEntrySatisfied` and reservation expiry, what the notification after settling does, and the asset-code check when a row is read back.
- Match results, disputes and wallets change in arbitrary ways between steps; the code that changes them is not part of this model.
- Unicode case mapping: decoding takes any upper-casing that is right on ASCII; texts with unpaired surrogates are not modelled.
- AssertConfiguration: ends with the walk; the checks of `schemaVersion`, `settings` and total length after it are left out.
- Values `JSON.stringify` drops or changes (undefined, functions, infinities, minus zero): printed values are JSON, and a number is its decimal text.
- The encoding of a cursor as base64url text: a cursor is its pair of time and identifier.
- Several API processes at once: the lock is one process's. An upload staged while a save runs counts as staged before or after it.
- The validation of settings against their schema, which is assumed to succeed on what is stored.
- StageUpload: does not model image inspection, content types, the paths files are resolved to, or a write that fails.
- CleanupStaged: does not model the removal of directories that became empty.
- A failure of the file system during rollback, and a commit whose outcome the database did not report.
- Password login with its lockout and rehash, the duplicate-address check of registration, profiles, and audit events.
- ConsumeEmailVerificationToken: does not model secondary addresses, which nothing in the repository creates; a user has one address, the primary one.
- VerifyEmail: does not model users without a primary address, which nothing in the repository creates.
- FinishCreateSession: does not model the row's address hash, user agent and time of the second factor, which no decision modelled here reads.
- BootstrapAdministrator: does not model its refusals of an ambiguous or non-primary address.
- The interval the service keeps between two touches of a session: a touch may come at any time, which allows more runs.
- The reads before a verification or reset token is issued: any user may be issued one at any time, which allows more runs.
- In the second-factor model accounts and sessions change in arbitrary ways between steps instead of through the identity model.
- Roles: which permissions a role gives is left out; roles other than the seeded one are added from outside, and one in use is never removed.
- Cryptography: TOTP verification is a function parameter, recovery codes are their hashes, secrets are not sealed; the encodings above are the exception.
- Phone verification, matchmaking, ratings, notifications, the web application and all wiring.
