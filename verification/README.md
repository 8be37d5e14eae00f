# CobData back end: verified model

A Dafny model of the debt-collection back end's stateful protocols, its exact-cents pricing and its text
handling, with proofs over every input, every run and every interleaving. `dafny verify dfyconfig.toml` checks it.

The database is modelled by sequences and maps with their unique indexes. Amounts are integer cents and percentages
hundredths of a point (`Math.round` and SQL `ROUND` are both `Offers.RoundDiv`, half up). The clock, provider replies,
failures, the row a `findFirst` picks and the contract a reference resolves to are inputs. SHA-256 is taken to be
injective, so a hash is represented by what it hashes.

| file | models |
|---|---|
| `PixCharge.dfy` | bank webhook and reconciliation job racing on versioned charge rows, step by step |
| `Ledger.dfy`, `SettlementService.dfy` | settlement rows, contract projections, and the services that write them |
| `ContractTable.dfy`, `ImportEngine.dfy`, `LastRun.dfy`, `ImportRetry.dfy`, `ImportRow.dfy`, `ImportRestart.dfy`, `ImportKeys.dfy`, `ImportColumns.dfy`, `ImportJob.dfy` | the chunked, restartable import, and exactly when it may be restarted |
| `ContractUpsert.dfy` | API upsert, bulk transfer and soft delete over the same table |
| `Offers.dfy`, `Bands.dfy`, `Pricing.dfy`, `CommercialRules.dfy` | rounding, aging bands, the quotes, and the rules they come from |
| `SerasaRemoval.dfy` | removal items: claims, backoff, bounded retries, cancellation, overlapping passes |
| `TokenCache.dfy` | OAuth token cache with coalesced refreshes |
| `BulkCancel.dfy` | row matching and the resumable cancellation batch |
| `CsvRow.dfy`, `CurrencyText.dfy`, `ImportLine.dfy`, `Text.dfy` | CSV rows, currency text and line normalisation |
| `Runs.dfy`, `Wrappers.dfy` | runs of a state machine; optional values and filtering |

## What the code does not keep, and exactly when it does

Each of these keeps the code as it is and has both halves proved.

- **A payment can be dropped.** When the job moves a charge from PENDING to ISSUED (or to EXPIRED or FAILED) between a
  webhook's read and its versioned write, the webhook finds a row that is not PAID and returns; no settlement is written
  (`PixCharge.DroppedPayment`). Over every run, an entry that has read an unpaid charge ends this way exactly when the job
  moved the charge and nobody else paid it before the entry was done (`PixCharge.LostExactly`).
- **A settlement can stand on an unpaid charge.** The job settles a charge even when its own versioned write missed
  (src/payments/charge-lifecycle.job.ts:265-281), so two overlapping cycles can leave an ISSUED charge with a CONFIRMED
  settlement (`PixCharge.UnpaidSettlement`). Over every run this is so exactly when another cycle moved the charge and
  nobody else has paid it (`PixCharge.SettledUnpaidExactly`).
- **Restarting an import is not always harmless.** The chunk comment promises idempotence
  (src/imports/processors/application.processor.ts:186-188). It fails for a SUSPENDED contract that is moved from another
  wallet, and for a SUSPENDED contract of the same wallet whose line carries a cancellation date (the first pass clears it,
  the rerun writes it). A file without such contracts restarts harmlessly (`ImportRetry.CrashAndRerun`). Every file that
  finishes is decided (`ImportKeys.RestartExactly`): restarting agrees exactly when the later lines of each such contract
  make up for its first one, which is a condition on the contract and its lines (`ImportRow.Recovers`), and no other row
  holds the key of a contract that its dated first line only wakes, since a rerun writes that key earlier than the run did
  (`ImportKeys.KeyFree`). Where the addressed contracts hold the keys of their identities, as every created contract does,
  files that abort are decided too (`ImportKeys.KeyedRestartExactly`), and a file with at most one line for each suspended
  contract may be restarted exactly when it has no such contract or aborts anyway (`ImportKeys.SafeExactly`).
- **Delivery order matters when deliveries disagree.** Two deliveries with one end-to-end or event id and different
  contents: the first wins. Order and repeats are immaterial exactly when there is no such pair (`Ledger.DeliveriesExactly`).
- **A confirmation after a reversal restores the gross total**, because `processEvent` sums confirmed rows only. After any
  mixed run a contract shows its net total exactly when its last posting was a reversal, or nothing of it is reversed, or
  nothing is confirmed (`Ledger.NetAfterRunExactly`).
- **A NULL strategy percentage is 0 in TypeScript and the wallet discount in SQL.** The two recalculations of a row agree
  exactly when the stored aging is fresh and no such NULL shows (`Pricing.RowsAgreeExactly`); databases built through
  the API never contain one (`CommercialRules.RecalculationsAgree`).
- **A contract can stay in REMOVING for ever**, although the comment at src/providers/operations.service.ts:531-536 rules
  it out: after a worker exception the item is failed and the contract left (`SerasaRemoval.RemovingForever`). A failed item
  is final exactly when no request of it is out: an operation can be cancelled while a request is out, and the answer then
  brings the item back (`SerasaRemoval.FailedForeverExactly`). An item can also be left pending without a job, when a
  pass claims it between the two writes of a cancellation (`SerasaRemoval.ClaimedWhileCancelled`). By its own jobs an item
  reaches its timeout exactly when neither has happened to it for good (`SerasaRemoval.TimesOutExactly`).
- **Overlapping passes break the limit and the backoff.** Two passes that read one item lead to a sixth request
  (`SerasaRemoval.SixthRequest`). Over all runs with overlap, the worker can at no point send a sixth request, or send
  within the backoff after the last answer, exactly when no pass claims an item that is not due on its own row
  (`SerasaRemoval.PromiseExactly`); a single claim is harmless exactly when nothing timely that follows it can lead to such
  a request (`SerasaRemoval.StepTimelyExactly`). Without overlap no claim is untimely (`SerasaRemoval.OneAtATimeIsTimely`).
- **A forced token refresh of a key whose request is out breaks the single-request promise**
  (`TokenCache.ForcedRefreshDuplicates`). The promise holds at every point of a run exactly when no forced refresh does
  that (`TokenCache.RunKeepsExactly`).
- **The empty CSV row** reads back as one empty field (`CsvRow.RoundTripExactly`), and shares its text with
  that row alone (`CsvRow.PrintsAlikeExactly`).
- **A bulk transfer can move contracts that may not be edited**: a provider-status filter replaces the editable-status test
  instead of adding to it (src/contracts/contracts.service.ts:310-312). Only editable contracts move exactly when there is
  no such filter or it names an editable status (`ContractUpsert.TransfersEditableExactly`).

## Model

| member | source | states |
|---|---|---|
| PixCharge.StepSafe | src/payments/charge-lifecycle.job.ts:231-372 | one step of any actor keeps the invariant: a snapshot with the row's version is the row, settlement ids are unique, a webhook finished as settled has its row; every write bumps the version, PAID is final, settlements only grow |
| PixCharge.RunSafe | src/payments/webhooks/bb-pix-webhook.service.ts:72-164 | the same over every interleaving of any number of deliveries and job fetches |
| PixCharge.PaidForever | src/payments/webhooks/bb-pix-webhook.service.ts:105-148 | a charge PAID at one point of a run is PAID at every later point, and versions never go back |
| PixCharge.NoStaleWrite | src/payments/charge-lifecycle.job.ts:352-372 | in every reachable state a row changes only by a versioned write whose snapshot is that row, along a legal status move, with the version bumped by one |
| PixCharge.NothingBetween | src/payments/charge-lifecycle.job.ts:347-364 | equal versions at two points of a run mean the row was the same at every point between them |
| PixCharge.SettledOnce | src/payments/webhooks/bb-pix-webhook.service.ts:186-244 | never two PIX settlements for one external id, in any interleaving |
| PixCharge.SettledHasRow | src/payments/webhooks/bb-pix-webhook.service.ts:80-93 | an entry that finished as settled has its settlement, then and in every continuation |
| PixCharge.RowsSourced | src/payments/charge-lifecycle.job.ts:403-440 | every settlement added in a run carries the amount and date of a delivered entry for a charge with its txid that is PAID, or the charge's own amount and id from the job |
| PixCharge.LostExactly | src/payments/webhooks/bb-pix-webhook.service.ts:95-148 | over every run, an entry that has read an unpaid charge ends as settled or with a lost lock; with a lost lock if and only if the job moved the charge and nobody else paid it before the entry was done |
| PixCharge.SettledUnpaidExactly | src/payments/charge-lifecycle.job.ts:265-281 | over every run, a job that decided on PAID ends with a settlement for the charge or under its key, and the charge is not PAID if and only if another cycle moved it and nobody else has paid it |
| PixCharge.UnpaidSettlement | src/payments/charge-lifecycle.job.ts:260-300 | a schedule of two overlapping cycles that ends with a settlement on an ISSUED charge |
| PixCharge.DroppedPayment | src/payments/webhooks/bb-pix-webhook.service.ts:138-145 | a full schedule from a PENDING charge to the dropped payment |
| PixCharge.JobDecidesExactly | src/payments/charge-lifecycle.job.ts:231-253 | a job answered by the provider goes on to write PAID on a PAID answer whatever the date, ISSUED or FAILED on that answer for a pending candidate only, EXPIRED on an unpaid answer for an expired one, and nothing otherwise |
| PixCharge.WritesAsCalled | src/payments/charge-lifecycle.job.ts:207-253 | in every run, what a job is about to write was called for by the answer it got |
| PixCharge.PaidReplySettles | src/payments/charge-lifecycle.job.ts:234-236 | in every run, a job answered PAID ends with a settlement and with the charge PAID, unless another cycle moved it and nobody else has paid it |
| PixCharge.JobWritesExactly | src/payments/charge-lifecycle.job.ts:352-372 | the versioned write lands on an unchanged version only, sets that status and bumps the version; only a job that wrote PAID settles |
| PixCharge.FetchesExactly | src/payments/charge-lifecycle.job.ts:73-135 | a job fetches PENDING and ISSUED charges only, and only PENDING ones as pending candidates |
| PixCharge.JobSettlesExactly | src/payments/charge-lifecycle.job.ts:403-440 | a charge with a settlement is left alone; otherwise one row with the charge's key and amount is inserted, if the key is free |
| PixCharge.EntryStartsExactly | src/payments/webhooks/bb-pix-webhook.service.ts:75-93 | an entry lacking an id is skipped, one already settled is done, any other looks for its charge |
| PixCharge.EntryFindsExactly | src/payments/webhooks/bb-pix-webhook.service.ts:95-113 | without a charge the entry is done; it settles a paid charge and pays an unpaid one |
| PixCharge.EntrySettlesExactly | src/payments/webhooks/bb-pix-webhook.service.ts:186-244 | one row with the entry's id, amount and date, if the id is free |
| Ledger.SumPermutation | src/payments/settlement/settlement-processor.service.ts:121-128 | the aggregate sum does not depend on row order |
| Ledger.LastIsMaximum | src/payments/settlement/settlement-processor.service.ts:121-135 | lastPaymentAt is the maximum over the contract's confirmed rows |
| Ledger.PostAllExplained | src/payments/settlement/settlement-processor.service.ts:62-137 | after confirmed postings every key holds the row it had, or else the first one offered, once; contracts that gained a row have sum and maximum, the others are untouched |
| Ledger.OrderInsensitiveExactly | src/payments/settlement/settlement-processor.service.ts:56-137 | reordering and repeating confirmed rows is immaterial if and only if no free key is offered two different rows |
| Ledger.DeliveriesExactly | src/payments/settlement/settlement-processor.service.ts:56-137 | the same for deliveries of any kind, including those that find no contract |
| Ledger.TotalsExplained | src/payments/settlement/settlement-processor.service.ts:120-136 | totalPaidAmount and lastPaymentAt after any confirmed deliveries are sum and maximum over the distinct settlements |
| Ledger.LastPostingDecides | src/payments/settlement/settlement-processor.service.ts:120-136 | after any run of confirmations and reversals a contract shows the gross or the net total of all its rows, as its last posting was a confirmation or a reversal |
| Ledger.NetAfterRunExactly | src/payments/settlement/settlement-processor.service.ts:213-251 | after any mixed run the net total is shown if and only if the last posting was a reversal, nothing is reversed, or nothing is confirmed |
| Ledger.TotalsAfterRun | src/payments/settlement/settlement-processor.service.ts:213-251 | after any mixed run ending in a reversal, paid plus reversed is confirmed, or nothing is paid when more is reversed; after a confirmation paid is confirmed; the date is the latest confirmed one |
| Ledger.ConfirmationLeavesNetExactly | src/payments/settlement/settlement-processor.service.ts:120-136 | a confirmation leaves that net total if and only if nothing is reversed or nothing is confirmed |
| SettlementService.Store.FindSettlement | src/payments/webhooks/bb-pix-webhook.service.ts:170-184 | finds a row exactly when the key is recorded |
| SettlementService.Store.Aggregate | src/payments/settlement/settlement-processor.service.ts:214-241 | the sum, and for confirmed rows the latest date |
| SettlementService.Store.ProcessEvent | src/payments/settlement/settlement-processor.service.ts:56-137 | an event whose reference resolves and whose key is free adds one confirmed row and leaves its contract with the sum and latest date of the confirmed rows; any other changes nothing |
| SettlementService.Store.ProcessReversal | src/payments/settlement/settlement-processor.service.ts:150-252 | such an event adds one reversed row, and what is then paid and what is reversed make up what is confirmed, or nothing is paid; any other changes nothing |
| SettlementService.Store.RefreshProjection | src/payments/webhooks/bb-pix-webhook.service.ts:273-305 | overwrites one contract's total with the confirmed sum and its date with the latest confirmed one, keeping the date when nothing is confirmed, and no other contract |
| SettlementService.Store.ProcessPixEntry | src/payments/webhooks/bb-pix-webhook.service.ts:72-164 | an entry that posts adds its row and pays its own charge once, with its date; any other entry, and every other charge, changes nothing |
| SettlementService.Store.ProcessPixWebhook | src/payments/webhooks/bb-pix-webhook.service.ts:49-67 | the entries one after another are the postings one after another |
| SettlementService.PixDeliveriesExactly | src/payments/webhooks/bb-pix-webhook.service.ts:72-164 | webhook deliveries with the same distinct entries give the same settlements, totals and dates in any order with any repeats if and only if entries that find a charge agree per unsettled end-to-end id |
| ContractTable.Matches | src/imports/processors/application.processor.ts:248-262 | the identity query returns exactly the live rows with the identity, each once |
| ContractTable.KeysSeparate | src/imports/processors/application.processor.ts:235-241 | two identities share the deduplication key if and only if creditor, document, number and due day agree |
| ImportEngine.ValidLines | src/imports/processors/application.processor.ts:189 | keeps exactly the valid lines |
| ImportEngine.ValidLinesInOrder | src/imports/processors/application.processor.ts:189 | every line, wherever it stands and however often, is kept in its place or dropped alone |
| ImportEngine.ValidExactly | src/imports/processors/application.processor.ts:568-604 | a line is valid if and only if it has a CPF or CNPJ, a contract number, a known debt type, a due date and two amounts of a cent or more |
| ImportEngine.DifferentIffCanon | src/imports/processors/application.processor.ts:27-97 | the field-by-field comparison is an equivalence: the kernel of "dates by day, blank text as missing" |
| LastRun.ShowsClosedForm | src/imports/processors/application.processor.ts:390-480 | "update unless equivalent" ends at the first line of the last run of equivalent lines, or at the start if none differs |
| LastRun.Replay | src/imports/processors/application.processor.ts:390-480 | reading the same lines again shows the same thing |
| ImportRetry.ApplyLineFrame | src/imports/processors/application.processor.ts:304-514 | a line changes at most the one live, sole, non-terminal row with its identity, or creates a row when no live row has it; no row changes identity |
| ImportRetry.ApplyLineKeys | src/imports/processors/application.processor.ts:235-241 | the unique deduplication key is never broken |
| ImportRetry.SettledFirst | src/imports/processors/application.processor.ts:447-514 | the first line for a contract leaves it in place and equivalent, unless it is suspended and not restartable |
| ImportRetry.FirstPass | src/imports/processors/application.processor.ts:189-516 | what a pass leaves on every row, new rows included; for files safe for every suspended contract |
| ImportRetry.SecondPass | src/imports/processors/application.processor.ts:521-522 | a second pass creates nothing, violates no key and moves every row along its own lines |
| ImportRetry.Idempotent | src/imports/processors/application.processor.ts:186-188 | applying the same lines twice is applying them once; for files safe for every suspended contract |
| ImportRetry.CrashAndRerun | src/imports/processors/application.processor.ts:186-538 | after a crash behind any committed prefix, rerunning the whole file gives the table, row for row, or the abort of one uninterrupted run, repeats included; for files safe for every suspended contract |
| ImportRetry.ManyCrashes | src/imports/processors/application.processor.ts:549-561 | the same after any number of crashed attempts; for files safe for every suspended contract |
| ImportRow.RowAgreesExactly | src/imports/processors/application.processor.ts:447-513 | for a suspended contract that its first line does not settle, restarting agrees after every prefix if and only if its later lines make up for the first, by a case split on their classes and values |
| ImportRow.OnlyLineNeverRecovers | src/imports/processors/application.processor.ts:447-513 | with no further line for such a contract it never does |
| ImportKeys.RestartExactly | src/imports/processors/application.processor.ts:186-538 | for every file that finishes, repeats included, restarting agrees after every prefix if and only if every unsettled contract recovers and no other row holds the key of one that its dated first line only wakes |
| ImportKeys.KeyedRestartExactly | src/imports/processors/application.processor.ts:186-538 | where addressed contracts hold their identity's key, for every file: if and only if the run aborts anyway or every unsettled contract recovers |
| ImportKeys.SafeExactly | src/imports/processors/application.processor.ts:186-538 | there, with at most one line for each suspended contract: if and only if the run aborts anyway or the file is safe |
| ImportKeys.BlockedAborts | src/imports/processors/application.processor.ts:235-241 | restarted right behind its first line, a contract whose key another row still holds aborts the rerun |
| ImportKeys.SuspendedRowDisagrees | src/imports/processors/application.processor.ts:481-513 | one suspended contract and a one-line file already disagree |
| ImportRetry.LastLineDecides | src/imports/processors/application.processor.ts:481-514 | the last line for an identity decides: its contract is active, in the target wallet and equivalent to the line, and carries an equivalent line in full unless nothing differed; for files safe for every suspended contract |
| ImportColumns.LastLineShows | src/imports/processors/application.processor.ts:194-232 | that row shows the last line column by column: cents, debt type, due, birth and cancellation day, origin and every debtor text; for files safe for every suspended contract |
| ImportColumns.LastLineReads | src/imports/processors/application.processor.ts:447-514 | for any file, the row the last line matches shows it in every column but the cancellation date |
| ImportColumns.CreatedRow | src/imports/processors/application.processor.ts:328-371 | the row a line creates copies the line column by column and starts active, open and outside the provider |
| ImportColumns.UpdatedRow | src/imports/processors/application.processor.ts:372-514 | what a line changes in the row it matches, column by column: moved, rewritten, reactivated or left as it is |
| ImportColumns.EffectMeans | src/imports/processors/application.processor.ts:328-514 | a line is counted as created if and only if it adds a row; an ignored one changes nothing; an updated one matched a row that needed it |
| ImportColumns.CreatedCount | src/imports/processors/application.processor.ts:371 | the created count is the growth of the table |
| ImportJob.CountsAddUp | src/imports/processors/application.processor.ts:178-180 | created + updated + ignored is the number of lines |
| ImportJob.TerminalUntouched | src/imports/processors/application.processor.ts:311-326 | a contract paid or cancelled at the start is not changed by any file |
| ImportJob.TerminalSurvivesJob | src/imports/processors/application.processor.ts:540-544 | nor by the recalculation that closes the job |
| ImportJob.ApplyChunk | src/imports/processors/application.processor.ts:190-519 | a chunk commits all its lines or the run aborts |
| ImportJob.Process | src/imports/processors/application.processor.ts:147-562 | the stored table is that of a committed prefix; every persisted progress record counts each line of its prefix once; APPLIED means the whole file |
| ContractUpsert.UpsertIdempotent | src/contracts/contracts.service.ts:118-285 | the same upsert sent twice changes nothing the second time |
| ContractUpsert.StepKeepsUnique | src/contracts/contracts.service.ts:288-338 | import line, upsert, bulk transfer and soft delete each keep at most one live contract per identity |
| ContractUpsert.RunKeepsUnique | src/contracts/contracts.service.ts:118-150 | so does every sequence of them |
| ContractUpsert.DuplicatesNeverFound | src/contracts/contracts.service.ts:134-138 | the duplicate rejection never fires in a reachable table |
| ContractUpsert.TransfersEditableExactly | src/contracts/contracts.service.ts:306-313 | an accepted transfer moves editable contracts only, whatever the table and the other filters, if and only if there is no provider-status filter or it names an editable status |
| ContractUpsert.UpsertStores | src/contracts/contracts.service.ts:185-284 | an accepted upsert updates the one live contract with the identity, optional columns only where given and the price only if unpaid, or appends a new active one; every other row stays |
| ContractUpsert.UpsertRefusedExactly | src/contracts/contracts.service.ts:86-262 | it is refused if and only if the wallet is foreign or inactive, the date lies ahead, two contracts match, the match is in another wallet, or the key is taken |
| ContractUpsert.TransferStores | src/contracts/contracts.service.ts:288-338 | an accepted transfer sets the wallet of exactly the rows its filters name, and no other column |
| ContractUpsert.DeleteStores | src/contracts/contracts.service.ts:1030-1049 | a live, editable contract of the account is marked deleted, and nothing else |
| Offers.RoundDiv | src/contracts/offer-calculator.ts:21 | the nearest integer, halves up |
| Offers.CalculateOfferBounds | src/contracts/offer-calculator.ts:19-34 | offer between zero and the debt; installments at least one, within the maximum, and one or at least the minimum each |
| Offers.CalculateOfferExactly | src/contracts/offer-calculator.ts:19-34 | the discount clamped to 0..100%, the value it leaves to the nearest cent, the first due day with its default, and the most installments the minimum allows |
| Bands.NeighboursIffAcceptable | src/creditors/creditors.service.ts:371-389 | on a sorted list, comparing neighbours decides well-formedness and pairwise disjointness |
| Bands.ValidateBands | src/creditors/creditors.service.ts:366-390 | accepts a list if and only if all ranges are well formed and no age falls into two of them |
| Bands.LookupsAgree | src/contracts/contracts.service.ts:988-993 | on an accepted list the ascending find and the descending LIMIT 1 return the one covering band for every age |
| Pricing.QuotesOrdered | src/contracts/contracts.service.ts:165-183 | creation, both recalculations and the explicit edit give commission <= repasse <= offer <= updated value |
| Pricing.CommissionWithinOneCent | src/contracts/contracts.service.ts:179-182 | the commission stored at creation is within one cent of the recalculated one |
| Pricing.RequoteInstallments | src/contracts/contracts.service.ts:1003-1007 | the installment count is one or fits the minimum, and never exceeds the maximum |
| Pricing.CreationPriced | src/contracts/contracts.service.ts:156-183 | creation: the ceiling is the covering band's installment or cash percentage or the flat discount, the offer discount the lower of strategy and ceiling; values and commission to the nearest cent |
| Pricing.RecalculationPriced | src/contracts/contracts.service.ts:987-1024 | the same for one recalculated contract, at today's age, with the commission on the rounded repasse and the most installments; no other column changes |
| Pricing.WalletPriced | src/wallets/wallets.service.ts:313-380 | the same for every live, active, unpaid row of the wallet at its stored age; every other row stays |
| Pricing.EditPriced | src/contracts/contracts.service.ts:921-950 | the edit is refused if and only if its discount exceeds the ceiling, and otherwise is priced with it |
| Pricing.DiscountsAgreeExactly | src/wallets/wallets.service.ts:317-344 | the SQL and the TypeScript discounts price alike if and only if no NULL strategy shows |
| Pricing.RowsAgreeExactly | src/wallets/wallets.service.ts:313-380 | one row of the set-based update is the single-contract recalculation if and only if the aging is fresh and no NULL strategy shows |
| Pricing.RecalculateOneByOne | src/wallets/wallets.service.ts:299-350 | recalculating contract by contract gives the set-based table; ineligible rows stay as they are |
| CommercialRules.Tables.ValidateStrategy | src/wallets/wallets.service.ts:446-472 | accepts exactly disjoint bands that match a creditor range and stay at or below its ceiling |
| CommercialRules.Tables.CreateWallet | src/wallets/wallets.service.ts:61-101 | refused, it changes nothing; accepted, it adds a wallet with the creditor's ranges, each percentage the lower of flat discount and ceiling, touches nothing else and keeps the invariant |
| CommercialRules.Tables.UpdateWallet | src/wallets/wallets.service.ts:243-297 | the stored tables after a wallet edit, unchanged when the bands are rejected; the invariant is kept |
| CommercialRules.Tables.ReplaceRules | src/creditors/creditors.service.ts:187-250 | the stored tables after a rule replacement, every live wallet of the creditor rebuilt and no other; the invariant is kept |
| CommercialRules.UpdateStores | src/wallets/wallets.service.ts:243-297 | an edit is accepted if and only if the wallet is live and the bands are within the ceilings; it stores the rules and each band's range and percentages, and nothing else |
| CommercialRules.ReplaceStores | src/creditors/creditors.service.ts:187-250 | a replacement is accepted if and only if the creditor is live and the bands are acceptable; bands and commission are stored and only bands of its live wallets change |
| CommercialRules.ReplacementConserves | src/creditors/creditors.service.ts:212-234 | a strategy whose range continues and fits the new ceiling is carried over as it is |
| CommercialRules.ReplacementClips | src/creditors/creditors.service.ts:213-234 | a continuing range keeps each percentage that fits and is cut to the new ceiling where it does not; a new range starts with the flat discount under the ceiling |
| CommercialRules.RunKeeps | src/creditors/creditors.service.ts:187-250 | every request sequence keeps wallet bands on creditor ranges, at or below the ceiling |
| CommercialRules.NeverClipped | src/contracts/contracts.service.ts:159-171 | in every reachable database a found strategy is never clipped by the ceiling, for every wallet and age |
| CommercialRules.RecalculationsAgree | src/wallets/wallets.service.ts:313-380 | in every reachable database both recalculations of a freshly aged row agree |
| SerasaRemoval.StepKeeps | src/providers/processors/operation.processor.ts:235-289 | every step but an untimely claim keeps the item invariant and uses up the measure of each item it changes |
| SerasaRemoval.PromiseExactly | src/providers/operations.service.ts:538-589 | over all runs, overlapping passes included, the worker can at no point send a sixth request or send within the backoff if and only if no pass claims an item that is not due on its own row |
| SerasaRemoval.StepTimelyExactly | src/providers/operations.service.ts:561-589 | a claim is timely if and only if no timely continuation lets the worker send such a request |
| SerasaRemoval.OneAtATimeIsTimely | src/providers/operations.service.ts:537-563 | passes that do not overlap never claim untimely |
| SerasaRemoval.RemovalSafety | src/providers/operations.service.ts:538-589 | in every timely run: at most five requests, each resend behind an accepted one and spaced by 30, 60, 120, 240 minutes; an item waits only on an accepted request; its contract is FAILED if and only if it failed with its last request refused or all five accepted, and REMOVING otherwise |
| SerasaRemoval.ChangesBounded | src/providers/operations.service.ts:561-589 | no timely run changes an item more often than its measure, cancellations under way included |
| SerasaRemoval.DrivenToFailed | src/providers/operations.service.ts:566-576 | from every state of runs without overlap, with or without an open pass, an item that is not stranded can be driven to the timeout by its own jobs and without overlap |
| SerasaRemoval.TimesOutExactly | src/providers/operations.service.ts:566-576 | by its own jobs an item reaches the timeout if and only if it is not stranded: not failed otherwise with no request out, and not pending without a job |
| SerasaRemoval.ClaimedWhileCancelled | src/providers/operations.service.ts:788-803 | a schedule that leaves an item pending without a job: claimed between the two writes of a cancellation |
| SerasaRemoval.FailedForeverExactly | src/providers/operations.service.ts:775-803 | a failed item and its contract stay as they are in every timely continuation if and only if no request of the item is out |
| SerasaRemoval.RemovingForever | src/providers/processors/operation.processor.ts:100-119 | a worker exception leaves the contract in REMOVING in every timely continuation |
| SerasaRemoval.SixthRequest | src/providers/operations.service.ts:578-587 | a full schedule from the empty database in which two overlapping passes lead to a sixth request |
| TokenCache.StepKeepsExactly | src/payments/adapters/banco-do-brasil/bb-auth.service.ts:118-171 | a step keeps the in-flight map the inverse of the outstanding requests if and only if it is not a forced refresh of a key whose request is out |
| TokenCache.RunKeepsExactly | src/payments/adapters/banco-do-brasil/bb-auth.service.ts:118-171 | over every run, forced refreshes included, that holds at every point if and only if no forced refresh hits a key whose request is out |
| TokenCache.OneRequestPerKey | src/payments/adapters/banco-do-brasil/bb-auth.service.ts:145-156 | at most one outstanding request per key in every such run |
| TokenCache.CallersShareOutcome | src/payments/adapters/banco-do-brasil/bb-auth.service.ts:102-112 | a call during a request starts nothing, and all who waited get that request's answer |
| TokenCache.AnswersAgree | src/payments/adapters/banco-do-brasil/bb-auth.service.ts:232-234 | calls answered by one request agree, and a token from the cache has more than 60 s left |
| TokenCache.ForcedRefreshDuplicates | src/payments/adapters/banco-do-brasil/bb-auth.service.ts:118-125 | a forced refresh leads to duplicate and then unregistered requests |
| TokenCache.ForcedRefreshExactly | src/payments/adapters/banco-do-brasil/bb-auth.service.ts:118-125 | a forced refresh drops the key's token, starts one request and touches no other key |
| TokenCache.AuthService.GetAccessToken | src/payments/adapters/banco-do-brasil/bb-auth.service.ts:102-112 | the caller gets a token with more than 60 s left, or waits for the one request out for its key, which is a new one only if there was none; the invariant is kept |
| TokenCache.AuthService.OnReply | src/payments/adapters/banco-do-brasil/bb-auth.service.ts:158-167 | exactly the calls that waited for the request get its answer, nobody waits for its key any more and the key is free; the invariant is kept |
| BulkCancel.Resolve | src/providers/creditor-removal.service.ts:61-82 | matched + unmatched + blocked + duplicate is the number of rows; the matched ids are distinct, exactly the cancellable contracts of the file, in the order of their first rows |
| BulkCancel.ByKeyExactly | src/providers/creditor-removal.service.ts:72 | a row finds the last contract with its key, and none if there is none |
| BulkCancel.Batch.Apply | src/providers/creditor-removal.service.ts:132-149 | the cancelled contracts are exactly the first cancelledCount ids, none twice, and every queued removal is counted; COMPLETED means all of them and that nothing threw; FAILED means a call or a progress write threw, possibly behind the last cancellation |
| BulkCancel.Batch.WritesExactly | src/providers/creditor-removal.service.ts:142 | progress is written behind every 25th contract and behind the last one |
| BulkCancel.Retry | src/providers/creditor-removal.service.ts:109 | the same across any number of failed attempts |
| CsvRow.ParseRow | src/imports/processors/application.processor.ts:686-709 | the loop computes the parsing machine |
| CsvRow.FieldRoundTrip | src/contracts/contracts.controller.ts:87-90 | a printed field is read back as the field, whatever it contains |
| CsvRow.RoundTripExactly | src/contracts/contracts.controller.ts:141 | printing and parsing a row is the identity if and only if the row is not empty |
| CsvRow.PrintsAlikeExactly | src/contracts/contracts.controller.ts:87-90 | two rows print alike if and only if they are equal, or are the empty row and the row of one empty field |
| CsvRow.EscapeExactly | src/contracts/contracts.controller.ts:87-90 | a field is quoted, its quotes doubled, if and only if it holds a quote, a semicolon or a line break |
| CsvRow.SplitsAtDelimiter | src/imports/processors/application.processor.ts:686-709 | unquoted text is split at whatever delimiter the parser is given, and nowhere else |
| CurrencyText.LayoutsAgree | src/imports/utils/import-line.util.ts:62-85 | the Brazilian and the international layout of every amount normalise to the same plain decimal |
| CurrencyText.PlainValue | src/imports/utils/import-line.util.ts:75-81 | the plain decimal's digits give the amount back |
| CurrencyText.NormalizeIdempotent | src/imports/utils/import-line.util.ts:67-85 | normalising twice is normalising once, on every input |
| CurrencyText.NormalizeExactly | src/imports/utils/import-line.util.ts:67-85 | every input, by its numeric characters: up to two behind the last separator are decimals, otherwise all separators go; text without any stays |
| ImportLine.NormalizeImportLine | src/imports/utils/import-line.util.ts:130-195 | the statements over the dictionary compute the line normalisation |
| ImportLine.NormalizeIsNormal | src/imports/utils/import-line.util.ts:133-193 | the result obeys every field's rule, and value and date pairs agree |
| ImportLine.NormalizeIdempotent | src/imports/utils/import-line.util.ts:130-195 | normalising a line twice is normalising it once, on every input |
| ImportLine.NormalizeExactly | src/imports/utils/import-line.util.ts:130-195 | every column by its rule; a filled due date is the debt date, or else a filled debt date the due date; an unfilled updated value takes the original one; nothing else comes or goes |
| ImportLine.SlashDatesRead | src/imports/utils/import-line.util.ts:154-156 | day/month/year becomes year-month-day |
| ImportLine.CompactDatesRead | src/imports/utils/import-line.util.ts:152-153 | so does a compact date |
| ImportLine.SerialsRead | src/imports/utils/import-line.util.ts:157-163 | spreadsheet serials of plausible days are rendered, other short numbers dropped |
| ImportLine.DocumentsRead | src/imports/utils/import-line.util.ts:136-147 | letters and digits in capitals, less the zero that pads a 14-digit document to 15 |
| ImportLine.DebtTypesRead | src/imports/utils/import-line.util.ts:181-193 | capitals, and the synonyms of three sectors |

## Left out

- Pricing.RowsAgreeExactly: for a positive minimum installment, as the request validators require; the SQL divides by it.
- SettlementService.Store.RefreshProjection: does not model the paymentStatus flag, the agreed amount and the follow-up removal, which depend on which charge was paid last.
- Restarts of runs that abort over contracts with legacy deduplication keys: aborting runs are decided only where contracts hold the keys of their identities (`ImportKeys.KeyedRestartExactly`).
- Manual charge synchronisation (src/payments/payment-charges.service.ts:762-772) writes without the version and is not a step of the race; neither is a concurrent projection refresh.
- Payment events, job counters, interactions and audit logs: after a lost lock the job still records a transition, so they are no history.
- Totals in runs that mix job and webhook settlements: the two use different external ids for one payment.
- Plain contract PATCH: it may change the due date or re-price flat, outside the identity and pricing invariants.
- Concurrent writers of the contract table and of the commercial rules: the runs there are sequential.
- Webhook confirmations of removals, installment events and agreement projections.
- Operation status roll-up after a batch; inclusion operations at Serasa; several removal operations of one contract; more than one worker; database failures between a claim and its queued job, or between an item and its contract.
- Hard crashes inside the bulk cancellation, or a failing write of the catch block, which may lose up to 25 counted rows; how one cancellation queues its removal.
- Floating point, time zones, XLSX parsing, delimiter detection and splitting a file into rows (which breaks quoted line breaks).
- Unicode case folding and blanks in imported text: ASCII here; header-to-column mapping.
- HTTP controllers, validators beyond the ranges used, authentication, search, reports and all foreign services.
