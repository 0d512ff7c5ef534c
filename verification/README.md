# Money-keeping core of the yield platform, in Dafny

Clients of the platform open vaults. End users deposit into them and receive shares; a growth index, scaled
by 1e18, turns shares back into money; scheduled jobs raise the index; operations staff complete deposits and
withdrawals in batches. This project models the parts of the platform that keep the money and proves what they
keep: over whole runs, under the rounding the code actually performs, and with the failures it leaves half done.

Where the code falls short of what its documentation or tests promise, the model follows the code. The shortfall is
then a theorem of its own: the exact condition under which the promise holds, or a concrete input on which it fails.

## Layout

| file | what it models |
|---|---|
| Numbers, Sums | division and rounding as the number libraries do them; sums over lists and tables |
| VaultAccounting | shares, value, weighted index, yield and index growth of `vault-accounting.utils.ts` |
| DollarCostAveraging | the weighted entry index over a whole deposit history, and its worth beside shares |
| VaultRows | a `client_vaults` row and its queries with their CHECK constraints; jobs over many rows (`RowBatches`) |
| BalanceVerifier, IndexUpdater | on-chain balance reads and the periodic index updater |
| GuardedIndex | the guarded index update and the user value of `vault-index.service.ts` |
| VaultUsecase | the two API calls that write an index or a stake: entered yield, and a balance read from the protocols |
| VaultSolvency | whether a vault's stake covers its shares, and what each of the six ways to write its index or stake does to that |
| Orders, DepositLifecycle | deposits, vault totals and user shares as one transition system, with those writers and with calls the database cuts short |
| DepositRuns | what steps and whole runs of that system keep: sound books, solvency, debt and displayed claims |
| DepositEffects | what one call, cut call, withdrawal or write does to the books, figure by figure |
| BrokenRuns | concrete runs of that system on which an expected property fails |
| GrowthIndex | a client's AUM-weighted growth index and historical APY |
| IndexCron | the daily accrual job |
| Batches, DepositBatch, WithdrawalBatch | the two batch jobs and what they share |
| RevenueSplit, ProportionalWithdrawal | the two splits |
| Backfill | the chunked block scan with deduplication |
| ClientLedger | a client's available and reserved balance |

A use case, service or job that changes rows is a class over its tables. Each of its methods is proved against a
function of the old state, or against the property itself; invariants over runs are lemmas about those functions.

## Assumptions

- Amounts are whole numbers of the smallest unit kept: base units, 10^-6 of a currency, cents, or 10^-18 for recorded
  yield. JavaScript numbers and `decimal.js` values are exact rationals; `toFixed` on either and `Math.round` round
  half up. `BigNumber` is configured for 36 places, rounding down, and `dividedBy` is a floor at the 36th place.
- Queries are those of `database/queries`, with the CHECK constraints of
  `database/migrations/000001_complete_schema.up.sql`. A guarded UPDATE that matches no row is a silent no-op. A
  violated CHECK throws and leaves the row alone. No use case opens a transaction, so an earlier write stays.
- `addPendingDeposit`, `movePendingToStaked`, `addShares` and `reducePendingDeposit` are called by
  `packages/core/usecase/deposit.usecase.ts` with a client, a currency and an amount; the vault repository has no
  methods of that form. They do what their names and the schema comments say, and the CHECKs apply.
  `addShares` raises the user's shares and the vault's total together. `calculateSharesForDeposit` is
  `calculateShares`; `calculateNewIndexFromDailyYield` is `calculateNewIndex`.
- A call of the deposit flow may be cut short after any number of its writes (`reached`). That the updater's daily
  growth factor is a double makes it a rational (`Rate`); `BigNumber.pow` of it is taken exactly for whole exponents.
- The batch jobs call the use cases of `packages/core/usecase/b2b`, each seen as one call that writes a row and can
  throw before and after (`Completion`). Completing a deposit looks up the order and its vault first
  (`deposit.usecase.ts:146-185`), marks the order (188-196), and then does bookkeeping that can throw, for an unknown
  end user for example (206-337). Completing a withdrawal looks up, marks and audits (`withdrawal.usecase.ts:288-308`);
  an idle balance is written and then audited (`client.usecase.ts:510-545`).
- A withdrawal reaches its router without the environment of its row (`withdrawal.usecase.ts:237-240,427-445`), so the
  router reads every withdrawal as sandbox; a deposit reaches its router as the row itself.
- No route performs a share-burning withdrawal from end to end. The withdrawal step composes `calculateSharesToBurn`,
  the staked-balance check of `handleWithdrawal` and the query `ReduceStakedBalance`.
- Rows read before a write are those the write finds; the balance sync, for one, compares with the balance it
  replaces.
- Order ids chosen by the database, failures of a service, node or database call, on-chain readings, yields and the
  existence of a custodial wallet are parameters (`Run`, `Inputs`, `Completion`, `wallets`, `updates`, `failing`,
  `aborting`, `reached`). Theorems hold for every value of them.

## Where the code and its documentation differ

- `vault-accounting.utils.test.ts:18-40` expects 1e18 times the shares that `calculateShares` mints: `SharesAtPar`.
- The updater hands the old yield total plus the new yield to a query that adds it to the column, so recorded yield
  doubles on every idle run: `YieldCountedOnce`, `IdleUpdatesDoubleYield`.
- The addresses the updater looks for to read a production vault on chain
  (`vault-index-updater.service.ts:208-217`) are no columns of the vault row
  (`packages/sqlcgen/src/gen/vault_sql.ts:13-36`). As written every production vault is given back its recorded
  balance, and every production run is an idle one. What is proved of readings, among it that a zero reading breaks
  solvency (`ReadingKeepsSolvent`, `EmptyReadingBreaksSolvency`) and that one failed read among several lowers the
  index (`MissingReadDropsIndex`), is therefore conditional: it holds once rows carry these addresses.
- The updater divides the daily yield by 1e18 after it already divided by the index, so a run that gains fewer than
  10^12 base units records nothing: `DailyYieldInOneCut`.
- `failDeposit` has no status check: `FailKeepsPendingExactly`, `FailKeepsSoundExactly`, `FailingCompletedBreaksBooks`.
- The updater's sandbox path raises its growth factor to the number of days since the last update
  (`vault-index-updater.service.ts:283`), and bignumber.js refuses a fractional exponent. The path therefore throws,
  and leaves the vault alone, unless the last update was less than 0.01 day or a whole number of days ago:
  `SandboxUpdatesExactly`. Where it does not throw, it grows the index on an unchanged stake:
  `SandboxGrowthBreaksSolvency`.
- The guarded update rounds the index half up, which can leave more claims than stake: `GuardedKeepsSolventExactly`,
  `RoundingUpBreaksSolvency`.
- Yield entered through the API is paid for by the stake it adds (`AddedYieldIsFunded`), but the call hands the old
  yield total plus the new yield to the query that adds it: `AddedYieldCountedOnce`.
- The deposit flow opens no transaction. Cut short at the wrong write it leaves books that disagree:
  `InterruptedExactly`, `HalfCreatedDepositBreaksBooks`.
- The daily job raises the index without raising the stake (`AccrualKeepsSolventExactly`, `AccrualBreaksSolvency`). It
  looks for protocol names among categories the API names otherwise (`EarnsNothingExactly`, `ApiCategoriesEarnNothing`).
- Completing a deposit of the dashboard means to keep the vault's share count, and hands it to a query that adds it,
  which doubles the count (`BookingDoublesShares`). This is conditional: the API opens every vault with zero shares
  (`client.usecase.ts:356`, `vault.usecase.ts:78`, both in `packages/core/usecase/b2b`), and it builds only the b2b
  deposit use case (`apps/b2b-api/src/server.ts:160`), so nothing live mints any and twice zero stays zero:
  `LiveSharesExactly`.
- The backfill script promises that it can be run again, but takes a new head and a new start each time. Once the head
  has moved past the lookback, a transfer that a stopped run did not reach can fall out of the range of the next run:
  `LostExactly`, `LateRerunLosesTransfer`. A failed existence check can store a transaction twice:
  `RunDistinctExactly`, `FailedCheckDuplicates`.
- The revenue comments say the end users' part stays staked; the repository passes "0" for it: `DistributionsDrift`.
- A deposit batch that crashes or finds no wallet leaves completed orders uncredited: `BatchCompleteDeposits`.
- A withdrawal batch is meant to keep environments apart; it completes sandbox and production withdrawals together and
  pays all of them from the sandbox wallet: `TakenExactly`, `WalletMatchesExactly`, `ProductionPaidFromSandbox`. It
  charges rounded cents and transfers the rounded sum: `TransferEqualsChargesExactly`, `HalfCentsAreChargedTwice`.
- `deductReserved` beyond the reserve moves nothing and is still logged: `AuditIsHonest`, `DeductedInVain`.

## Model

| member | source | states |
|---|---|---|
| VaultAccounting.ShareRoundTrip | packages/core/utils/vault-accounting.utils.ts:41-72 | shares bought and valued at one index are worth at most the amount and more than a - I/P - 1 |
| VaultAccounting.SplitDeposit | packages/core/utils/vault-accounting.utils.ts:41-53 | a deposit split into n pieces at one index mints between total - (n - 1) and total shares |
| VaultAccounting.BurnForDisplayedValue | packages/core/utils/vault-accounting.utils.ts:220-223 | withdrawing the displayed value of s shares burns at most s |
| VaultAccounting.YieldBesideShares | packages/core/utils/vault-accounting.utils.ts:131-152 | deposit plus yield is the larger of the deposit and its grown value; the grown value is never below that of the shares bought and above it by less than one unit plus one share, also after the index fell |
| VaultAccounting.SharesAtPar | packages/core/utils/vault-accounting.utils.ts:41-53 | at index 1.0 one base unit buys one share, against the expectation of the unit tests |
| VaultAccounting.NewIndexBounds | packages/core/utils/vault-accounting.utils.ts:200-209 | for a percentage of any sign and any number of decimals the index moves in the direction of the yield and differs from the exact one by less than 1 + I/10^36 |
| VaultAccounting.DailyYieldBounds | packages/core/utils/vault-accounting.utils.ts:200-209 | with the six decimals the daily job prints, a yield never lowers the index and drops less than one unit |
| DollarCostAveraging.FoldErrorBound | packages/core/utils/vault-accounting.utils.ts:94-117 | folding the weighted index over any deposit history loses between nothing and the sum of the running totals, strictly |
| DollarCostAveraging.EntryIndexNearMean | packages/core/utils/vault-accounting.utils.ts:94-117 | after n deposits the stored entry index is at most the exact mean and less than n below it |
| DollarCostAveraging.EntryIndexInRange | packages/core/utils/vault-accounting.utils.ts:94-117 | the stored entry index never leaves the range of the indexes at which the user entered |
| DollarCostAveraging.AmountSquared | packages/core/utils/vault-accounting.utils.ts:105-116 | weighted Cauchy-Schwarz over the history: D squared is at most (sum of a*I)(sum of a/I), equal exactly when all indexes are one |
| DollarCostAveraging.AveragingNeverOverpays | packages/core/utils/vault-accounting.utils.ts:131-152 | in exact rationals, valuing all deposits at their mean entry index never credits more than their shares, and the same exactly when all entered at one index |
| DollarCostAveraging.RoundedAveragingBounded | packages/core/utils/vault-accounting.utils.ts:94-152 | with every floor of the code, deposit plus yield over n deposits exceeds the value of the shares minted for them by no more than n shares and n parts in the entry index |
| RowBatches.Isolation | packages/core/service/vault-index-updater.service.ts:102-109 | in a batch without repeats each row ends as its own update alone would leave it; a throwing or unlisted row is untouched |
| IndexUpdater.VaultIndexUpdaterService.UpdateVaultIndex | packages/core/service/vault-index-updater.service.ts:120-180 | a missing vault is skipped, a throw before the write changes nothing, a failing snapshot throws after the write; otherwise the row and the snapshot, with its daily yield and APY, follow its view: a reading, the recorded balance, or sandbox growth over the time elapsed |
| IndexUpdater.SandboxUpdatesExactly | packages/core/service/vault-index-updater.service.ts:265-289 | with a factor of at least one and a working database, a sandbox vault is updated exactly when its last update was less than 0.01 day or a whole number of days ago; any other exponent throws |
| IndexUpdater.SandboxSplits | packages/core/service/vault-index-updater.service.ts:278-286 | updating after n and again after m days never gives more than one update after n + m, and falls short of it by less than one unit and what one unit grows in m days |
| IndexUpdater.SandboxOneDay | packages/core/service/vault-index-updater.service.ts:278-286 | one day multiplies the index by the daily factor, floored, and no day leaves it; with the row above this fixes any number of days |
| IndexUpdater.SandboxNeverFalls | packages/core/service/vault-index-updater.service.ts:278-286 | a daily factor of at least one never lowers the index |
| IndexUpdater.VaultIndexUpdaterService.UpdateAllVaultIndexes | packages/core/service/vault-index-updater.service.ts:95-115 | the loop that catches exceptions is the fold of lone updates over the list, with one snapshot for each update that got that far; a failing list throws and changes nothing |
| IndexUpdater.BatchIsolation | packages/core/service/vault-index-updater.service.ts:95-115 | a listed vault ends as its lone update leaves it, or unchanged if that throws, whatever the others do |
| IndexUpdater.TwoStageRounding | packages/core/service/vault-index-updater.service.ts:239-256 | dividing first and multiplying after gives floor(I*cur/prev) or one less for I below 10^36, never more |
| IndexUpdater.BalanceIndexExactly | packages/core/service/vault-index-updater.service.ts:239-256 | to the unit: growth floored at 36 places, index floored at whole units, and an empty reading or record leaves it |
| IndexUpdater.ReadingWritesIndex | packages/core/service/vault-index-updater.service.ts:130-170 | and that is the index an update from a reading writes, up or down |
| IndexUpdater.ReadingIsWritten | packages/core/service/vault-index-updater.service.ts:130-170 | a reading not below the record is always written and never lowers the index |
| IndexUpdater.ColumnRise | packages/core/service/vault-index-updater.service.ts:148-170 | a written update sets index and stake, and adds to the yield column the old total plus the yield of the old stake at the index's growth, in whole units of the sixth decimal |
| IndexUpdater.DailyApyNear | packages/core/service/vault-index-updater.service.ts:293-310 | the APY recorded is growth times 365 times 100 within one unit of the fourth decimal and what the 36th place hides, for a gain or a loss |
| IndexUpdater.SnapshotExactly | packages/core/service/vault-index-updater.service.ts:148-180 | a snapshot is taken exactly when the update went through and its insert did, and holds the index written, the yield of the old stake and the APY of the growth, each within its rounding |
| IndexUpdater.IndexNeverOutgrowsBalance | packages/core/service/vault-index-updater.service.ts:130-170 | over any run of positive readings I_n * V_0 is at most I_0 * V_n |
| IndexUpdater.AgreesWithVerifier | packages/core/service/vault-balance-verifier.service.ts:296-310 | the updater's formula and the verifier's agree exactly unless a nonzero vault is read as empty |
| IndexUpdater.MissingReadDropsIndex | packages/core/service/vault-balance-verifier.service.ts:241-276 | a reading no larger than the record keeps the index exactly when it is complete or zero: one failed read among several lowers it |
| IndexUpdater.YieldCountedOnce | packages/core/service/vault-index-updater.service.ts:159-170 | the yield column is raised by the new yield alone exactly when it held less than one unit of the sixth decimal before a gain, or nothing before a loss |
| IndexUpdater.IdleUpdatesDoubleYield | packages/core/service/vault-index-updater.service.ts:159-170 | n updates that find no growth multiply the recorded yield by 2^n, but for what it holds below the sixth decimal |
| IndexUpdater.DailyYieldInOneCut | packages/core/service/vault-index-updater.service.ts:148-154 | for a gain or a loss, the three cuts are one division by index times 10^12, zero exactly below 10^12 base units |
| BalanceVerifier.GetTotalStakedBalance | packages/core/service/vault-balance-verifier.service.ts:225-283 | whichever reads fail, the total is the sum of the breakdown and the breakdown holds exactly the answers |
| VaultUsecase.VaultUseCase.UpdateIndexWithYield | packages/core/usecase/b2b/vault.usecase.ts:144-170 | link: exactly an unknown vault and an empty one are refused, each with its own error, and otherwise the one row becomes that of AddYield, whose index, stake and yield the three lemmas below pin, or a CHECK throws and no row changes |
| VaultUsecase.VaultUseCase.UpdateOnChainBalances | packages/core/usecase/b2b/vault.usecase.ts:228-233 | link: one existing row becomes that of SyncBalance, which the solvency lemmas speak of |
| VaultUsecase.AddedYieldIsFunded | packages/core/usecase/b2b/vault.usecase.ts:155-170 | a written yield of either sign never raises the index above the growth of the stake it is added to |
| VaultUsecase.AddedYieldRaisesIndex | packages/core/usecase/b2b/vault.usecase.ts:155-162 | nor does a written yield of either sign leave it more than a unit, and the part of the growth factor beyond 18 decimals, below that growth: I*(T + y)*P is under (J + 1)*T*P + I*T |
| VaultUsecase.AddedYieldCountedOnce | packages/core/usecase/b2b/vault.usecase.ts:166-170 | the column becomes twice its old total plus the yield, and so records the yield alone exactly when it held nothing |
| VaultUsecase.AddedYieldIsWritten | packages/core/usecase/b2b/vault.usecase.ts:155-170 | a yield that is not negative is written for every vault with a stake, and never lowers the index |
| VaultUsecase.SyncsRecordRises | apps/b2b-api/src/router/defi-protocol.router.ts:733-742 | over any run of syncs the stake is the last balance, index and shares stay, and the yield column rises by the net change of the stake and all its falls: losses are never taken back |
| DepositLifecycle.DepositUsecase.CreateDeposit | packages/core/usecase/deposit.usecase.ts:63-128 | link: the writes of the method make the books and reply of Create, of which the lemmas below speak, or of CreatingUpTo when the database fails after any of them; a rejected insert leaves the vault opened before it |
| DepositLifecycle.DepositUsecase.CompleteDeposit | packages/core/usecase/deposit.usecase.ts:133-199 | link: the writes of the method make the books and reply of Complete, or of CompletingUpTo when the database fails after any of them |
| DepositLifecycle.DepositUsecase.FailDeposit | packages/core/usecase/deposit.usecase.ts:211-236 | link: the writes of the method make the books and reply of Fail, whatever the deposit's status, or of FailingUpTo when the database fails after any of them |
| DepositEffects.CompletedExactly | packages/core/usecase/deposit.usecase.ts:133-199 | a completion goes through exactly for a pending deposit of a known vault whose pending balance covers it, and otherwise gives the error of the guard that stops it; it credits the depositor the one share count s with s*I at most amount*10^18 and (s + 1)*I above it, moves the amount from pending to staked, and no other holder, vault, deposit or figure moves |
| DepositEffects.BuysOneCount | packages/core/utils/vault-accounting.utils.ts:41-53 | these two bounds leave one share count |
| DepositEffects.CreatedExactly | packages/core/usecase/deposit.usecase.ts:63-128 | a creation goes through exactly for an active client, a new order and a positive amount, books that deposit and adds its amount to one pending balance; a missing vault is opened empty at 1.0, also when the insert is refused; nothing else moves |
| DepositEffects.FailedExactly | packages/core/usecase/deposit.usecase.ts:211-236 | a failure always marks the deposit, and takes its amount out of one pending balance and is logged exactly when that covers it or there is no vault |
| DepositEffects.WithdrawnExactly | packages/core/utils/vault-accounting.utils.ts:220-223 | a withdrawal goes through exactly when stake, user's and vault's shares cover it; it burns the whole shares of the amount, by the same two bounds, of that user and that vault only |
| DepositEffects.WrittenExactly | packages/core/repository/postgres/vault.repository.ts:128-170 | a write replaces the row of its one vault and leaves holders, deposits and all other vaults |
| DepositEffects.CompletingCutExactly | packages/core/usecase/deposit.usecase.ts:160-198 | cut after any number of writes, the status is as after the whole call from the first on, pending and staked from the second, shares of user and vault from the third, and all else as before |
| DepositEffects.CreatingCutExactly | packages/core/usecase/deposit.usecase.ts:77-110 | the same for a creation: the opened vault, the deposit, its pending balance |
| DepositEffects.FailingCutExactly | packages/core/usecase/deposit.usecase.ts:211-236 | the same for a failure: the status, the pending balance |
| DepositEffects.CutReplies | packages/core/usecase/deposit.usecase.ts:63-236 | a cut call replies as the whole one where that ends before its next write, and with the database's failure otherwise |
| DepositRuns.RunKeepsBooksSound | packages/core/usecase/deposit.usecase.ts:63-236 | in every state a careful run reaches, pending balances, shares and mints agree and every vault is solvent up to one share a withdrawal |
| DepositRuns.SoundThroughoutExactly | packages/core/usecase/deposit.usecase.ts:63-236 | the books are sound after every step of a run exactly when each step is careful: it fails a deposit only where that is harmless, its write is covered, and the database does not cut it between writes that belong together |
| DepositRuns.StepKeepsSoundExactly | packages/core/usecase/deposit.usecase.ts:63-236 | from sound books each step, whether a call, a cut call, a write or a withdrawal, leads to sound books exactly when it is careful |
| DepositRuns.AnyRunKeepsHolders | packages/core/usecase/deposit.usecase.ts:63-236 | over every run, however deposits are failed, vaults written and calls cut short, holders' shares add up to each vault's total and no deposit mints twice |
| DepositRuns.AnyRunKeepsShares | packages/core/usecase/deposit.usecase.ts:63-236 | and over every run that cuts no completion short, shares also equal mints less burns of the audit trail |
| DepositRuns.RunWithinDebt | packages/core/usecase/b2b/vault.usecase.ts:144-250 | over every run, with the updater's two paths, the guarded update, the daily accrual, entered yield and the balance sync all writing and without any condition on it, each vault is solvent up to one share a withdrawal and the debt of its writes |
| DepositRuns.FundedWritesOweNothing | packages/core/service/vault-index-updater.service.ts:239-256 | the updater's production path, while it reads no vault as empty, and entered yield leave no debt |
| DepositRuns.RunClaimsBounded | packages/core/utils/vault-accounting.utils.ts:64-72 | after every run from the empty books, all holders of a vault together are shown at most the stake, one share's worth per withdrawal and the debt of its writes |
| DepositRuns.InterruptedExactly | packages/core/usecase/deposit.usecase.ts:63-236 | a creation, completion or failure that the database cuts short leaves sound books exactly when it is not cut between a new deposit and its pending balance, after a completion began, or between the status of a pending or completed deposit and its balance |
| DepositRuns.StatusIsFinal | packages/core/usecase/deposit.usecase.ts:140-165 | a deposit that left the pending state never changes again in a run that fails only pending deposits |
| DepositLifecycle.StepKeepsPending | packages/core/usecase/deposit.usecase.ts:90-110 | every careful step keeps each pending balance equal to the sum of its vault's pending deposits |
| DepositLifecycle.CompleteKeepsPending | packages/core/usecase/deposit.usecase.ts:160-172 | with matching books a completion keeps them so and can never stop halfway at the balance CHECK |
| DepositLifecycle.StepKeepsHolders | packages/core/usecase/deposit.usecase.ts:154-180 | every step, cut short anywhere, keeps a vault's total equal to its holders' shares |
| DepositLifecycle.StepKeepsShares | packages/core/usecase/deposit.usecase.ts:154-180 | every step but a completion cut short keeps a vault's total equal to its holders' shares and to mints less burns |
| DepositLifecycle.StepMintsAtMostOnce | packages/core/usecase/deposit.usecase.ts:140-180 | every step keeps it so that no deposit mints twice and no pending one has minted |
| DepositLifecycle.StepKeepsMints | packages/core/usecase/deposit.usecase.ts:140-180 | every careful step keeps it so that exactly the completed deposits have minted |
| DepositLifecycle.FailKeepsPendingExactly | packages/core/usecase/deposit.usecase.ts:211-224 | failing a deposit keeps the pending balance right exactly when it was pending or the CHECK refuses the deduction |
| DepositRuns.FailKeepsSoundExactly | packages/core/usecase/deposit.usecase.ts:211-224 | failing a deposit leaves sound books exactly when it was pending, or was not completed and the deduction is refused |
| DepositRuns.StartIsSound | packages/core/usecase/deposit.usecase.ts:77-87 | the empty books are sound |
| VaultSolvency.DepositKeepsSolvent | packages/core/utils/vault-accounting.utils.ts:41-53 | minting rounded down keeps (S - k)*I at most T*P, or at most a debt above it |
| VaultSolvency.WithdrawalKeepsSolvent | packages/core/utils/vault-accounting.utils.ts:220-223 | burning rounded down costs the vault at most one share: k becomes k + 1 and the debt stays |
| VaultSolvency.ReadingKeepsSolvent | packages/core/service/vault-index-updater.service.ts:165-170 | an index update of a solvent vault leaves it solvent exactly when the reading was positive or no share was outstanding beyond k |
| VaultSolvency.UpdaterWrites | packages/core/service/vault-index-updater.service.ts:120-170 | an update writes the row of a reading, of the recorded balance, or of the index grown over whole days, as its view says, and throws first exactly when a write fails or the growth has a fractional exponent |
| VaultSolvency.WriterSets | packages/core/service/vault-index-updater.service.ts:165-170 | each of the six writes sets the stake and index it should: a reading, value or synced balance becomes the stake, entered yield is added to it, growth and accrual leave it |
| VaultSolvency.WriterKeepsWithin | packages/core/service/vault-index.service.ts:173-203 | the debt each of the six writes leaves: an older one grows with the vault's value, rounding up adds half an index unit a share, a grown index or an accrual what the shares gain, an empty reading the stake, a sync what it takes from the stake |
| VaultSolvency.CoveredExactly | packages/core/service/vault-index.service.ts:173-203 | each of the six writes leaves a solvent vault solvent exactly when, seen before it, the vault is not read as empty, the grown index, the day's gain or the rounding up fits in the slack, or the synced balance covers the shares; entered yield always does |
| VaultSolvency.LiveSharesExactly | packages/core/usecase/b2b/deposit.usecase.ts:299-307 | over any run of the calls the running API makes, n booked deposits multiply a vault's share count by 2^n and nothing else moves it; from the zero shares of an opened vault it stays zero and the vault solvent, and it is kept exactly then or when nothing was booked |
| VaultSolvency.BookedAmountsStay | packages/core/usecase/b2b/deposit.usecase.ts:299-307 | between two index or stake writes, pending and staked money together rise by exactly the amounts booked, whatever part of them was marked as staked |
| DepositRuns.StepKeepsSolventExactly | packages/core/service/vault-index-updater.service.ts:239-256 | from solvent books every step leads to solvent ones, up to one share a withdrawal, exactly when the write it makes is covered |
| DepositRuns.ClaimsBounded | packages/core/utils/vault-accounting.utils.ts:64-72 | in books whose shares match, all holders of a vault are shown at most the stake, one share's worth per withdrawal and the vault's debt |
| VaultSolvency.WithdrawalSlack | packages/core/utils/vault-accounting.utils.ts:220-223 | without the allowance, a withdrawal keeps S*I at most T*P exactly when the remainder its burn drops fits in the slack |
| BrokenRuns.PlainSolvencyFails | packages/core/utils/vault-accounting.utils.ts:220-223 | a run from the empty books (create, complete, guarded update, withdraw) after which S*I exceeds T*P |
| BrokenRuns.FailingCompletedBreaksBooks | packages/core/usecase/deposit.usecase.ts:211-224 | a run (create two deposits, complete one, fail it) after which the pending balance is not that of the pending deposit |
| BrokenRuns.AccrualBreaksSolvency | apps/b2b-api/src/cron/index-update.cron.ts:117-126 | a run (create and complete one unit, accrue a millionth of a percent) after which the vault is not solvent |
| BrokenRuns.EmptyReadingBreaksSolvency | packages/core/service/vault-index-updater.service.ts:165-170 | a run (create and complete one unit, read the vault as empty) after which the vault is not solvent |
| BrokenRuns.RoundingUpBreaksSolvency | packages/core/service/vault-index.service.ts:173-203 | a run (create and complete three units, guarded update to five) after which the vault is not solvent |
| BrokenRuns.GrownSandboxRow | packages/core/service/vault-index-updater.service.ts:137-147 | the updater's own sandbox update of that vault, a whole day after the last at a factor of 1.0001, writes that index and leaves the stake |
| BrokenRuns.SandboxGrowthBreaksSolvency | packages/core/service/vault-index-updater.service.ts:137-147 | a run (create and complete one unit, write that index) after which the vault is not solvent |
| BrokenRuns.HalfCreatedDepositBreaksBooks | packages/core/usecase/deposit.usecase.ts:90-106 | a run (one creation cut short after its insert) after which a pending deposit is in no pending balance |
| BrokenRuns.BookingDoublesShares | packages/core/usecase/b2b/deposit.usecase.ts:299-307 | a vault with one share whose booked deposit makes it count two, while its users hold one |
| GuardedIndex.VaultIndexService.UpdateVaultIndex | packages/core/service/vault-index.service.ts:148-217 | either the row is replaced by its update, or the call throws, with the error of the first failing guard, and no row changes |
| GuardedIndex.GuardedUpdateBounds | packages/core/service/vault-index.service.ts:166-203 | an update succeeds exactly when the value lies between the recorded one and its double; the index then lies in [I, 2I] and the recorded yield is the gain |
| GuardedIndex.GuardedIndexNearest | packages/core/service/vault-index.service.ts:173-203 | the index written is the nearest unit to I*V/T, halves up |
| GuardedIndex.RefusedExactly | packages/core/service/vault-index.service.ts:160-196 | no balance, a value below the record and one above its double are refused, each with its own error, and nothing else is |
| GuardedIndex.RunBounds | packages/core/service/vault-index.service.ts:180-203 | over n successes the index is in [I_0, 2^n * I_0] and the recorded yields telescope to V_n - V_0 |
| GuardedIndex.IndexFollowsValue | packages/core/service/vault-index.service.ts:173-203 | over n successes half-up rounding moves I_n/I_0 from V_n/V_0 by at most n half units either way |
| GuardedIndex.GuardedRunNearSolvent | packages/core/service/vault-index.service.ts:173-203 | rounding the index up costs a solvent vault at most half an index unit per share and update, over a whole run |
| GuardedIndex.GuardedKeepsSolventExactly | packages/core/service/vault-index.service.ts:173-203 | an update of a solvent vault leaves it solvent exactly when no share is outstanding, the index is not rounded up, or s*(t - I*V mod t) is at most V*(t*P - s*I) for s shares, stake t and new value V |
| GuardedIndex.GuardedUpdateNearSolvent | packages/core/service/vault-index.service.ts:173-203 | how far it can fail to: one update costs a solvent vault at most half an index unit per share |
| GuardedIndex.UserValueNeverFalls | packages/core/service/vault-index.service.ts:277-288 | no run of updates lowers the value shown to any user |
| GuardedIndex.UserValueNearest | packages/core/service/vault-index.service.ts:277-288 | the value shown is deposit times growth to the nearest millionth |
| GuardedIndex.WeightedEntryIndexNearest | packages/core/service/vault-index.service.ts:294-314 | the service's weighted index is the mean to the nearest unit |
| GuardedIndex.WeightedIndexesAgree | packages/core/service/vault-index.service.ts:294-314 | the service's half-up weighted index is the shared utility's floored one, or one more |
| GrowthIndex.CalculateClientGrowthIndex | packages/core/service/client-growth-index.service.ts:39-80 | the loop that skips empty vaults and cuts twice returns the mean over all vaults floored once, 1e18 without assets |
| GrowthIndex.IndexExactly | packages/core/service/client-growth-index.service.ts:51-77 | in sums over the rows' own columns: with T all money staked and pending and W the same weighted by index, g*T is at most W and (g + 1)*T above it; without money g is 1.0 |
| GrowthIndex.IndexInRange | packages/core/service/client-growth-index.service.ts:58-77 | the index lies between the least and greatest index of the vaults with assets |
| GrowthIndex.OrderDoesNotMatter | packages/core/service/client-growth-index.service.ts:51-68 | permuting the vaults changes nothing |
| GrowthIndex.EmptyVaultDoesNotMatter | packages/core/service/client-growth-index.service.ts:58-61 | adding a vault without assets anywhere changes nothing |
| GrowthIndex.UnitDoesNotMatter | packages/core/service/client-growth-index.service.ts:51-77 | scaling all balances by one factor changes nothing |
| GrowthIndex.MonotoneInEachIndex | packages/core/service/client-growth-index.service.ts:63-77 | raising one vault's index never lowers the client's |
| GrowthIndex.CalculateHistoricalApy | packages/core/service/client-growth-index.service.ts:148-189 | for APYs of either sign the loop returns the AUM-weighted mean of the vaults that have assets and a history, cut once at two decimals, zero if there is none |
| GrowthIndex.ApyExactly | packages/core/service/client-growth-index.service.ts:148-189 | the APY shown is the weighted sum over the staked and pending money of the vaults with a history, cut toward zero at two decimals, for either sign |
| GrowthIndex.WeightedApyStep | packages/core/service/client-growth-index.service.ts:157-172 | a vault adds to that sum its staked and pending money times its own APY, and nothing without a history |
| GrowthIndex.ApyInRange | packages/core/service/client-growth-index.service.ts:157-189 | the APY shown lies between the least and greatest of the vaults counted, to two decimals |
| IndexCron.IndexUpdateCron.UpdateAllVaultIndexes | apps/b2b-api/src/cron/index-update.cron.ts:86-157 | the loop over rows read at the start is the fold of lone accruals, and it reports exactly those that succeed, in order; a failing list throws and changes nothing |
| IndexCron.BatchIsolation | apps/b2b-api/src/cron/index-update.cron.ts:98-151 | a reported vault ends with its own accrual, any other as it was |
| IndexCron.SimpleYieldBelowCompound | apps/b2b-api/src/cron/index-update.cron.ts:111-126 | over n daily runs the index never falls, the yield column grows by the recorded yields, and I_0 times their sum is at most T*(I_n - I_0 + n) |
| IndexCron.YieldAmountExactly | apps/b2b-api/src/cron/index-update.cron.ts:180-185 | a day's yield of either sign is the stake times its percentage, floored: a*10^8 is at most T*y and (a + 1)*10^8 above it |
| IndexCron.YieldColumnExactly | apps/b2b-api/src/cron/index-update.cron.ts:111-126 | over n runs the yield column rises to within n whole units below the stake times the summed percentages |
| IndexCron.AccruedIndex | apps/b2b-api/src/cron/index-update.cron.ts:111-126 | the index written is the old one and its percentage, floored, for a yield of either sign |
| IndexCron.AccruesWhen | apps/b2b-api/src/cron/index-update.cron.ts:98-126 | a vault whose yields are missing is never written, and one whose daily yield is not negative always |
| IndexCron.AccrualIsUnfunded | apps/b2b-api/src/cron/index-update.cron.ts:117-126 | a vault whose shares use up its stake stays solvent under an accrual exactly when the day yielded nothing |
| IndexCron.AccrualKeepsSolventExactly | apps/b2b-api/src/cron/index-update.cron.ts:111-126 | for every vault and a yield of any sign, an accrual leaves the vault solvent exactly when what its shares gain fits in the slack T*P - (S - k)*I it had |
| IndexCron.DailyYieldBetween | apps/b2b-api/src/cron/index-update.cron.ts:38-81 | yields of either sign between two bounds give a daily yield between the weighted day's shares of the bounds, whatever the targets add up to |
| IndexCron.DailyYieldNearest | apps/b2b-api/src/cron/index-update.cron.ts:38-81 | the daily yield is each protocol's own yield times the target of the first strategy of its own name, summed, over 10000 and 365, to the nearest 10^-6 percent; without strategies the targets are 33.33, 33.33 and 33.34 |
| IndexCron.UnparsedIsZero | apps/b2b-api/src/cron/index-update.cron.ts:38-45 | a protocol yield that does not parse counts as none |
| IndexCron.EarnsNothingExactly | apps/b2b-api/src/cron/index-update.cron.ts:51-67 | a vault is left as it was whatever the yields exactly when its strategies give the three protocols no weight |
| IndexCron.ApiCategoriesEarnNothing | apps/b2b-api/src/cron/index-update.cron.ts:51-55 | a strategy list made only of the categories lending, lp and staking leaves the vault exactly as it was |
| Batches.SelectedExactly | apps/b2b-api/src/router/deposit.router.ts:369-434 | an order is taken up exactly when it is submitted, authorized, pending and in the environment of the first such order, and once however often submitted |
| Batches.SelectedForCaller | apps/b2b-api/src/router/deposit.router.ts:369-418 | in the session's figures: an API key's caller completes pending orders of its one client whatever products it lists, a user those of the listed products, any other caller none |
| Batches.DefaultClientExactly | apps/b2b-api/src/router/deposit.router.ts:328-362 | a caller is turned away exactly when it may complete nobody's orders; otherwise the wallet looked up is that of a client it may act for: the key's, or the first product |
| Batches.BatchEnvironmentIsFirst | apps/b2b-api/src/router/deposit.router.ts:426-434 | the environment of a batch is that of the first eligible order submitted |
| Batches.LoopTestIsSelection | apps/b2b-api/src/router/deposit.router.ts:420-434 | the loop's test on rows that change under it picks exactly the selected occurrences, and sets the batch environment only at the first |
| Batches.EachOccurrenceOnce | apps/b2b-api/src/router/withdrawal.router.ts:450-545 | whatever orders a loop reads, every submitted occurrence is either selected or rejected, never both, counted with repeats |
| Batches.AggregateByProduct | apps/b2b-api/src/router/deposit.router.ts:520-531 | the map-filling loop yields each product once, in order of first item, with the sum of its items |
| Batches.ProductsExactly | apps/b2b-api/src/router/deposit.router.ts:520-531 | the listed products are exactly those that own an item, without repeats, and all others have nothing |
| Batches.OwnItemsOnly | apps/b2b-api/src/router/deposit.router.ts:520-531 | an item counts in full for the product that owns its order and for no other |
| Batches.CreditsAddUp | apps/b2b-api/src/router/deposit.router.ts:519-543 | crediting per product raises all idle balances together by exactly the sum of the items |
| DepositBatch.DepositRouter.CompleteDeposit | apps/b2b-api/src/router/deposit.router.ts:436-461 | the call marks the order unless it throws before the write or the order is worth less than half a cent, and may throw after; a marked order is settled at the nearest cent of its amount over the rate |
| DepositBatch.PriceNearest | apps/b2b-api/src/router/deposit.router.ts:436-448 | an order is priced and settled at the nearest cent to its amount over the rate, with the six rates as figures and 1 for any other currency; settling changes nothing else but the status |
| DepositBatch.CompletesExactly | apps/b2b-api/src/router/deposit.router.ts:446-461 | an order can be completed exactly when it is worth at least half a cent and its call succeeds |
| DepositBatch.ItemsPriced | apps/b2b-api/src/router/deposit.router.ts:436-472 | every item is at the nearest cent, and their total within half a cent an item of all fiat amounts over the rate |
| DepositBatch.DepositRouter.CompleteOrders | apps/b2b-api/src/router/deposit.router.ts:365-472 | the loop completes exactly the selected orders, at their converted amounts, with their running total and environment, or stops at the first that throws with all earlier ones completed |
| DepositBatch.DepositRouter.AddToIdleBalance | packages/core/usecase/b2b/client.usecase.ts:510-526 | one existing balance rises by the amount unless the call throws before its write; a missing client is a silent no-op |
| DepositBatch.DepositRouter.CreditEach | apps/b2b-api/src/router/deposit.router.ts:534-543 | the credit loop credits each listed product its map entry once, up to the first update that throws |
| DepositBatch.DepositRouter.CreditProducts | apps/b2b-api/src/router/deposit.router.ts:519-543 | aggregation and credit loop together raise each credited product's balance by the sum of its own items |
| DepositBatch.DepositRouter.BatchCompleteDeposits | apps/b2b-api/src/router/deposit.router.ts:328-543 | each way out and every balance as conditions on the request: the credits are reached exactly when the caller is known, an order is eligible, every order taken up completes and a wallet exists; all balances together rise by the reported total exactly when every product's update was written or nothing was completed; each item is the nearest cent of its order at the rate, the total within half a cent an item of all fiat amounts, and each credited product rises by its own items |
| DepositBatch.CreditsTotal | apps/b2b-api/src/router/deposit.router.ts:533-543 | crediting the first n products raises all balances together by the sum of the items exactly when these are all the products |
| WithdrawalBatch.WithdrawalRouter.CompleteWithdrawal | packages/core/usecase/b2b/withdrawal.usecase.ts:288-308 | the call marks the order unless it throws before the write, and may throw after |
| WithdrawalBatch.WithdrawalRouter.CompleteOrders | apps/b2b-api/src/router/withdrawal.router.ts:446-545 | reading every withdrawal without its environment, the loop completes exactly those taken up and lists every other occurrence with its reason, in order, or stops at the first that throws with all earlier ones completed |
| WithdrawalBatch.WithdrawalRouter.DeductFromIdleBalance | packages/core/repository/postgres/client.repository.ts:366-370 | one balance falls by the amount, or the CHECK or the call throws before the write and nothing changes; it may throw after |
| WithdrawalBatch.WithdrawalRouter.DeductEach | apps/b2b-api/src/router/withdrawal.router.ts:609-618 | the deduction loop charges products in order and stops at the first that cannot pay or throws, leaving those before it charged |
| WithdrawalBatch.WithdrawalRouter.ChargeAll | apps/b2b-api/src/router/withdrawal.router.ts:594-618 | it ends without a throw exactly when each product can pay its own and no update throws, and then all idle balances fall together by the sum of the items |
| WithdrawalBatch.WithdrawalRouter.BatchCompleteWithdrawals | apps/b2b-api/src/router/withdrawal.router.ts:409-618 | each way out, the lists, the rows and every balance as conditions on the request; the wallet is always looked up in sandbox |
| WithdrawalBatch.FailuresAreRejected | apps/b2b-api/src/router/withdrawal.router.ts:450-529 | the failed list names exactly the occurrences not completed, in order |
| WithdrawalBatch.ReasonsExactly | apps/b2b-api/src/router/withdrawal.router.ts:450-529 | and each with its reason: unknown exactly for no row, unauthorized exactly for another client's, and otherwise the status the row had, or completed for one the batch itself completed |
| WithdrawalBatch.TakenExactly | packages/core/usecase/b2b/withdrawal.usecase.ts:237-240 | every submitted withdrawal that is authorized and pending is completed, whatever environment its row holds, once; every other occurrence is left |
| WithdrawalBatch.NoMismatchReported | apps/b2b-api/src/router/withdrawal.router.ts:517-529 | the loop's test for another environment never fires |
| WithdrawalBatch.WalletMatchesExactly | apps/b2b-api/src/router/withdrawal.router.ts:564-572 | every completed withdrawal is of the environment its wallet is looked up in exactly when no production withdrawal was submitted that could be completed |
| WithdrawalBatch.ProductionPaidFromSandbox | packages/core/usecase/b2b/withdrawal.usecase.ts:427-445 | a sandbox and a production withdrawal submitted together are both completed, against the sandbox wallet |
| WithdrawalBatch.ChargesAddUp | apps/b2b-api/src/router/withdrawal.router.ts:594-618 | when every product can pay, balances after plus the items equal balances before |
| WithdrawalBatch.ChargesNearTotal | apps/b2b-api/src/router/withdrawal.router.ts:532-542 | the charges differ from the unrounded total by at most half a cent per item, by nothing when all requests are whole cents |
| WithdrawalBatch.ChargedNearest | apps/b2b-api/src/router/withdrawal.router.ts:532-542 | a withdrawal is charged its amount to the nearest cent, halves up, and settled at the amount requested |
| WithdrawalBatch.TransferNearCharges | apps/b2b-api/src/router/withdrawal.router.ts:677-684 | the amount transferred differs from the charges by at most half a cent per item and half a cent more, by nothing for whole cents |
| WithdrawalBatch.TransferEqualsChargesExactly | apps/b2b-api/src/router/withdrawal.router.ts:677-684 | what is charged equals what is transferred exactly when the sum R of what rounding kept satisfies -1/2 <= R < 1/2 cent, and equals the unrounded total exactly when R is zero |
| WithdrawalBatch.HalfCentsAreChargedTwice | apps/b2b-api/src/router/withdrawal.router.ts:532-542 | a batch of two withdrawals of half a cent takes up both, charges their product two cents and transfers one |
| RevenueSplit.RevenueService.DistributeYield | packages/core/service/revenue.service.ts:163-204 | it succeeds exactly for a positive yield of a known vault of a known client, writes that vault's yield column and nothing else, and a throw changes no row; each refusal has its own error |
| RevenueSplit.ExactPartsAddUp | packages/core/service/revenue.service.ts:182-196 | before rounding the three parts are the whole yield, so the tolerance check cannot fire |
| RevenueSplit.PartsNearest | packages/core/service/revenue.service.ts:178-204 | client, platform and end users each get the nearest unit to their own percentage, the end users what the two fees leave; the yield column rises by the three and nothing else moves |
| RevenueSplit.RoundedPartsDrift | packages/core/service/revenue.service.ts:199-204 | the three rounded parts miss the yield by at most one unit of the 18th decimal |
| RevenueSplit.EndusersGetSeventyPercent | packages/b2b-api-core/dto/client.ts:39-62 | within the fee bounds the end users get at least 70 percent, also rounded, and no more exactly at both upper bounds |
| RevenueSplit.DistributionsDrift | packages/core/service/revenue.service.ts:163-204 | over n distributions the yield column is within n units of the yield harvested, and neither stake nor index moved |
| ProportionalWithdrawal.PlanNearRequest | apps/b2b-api/src/router/defi-protocol.router.ts:901-919 | for any decimal request the planned parts sum to within one and a half base units of it, and within one for a whole number of units |
| ProportionalWithdrawal.PlanExactly | apps/b2b-api/src/router/defi-protocol.router.ts:901-919 | the whole plan: Aave, Compound and Morpho in turn, each with the nearest unit to the proportion of its own balance and left out if that is zero; no plan exactly when nothing is held |
| ProportionalWithdrawal.PlanIsCovered | apps/b2b-api/src/router/defi-protocol.router.ts:901-919 | a request covered in total asks Aave for at most the Aave balance, Compound for at most the Compound one and Morpho for at most the Morpho one, and no part is zero |
| ProportionalWithdrawal.FullWithdrawal | apps/b2b-api/src/router/defi-protocol.router.ts:904-919 | asking for everything plans exactly the three balances, each from its own protocol, without those that are zero |
| ProportionalWithdrawal.NonZeroKeepsSum | apps/b2b-api/src/router/defi-protocol.router.ts:914-919 | dropping zero parts keeps the sum and exactly the positive parts |
| ProportionalWithdrawal.PlanMeetsRequestExactly | apps/b2b-api/src/router/defi-protocol.router.ts:901-919 | the parts planned for a request of W whole units add up to W exactly when the total held times the number of parts rounded up equals the sum of the three remainders W*held mod total |
| ProportionalWithdrawal.PlanCanOvershoot | apps/b2b-api/src/router/defi-protocol.router.ts:904-912 | the extra unit is real: one unit asked of two protocols with one each plans both |
| Backfill.ScanInChunks | apps/b2b-api/src/scripts/backfill-transactions.ts:84-100 | for any range and positive chunk size the scan ends, its chunks tile the range, and its logs are those of one scan of the whole range |
| Backfill.TilesCoverOnce | apps/b2b-api/src/scripts/backfill-transactions.ts:86-87 | every block of the range lies in exactly one chunk and no other block in any |
| Backfill.AdjacentRanges | apps/b2b-api/src/scripts/backfill-transactions.ts:160-175 | adjacent ranges scanned one after the other are the whole range |
| Backfill.WindowExactly | apps/b2b-api/src/scripts/backfill-transactions.ts:73-74 | the range scanned is the head and the 43200 blocks before it |
| Backfill.GetLogsExactly | apps/b2b-api/src/scripts/backfill-transactions.ts:90-99 | a scan returns exactly the transfers of its blocks out of the wallet, or into it for the other direction |
| Backfill.BackfillScript.StoreLogs | apps/b2b-api/src/scripts/backfill-transactions.ts:104-154 | the storing loop is the fold that appends a record per protocol transfer whose transaction is not yet known, or whose check failed, and it stops exactly at the first such record whose block lookup or insert fails |
| Backfill.StoredKnows | apps/b2b-api/src/scripts/backfill-transactions.ts:113-125 | old records stay in place, and exactly the protocol transactions of the logs become known, whatever checks fail |
| Backfill.NoDuplicatesExactly | apps/b2b-api/src/scripts/backfill-transactions.ts:115-125 | whatever the table held, after one loop no transaction is stored twice exactly when none was before and no check failed on one already there |
| Backfill.FailedCheckDuplicates | apps/b2b-api/src/scripts/backfill-transactions.ts:113-125 | any transaction with two transfers to a protocol is stored twice when the second existence check throws |
| Backfill.RecordedExactly | apps/b2b-api/src/scripts/backfill-transactions.ts:104-153 | with working checks a transfer adds a record exactly when it touches a protocol and its transaction has none yet; further transfers of it are dropped |
| Backfill.BackfillScript.Run | apps/b2b-api/src/scripts/backfill-transactions.ts:72-234 | the script over all vaults, outgoing then incoming transfers of each, does not depend on the chunk size; a failing lookup or insert leaves what was stored up to it |
| Backfill.SecondRunAddsNothing | apps/b2b-api/src/scripts/backfill-transactions.ts:77-234 | a second run with working checks over the same range adds nothing, even after a first run whose checks failed |
| Backfill.RunDistinctExactly | apps/b2b-api/src/scripts/backfill-transactions.ts:77-234 | after a whole run over all vaults no transaction is stored twice exactly when none was before and, in either direction of each vault, no check failed on one already there |
| Backfill.RunKeepsHashesDistinct | apps/b2b-api/src/scripts/backfill-transactions.ts:77-234 | so with working checks a whole run stores no transaction twice |
| Backfill.AllDoneKnows | apps/b2b-api/src/scripts/backfill-transactions.ts:77-234 | whatever checks fail, a whole run makes known exactly the transactions of its vaults' protocol transfers |
| Backfill.RecordTells | apps/b2b-api/src/scripts/backfill-transactions.ts:104-153 | a transfer gives exactly the record that tells of it, field by field: vault, client, hash, block, amount, direction, and the protocol whose pool address the other side is |
| Backfill.RecordsTellOfTransfers | apps/b2b-api/src/scripts/backfill-transactions.ts:77-234 | every record a whole run adds tells of a transfer between the wallet of one of its vaults and a pool, in a block of its range |
| Backfill.MovesExactly | apps/b2b-api/src/scripts/backfill-transactions.ts:77-234 | and the transactions it makes known are exactly those of such transfers on the chain |
| Backfill.GrowingChain | apps/b2b-api/src/scripts/backfill-transactions.ts:86-99 | blocks added later do not change what a scan of an earlier range returns, so two runs are two ranges of one chain |
| Backfill.RerunKnows | apps/b2b-api/src/scripts/backfill-transactions.ts:72-238 | after a run that stopped anywhere, one over any other range and vaults makes known exactly what was known and what moves in its own range |
| Backfill.LostExactly | apps/b2b-api/src/scripts/backfill-transactions.ts:72-238 | the second run misses a transaction the first was after exactly when it was not stored before the stop and does not move in the second range |
| Backfill.EarlyRerunLosesNothing | apps/b2b-api/src/scripts/backfill-transactions.ts:72-238 | a second run that starts no later and ends no earlier than the first loses nothing the first was after |
| Backfill.LateRerunLosesTransfer | apps/b2b-api/src/scripts/backfill-transactions.ts:72-74 | a lone protocol transfer in block 0, at which the first run stops with the head at the lookback, is stored by an undisturbed run and never by the next run one block later |
| Backfill.RerunCatchesUp | apps/b2b-api/src/scripts/backfill-transactions.ts:77-238 | the case of two runs over the same range: the second leaves exactly the transactions an undisturbed run would have left |
| ClientLedger.ClientUsecase.AddFunds | packages/core/usecase/client.usecase.ts:182-201 | new balance, audit trail and reply of adding funds |
| ClientLedger.ClientUsecase.DeductFunds | packages/core/usecase/client.usecase.ts:206-233 | new balance, audit trail and reply of a checked deduction |
| ClientLedger.ClientUsecase.ReserveFunds | packages/core/usecase/client.usecase.ts:238-265 | new balance, audit trail and reply of a checked reservation |
| ClientLedger.ClientUsecase.ReleaseFunds | packages/core/usecase/client.usecase.ts:270-283 | a release beyond the reserve changes nothing and is still logged |
| ClientLedger.ClientUsecase.DeductReserved | packages/core/usecase/client.usecase.ts:288-301 | a deduction beyond the reserve changes nothing and is still logged |
| ClientLedger.HoldingsFollowAudit | packages/core/usecase/client.usecase.ts:182-301 | over every run, with amounts of any sign, no balance goes negative, and the holdings are the net of the audit trail plus the deductions logged in vain |
| ClientLedger.EachSideFollowsAudit | packages/core/usecase/client.usecase.ts:182-301 | over every run available and reserved money each are what the audit trail moved on that side, but for what was released in vain, which stayed reserved, and deducted in vain |
| ClientLedger.SidesMove | packages/core/usecase/client.usecase.ts:182-301 | when each of the five operations goes through and what it moves on which side; an uncovered release or deduction moves nothing and is logged |
| ClientLedger.NothingToMove | packages/core/usecase/client.usecase.ts:182-301 | for a client without a balance row the three checked operations throw and the other two are only logged |
| ClientLedger.AuditIsHonest | packages/core/usecase/client.usecase.ts:270-301 | for amounts of any sign, audit trail and ledger agree exactly when every deduction from the reserve was covered by it or, for a client without a balance row, when those asked for cancel out |
| ClientLedger.DeductedInVain | packages/core/usecase/client.usecase.ts:288-301 | deducting one unit from an empty reserve moves nothing and is logged |
| ClientLedger.ReserveThenRelease | packages/core/usecase/client.usecase.ts:238-283 | reserving and releasing the same amount restores the row |

## Left out

- Chain, RPC, Privy, HTTP, logging and timer code, and the token transfers and mints after the balances were moved.
- Response bodies, request schemas and authentication middleware.
- The b2b use cases beyond what the batch jobs call: requesting a withdrawal and its queue, registration, dashboards; and the end-user bookkeeping of a deposit's completion, whose entry index is the weighted index modelled here.
- Failing lookups of an order in the batch jobs, which end the request like a throwing completion.
- The updater's daily growth factor itself, a 365th root of a float: any rational stands for it. `calculateDailyGrowthRate`, `calculateEffectiveAPY` and the APY annualization: fractional powers of floats, or figures that are only displayed.
- `yield-calculation.service.ts`: its guards are those of GuardedIndex, and its sum and its subtraction would only add easy members.
- `handleWithdrawal` on its own: its write is commented out, so only its check is used, in the withdrawal step.
- `syncWrappedTokenBalances`, `getClientGrowthIndexBreakdown`, the dominant protocol of the daily report, MRR and ARR: reporting.
- `packages/core/service/index-update-cron.service.ts`: nothing uses it, and its queries are comments.
- `apps/b2b-api/src/scripts/manual-sync-balances.ts`: it writes what the modelled balance sync writes, for balances other than zero.
- Starting and stopping the updater, and the two runs that a timer could overlap.
- The single-protocol branch of `executeWithdrawal` and its "more than 1000 means smallest units" guess.
- The 20 significant digits of `decimal.js`, and rounding inside JavaScript's binary floating point.
- Fractions of a base unit in vault balances, which the schema allows; of the flows here only yield entered by hand could bring them in.
- GrowthIndex.CalculateHistoricalApy: a vault's rolling APY is an input, because a query that is not part of this model computes it.
- DepositRuns.StepKeepsSolventExactly: withdrawn amounts are not negative, as the schema's CHECKs on withdrawal requests demand.
- RevenueSplit.RevenueService.DistributeYield: a yield that does not parse as a number is not modelled; its one caller hands it the decimal string of a positive number (`packages/core/usecase/b2b/withdrawal.usecase.ts:117-134`).
