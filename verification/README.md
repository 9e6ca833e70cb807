# Budgy, modelled and proved in Dafny

Budgy is a personal finance server: it fetches bank transactions, pairs the two faces of transfers
between accounts of one owner, files transactions by rules read from their labels, and projects the
balance at the end of a budget cycle. This project models the decisions it takes and proves what its
comments promise of them. `dafny verify dfyconfig.toml` verifies everything.

## How the model reads the program

- One module per part of the program, with its laws beside it: `Pairing` / `PairingLaws`, `Labels` /
  `LabelLaws` / `DerivedRuleMiss`, `Rules` / `RuleLaws`, `Transactions` / `TransactionLaws`,
  `Reconciliation` / `ReconciliationLaws` / `MarkingLaws` / `LimitLaws` / `SecondRunLaws` /
  `RuleAndDefaultLaws`, `Recurrence` / `RecurrenceLaws` / `RecurrenceDetection`, `Quota` / `QuotaLaws`, `SyncWorker` / `SyncLaws` /
  `SyncQuotaLaws`, `Cycles` / `CycleLaws`, `Spending` / `SpendingLaws`, `Median` / `MedianLaws`,
  `Forecast` / `ForecastLaws`, `Amounts` / `AmountLaws`. `Wrappers`, `Ordering` and `Text` hold what they
  share.
- What the program does by changing things step by step is a method, on a class where it updates a
  stored row, a table or a report; each method is proved to compute a function or a state given
  elsewhere, and the laws are proved of that.
- A label is the sequence of its words; casing is the ASCII one. A text comparison (`contains`) is
  still made on the characters of the joined words.
- One SQL statement is one atomic step on the table of transactions. A run is any interleaving of such
  steps, with lists of identifiers as stale as one likes. Encryption is the identity, and the
  deduplication key is the pair (account, external identifier).
- A query without `ORDER BY` answers in any order (`Store.AnyOrder`); a hash map is read in any order.
- Resemblance scores are exact quotients. Dates are day numbers, except in `Cycles`, which has the
  calendar of section 5.7 and Appendix C of RFC 3339.
- `Reconciliation` is proved for any reduction of labels and any rule test; the program's are the
  constant `PROGRAM`, used where the proof depends on them.
- What the bank, the database or another worker answers during a synchronisation is a parameter
  (`Answers`), as are the clock and the identifiers the database gives.

## Where the promise and the code part

- A rule derived from a label is promised to match it. It does when a word survives the reduction, when
  the label has at most five words, or when its first five hold at most one `OU`. Beyond that it depends
  on the words that survive in the first five alone: the rule matches exactly when there is one at most,
  or when they stand in the five in a row, the first ending a word and the last beginning one
  (`RuleLaws.DerivedRuleMatchesExactly`). `1 MR OU MR OU MME MME` is a label whose rule misses it
  (`DerivedRuleMiss.DerivedRuleCanMiss`).
- A counterparty is said never to be empty; it is, exactly for a label without any word
  (`LabelLaws.CounterpartyIsEmptyOnlyForNoWords`).
- Reconciliation is said to be idempotent. Its queries return 5000 rows at most, of their choice. Within
  that limit it is, for any rules (`SecondRunLaws.IdempotentWithinLimit`). Beyond it, a stage does all it
  should exactly when its listing is complete or has nothing to categorise
  (`LimitLaws.RuleStageCompleteExactly`, `LimitLaws.DefaultStageCompleteExactly`); a second run changes
  nothing exactly when the first left no row that a rule or the default is for
  (`SecondRunLaws.SecondRunChangesNothingExactly`). For no rule or one the exact condition is stated before
  the first run too: with a rule and a default, the rule must be for credits only and always make enough
  room for the default (`RuleAndDefaultLaws.IdempotentWithRuleAndDefaultExactly`). `SecondRunLaws.BeyondTheLimitWorkRemains` gives tables
  on which a second run changes a row.
- Reconciliation is said never to overwrite a categorisation by rule. Pairing drops it: it is kept exactly
  when the row is not paired, or is marked already under the system category
  (`ReconciliationLaws.RuleCategorisationKeptExactly`, `MarkingLaws.RuleCategorisationCanBeDropped`).
- The pairing stage is said to answer how many rows are newly marked. Marks are reset first, so it does
  exactly when no paired row bore an automatic mark already (`MarkingLaws.AnswerCountsNewMarksExactly`);
  a second run answers the same number and marks nothing new (`MarkingLaws.SecondAnswerRepeats`,
  `MarkingLaws.AnswerCanBeWrong`).
- The daily quota fails when the clock goes back. The attempts granted on a day are those among the first
  `quota` of an unbroken stretch of attempts on that day, so the quota is kept exactly when these number at
  most `quota` on each day (`QuotaLaws.QuotaHoldsExactly`). Days that never go back always keep it
  (`QuotaLaws.QuotaIsSafe`); a day that comes back breaks it as soon as each visit makes `quota` attempts
  (`QuotaLaws.QuotaHoldsExactlyWithoutReturn`).
- A category predicted over an even number of months may be present in only half of them; the exact
  condition is `MedianLaws.MedianIsPositive`. The program uses three months.
- Amount texts with a second sign are accepted: `+-5.25` is read as -475 cents
  (`AmountLaws.DoubleSignMisread`). Which texts are accepted is `AmountLaws.AcceptedTexts`; one with a second
  sign is read right exactly when it fits and that sign is a plus or there are no cents
  (`AmountLaws.DoubleSignReadRightExactly`). The least 64-bit
  amount is printed but not read back (`AmountLaws.PrintedAmountIsReadBack`).
- The repository's own README describes the forecast as recurring income minus recurring expenses minus
  budgets; the code projects from the current balance, and so does the model.

## Model

| member | source | states |
|---|---|---|
| Pairing.CollectCouples | src/domain/transfert_interne.rs:65-72 | the nested loops collect every debit and credit that can be two faces of one transfer, in reading order |
| Pairing.CountPartners | src/domain/transfert_interne.rs:74-82 | the two counter maps give, for every movement, the number of couples it appears in |
| Pairing.KeepBest | src/domain/transfert_interne.rs:93-111 | the single pass with its "taken" sets yields the faces of the greedy choice |
| Pairing.DetectInternalTransfers | src/domain/transfert_interne.rs:57-112 | the whole detection yields the faces of `Paired`, about which the laws below are proved |
| PairingLaws.ResemblanceIsAShare | src/domain/transfert_interne.rs:143-159 | the score lies in [0, 1], is symmetric, is 0 exactly without common word and 1 exactly for the same non-empty word set, whatever case, order and repetition |
| PairingLaws.CouplesAre | src/domain/transfert_interne.rs:137-141 | the couples examined are exactly those of opposite amounts, on two accounts, at most four days apart; none occurs twice |
| PairingLaws.BeyondDoubtIsAlone | src/domain/transfert_interne.rs:114-135 | the counters accept exactly the couples that share a face with no other couple and have no hand-filed face |
| PairingLaws.PairedIsStable | src/domain/transfert_interne.rs:84-109 | no face is used twice, and every admissible couple left out shares a face with a kept couple ranked before it |
| PairingLaws.StableIsUnique | src/domain/transfert_interne.rs:84-109 | two choices without blocking couple, among candidates that never tie, are equal |
| PairingLaws.PairedIsTheStableChoice | src/domain/transfert_interne.rs:84-109 | a set of couples has no blocking couple if and only if it is what the detection keeps |
| PairingLaws.PairedIgnoresReadingOrder | src/domain/transfert_interne.rs:84-91 | any permutation of movements with distinct identifiers yields the same list of identifiers |
| PairingLaws.LowScoresNeverCompete | src/domain/transfert_interne.rs:100-104 | the low-score couples kept are exactly the isolated ones not filed by hand; the others are the stable choice among high scores alone |
| PairingLaws.PairingConservesMoney | src/domain/transfert_interne.rs:57-112 | paired identifiers are distinct and sum to zero; each couple joins two accounts at most four days apart |
| Labels.RemoveTitle | src/domain/libelle.rs:131-133 | the shrinking loop ends, and the title stands nowhere in what is left |
| Labels.RemoveEach | src/domain/libelle.rs:129-134 | titles are removed in their order, each to exhaustion |
| Labels.RemoveTitles | src/domain/libelle.rs:127-136 | the loop over the program's titles computes `WithoutTitles` |
| LabelLaws.LongestPrefixIsRemoved | src/domain/libelle.rs:113-125 | taking the first prefix of the list that matches removes the longest one the label starts with, and the `DE` after it unless that is the last word; a label that starts with none is left whole |
| LabelLaws.TitleStandsNoMore | src/domain/libelle.rs:131-133 | a title removed stands at no place of what is left, titles of several words included |
| LabelLaws.WithoutTitlesHasNone | src/domain/libelle.rs:127-136 | no title word is left, no word is added, and only title words or `OU` are lost |
| LabelLaws.SurvivorsWords | src/domain/libelle.rs:138-156 | surviving words come from the label, are not volatile and are no titles |
| LabelLaws.SurvivorsOfCut | src/domain/libelle.rs:98-102 | when nothing survives in a long label, what survives in its first five words is one word at most or only as many as they hold `OU` |
| LabelLaws.DerivedCounterpartyIsAPiece | src/domain/libelle.rs:93-103 | under `Derivable`, reducing a counterparty again yields a run of its consecutive words |
| LabelLaws.DerivedCounterpartyOfLongLabel | src/domain/libelle.rs:98-102 | in the fallback of a long label, that holds if and only if the survivors of the first five words are consecutive |
| LabelLaws.CounterpartyIsEmptyOnlyForNoWords | src/domain/libelle.rs:91-103 | the counterparty is empty if and only if the label has no word |
| RuleLaws.SelectIsBest | src/domain/regle_categorisation.rs:64-72 | the selected rule matches and outranks every matching rule; none is selected only if none matches |
| RuleLaws.SelectIgnoresOrder | src/domain/regle_categorisation.rs:64-72 | the selection does not depend on the order of the rules |
| RuleLaws.FirstMatchIsTop | src/repository/regles_categorisation.rs:52-57 | in repository order the first matching rule is of top rank, ties aside |
| RuleLaws.BatchAgreesWithSelection | src/handlers/transactions.rs:52-58 | applying all rules one after another and selecting one rule agree on whether and at what rank a label is filed, and on the rule unless another ties with it |
| RuleLaws.DerivedRuleMatches | src/handlers/regles_categorisation.rs:76-78 | a rule derived from a `Derivable` label matches that label |
| RuleLaws.DerivedRuleMatchesExactly | src/domain/regle_categorisation.rs:57-61 | a derived rule matches its label if and only if the label is `Derivable` or the survivors of its first five words are one at most or stand in them word by word in a row |
| DerivedRuleMiss.DerivedRuleCanMiss | src/domain/regle_categorisation.rs:57-61 | the concrete label whose derived rule does not match it |
| TransactionLaws.RunKeepsInvariant | src/repository/bank_transactions.rs:255-321 | over every run: no source exactly when no category, rule identifiers only with source rule, rows hand-filed under internal transfers marked, one row per key, no row lost, booked rows stay booked with their dates |
| TransactionLaws.RunKeepsDecision | src/repository/bank_transactions.rs:641-690 | over every run a hand-filed row keeps category and source until it is filed by hand again, and its mark under the system category |
| TransactionLaws.DeliveriesKeepCategorisation | src/repository/bank_transactions.rs:104-108 | replays change nothing of a row but its status and dates |
| TransactionLaws.IngestedRows | src/repository/bank_transactions.rs:79-130 | after any deliveries one row per delivered key, with label and amount of the first delivery, booked exactly when one was booked, dated by the first booked one |
| TransactionLaws.InsertedOnce | src/repository/bank_transactions.rs:126-129 | `Inserted` is answered to the first delivery of each key and to no other |
| TransactionLaws.StatusOfKey | src/repository/bank_transactions.rs:100-110 | a key is stored with status booked exactly when some delivery of it was booked |
| TransactionLaws.DeliveriesCommute | src/repository/bank_transactions.rs:79-130 | permuting the deliveries changes neither the keys stored nor their statuses |
| Reconciliation.PairedIdsOfListing | src/repository/bank_transactions.rs:559-565 | every listing of the owner's movements leads to the same paired identifiers |
| Reconciliation.Store.ListMovements | src/repository/bank_transactions.rs:572-621 | lists, in some order and without repetition, exactly the owner's dated rows as movements |
| Reconciliation.Store.MarkPaired | src/repository/bank_transactions.rs:641-690 | reset then mark changes each row of the owner as `PairingRow` says and no other row; counts the rows marked since the reset |
| Reconciliation.Store.RecomputeTransfers | src/repository/bank_transactions.rs:554-570 | the table afterwards is `AfterPairing`, whatever order the database listed rows in, and the answer counts the rows marked since the reset |
| MarkingLaws.AnswerCountsNewMarksExactly | src/repository/bank_transactions.rs:867-878 | the answer is the number of newly marked rows if and only if no paired row bore an automatic mark before |
| MarkingLaws.SecondAnswerRepeats | src/repository/bank_transactions.rs:554-570 | run again, the stage pairs the same rows, marks no new one and answers the same number |
| MarkingLaws.AnswerCanBeWrong | src/repository/bank_transactions.rs:867-869 | on a debit and its credit paired before, the answer is two and nothing is newly marked |
| Reconciliation.Store.ApplyRuleRetroactively | src/repository/bank_transactions.rs:841-865 | the open rows that match in some listing of at most 5000 get the rule, the answer is how many; within the limit every open row that matches gets it |
| Reconciliation.Store.DefaultCredits | src/repository/bank_transactions.rs:883-904 | the open credits of some listing of at most 5000 get the default category, the answer is how many; within the limit every open credit gets it |
| Reconciliation.Store.ApplyAllRules | src/handlers/transactions.rs:52-58 | the table is one that the rules may leave one after another, the sum of the answers is the number of rows categorised, and within the limit each open row has its first matching rule |
| Reconciliation.Store.Reconcile | src/handlers/transactions.rs:37-66 | the table is an `Outcome` of the three stages, `Reconciled` within the limit, and the answer is the number of rows they categorised |
| Reconciliation.Store.Categorise | src/repository/bank_transactions.rs:255-295 | the outcome distinguishes exactly inaccessible category, unknown transaction and success, and only a success changes the table, in one row |
| Reconciliation.Store.Save | src/repository/bank_transactions.rs:968-987 | a new row is stored with the best rule of its owner; a known key only merges |
| ReconciliationLaws.ReconciledRowIsSettled | src/handlers/transactions.rs:29-36 | no stage changes a reconciled row again, even with tied rules in another order |
| ReconciliationLaws.ReconciliationIsIdempotent | src/handlers/transactions.rs:37-66 | a second run pairs alike, changes no row, categorises none and stays within the limit |
| LimitLaws.RuleStageCompleteExactly | src/repository/bank_transactions.rs:841-865 | for every listing the rule reaches all it is for, if and only if the open rows fit in one listing or it is for none |
| LimitLaws.DefaultStageCompleteExactly | src/repository/bank_transactions.rs:433-459 | for every listing the default reaches all open credits, if and only if the rows without source fit in one listing or none is a credit |
| SecondRunLaws.SecondRunChangesNothingExactly | src/handlers/transactions.rs:29-36 | after any run, a second one changes nothing whatever its listings, if and only if no open row matches a rule and no open credit awaits a default |
| SecondRunLaws.IdempotentWithinLimit | src/handlers/transactions.rs:37-66 | within the limit every run leaves the same table and no second run changes it, whatever the listings and the rules |
| SecondRunLaws.IdempotentWithoutRulesExactly | src/repository/bank_transactions.rs:883-904 | without rules, no second run ever changes a row if and only if there is no default, the rows without source fit in one listing, or none is a credit |
| SecondRunLaws.IdempotentWithOneRuleExactly | src/repository/bank_transactions.rs:841-865 | with one rule and no default, if and only if the open rows fit in one listing or the rule is for none |
| RuleAndDefaultLaws.IdempotentWithRuleAndDefaultExactly | src/handlers/transactions.rs:52-63 | with one rule and a default, on a sound table, if and only if the open rows fit in one listing, or the rule is for credits only and there is no open credit or the rule matches at least twice as many rows as exceed the listing |
| SecondRunLaws.BeyondTheLimitWorkRemains | src/repository/bank_transactions.rs:40-40 | for every number of open credits above 5000, a sound table on which a second run may change a row |
| ReconciliationLaws.ReconciliationKeepsDecisions | src/handlers/transactions.rs:29-36 | the table invariant, hand-filed decisions and other owners' rows are kept (categorisations by rule: see the next row) |
| ReconciliationLaws.RuleCategorisationKeptExactly | src/repository/bank_transactions.rs:671-683 | a categorisation by rule outlives reconciliation if and only if the row is not paired, or is marked already under the system category |
| MarkingLaws.RuleCategorisationCanBeDropped | src/handlers/transactions.rs:35-36 | on a debit filed by a rule and its credit, any reconciliation drops what the rule had given |
| ReconciliationLaws.ReconciledRowIsComplete | src/handlers/transactions.rs:29-36 | rows are marked exactly when paired or filed as internal; open rows match no rule; no credit stays open; each new category is the first matching rule's or the default of an unmatched credit |
| ReconciliationLaws.RuleStageAgreesWithSelection | src/handlers/transactions.rs:52-58 | without ties, every open uncategorised row gets the rule selected for its label, or stays as it was |
| ReconciliationLaws.StoringAgreesWithReconciling | src/repository/bank_transactions.rs:937-964 | without ties, storing a transaction and reconciling it later choose the same rule |
| ReconciliationLaws.DerivedRuleReachesItsTransaction | src/repository/bank_transactions.rs:841-865 | a rule derived from an open transaction and applied retroactively reaches that transaction, whatever the listing, if and only if the open rows fit in one listing |
| Recurrence.GroupedIsClusters | src/domain/recurrence.rs:97-106 | continuing the greedy grouping of a sorted list yields the clusters defined without sorting |
| Recurrence.GroupSorted | src/domain/recurrence.rs:97-106 | the loop over the sorted list computes the clusters |
| Recurrence.GroupByAmount | src/domain/recurrence.rs:91-107 | sorting then grouping computes the clusters |
| Recurrence.ClusterIsMonthly | src/domain/recurrence.rs:113-130 | a cluster is monthly: three occurrences or more, two gaps of 26 to 35 days or more among consecutive dates |
| Recurrence.GroupByMerchant | src/domain/recurrence.rs:57-63 | each merchant has exactly its occurrences, in reading order |
| RecurrenceLaws.ClustersPartition | src/domain/recurrence.rs:91-107 | the clusters are a partition of the occurrences into groups of spread at most 100 cents |
| RecurrenceLaws.ClustersAreFewest | src/domain/recurrence.rs:91-111 | no cover of the occurrences by groups of that spread has fewer groups |
| RecurrenceLaws.ClustersPermute | src/domain/recurrence.rs:94-106 | permuting the occurrences, equal amounts included, only permutes within clusters |
| RecurrenceLaws.MonthlyPermutes | src/domain/recurrence.rs:118-129 | being monthly does not depend on the order within a cluster |
| RecurrenceLaws.RecursIgnoresReadingOrder | src/domain/recurrence.rs:56-79 | which occurrences recur does not depend on reading order |
| RecurrenceLaws.ReportedCounts | src/domain/recurrence.rs:67-76 | each occurrence of a monthly cluster is reported as often as it was given, the others never |
| RecurrenceDetection.DetectRecurrences | src/domain/recurrence.rs:56-79 | the identifiers reported are exactly those of recurring occurrences, each once if they were distinct, whatever order merchants are read in |
| Quota.BankAccount.ReserveSlot | src/repository/bank_accounts.rs:426-451 | grants exactly when the day has a slot left; a grant writes counter, day and plan, a refusal nothing |
| QuotaLaws.QuotaHolds | src/repository/bank_accounts.rs:432-441 | as long as no day returns, no day gets more than the quota and the counter is what the stored day was granted |
| QuotaLaws.QuotaHoldsExactlyWithoutReturn | src/repository/bank_accounts.rs:435-440 | when each visit to a day makes as many attempts as the quota, the quota is kept if and only if no day returns after another |
| QuotaLaws.GrantsAreEarly | src/repository/bank_accounts.rs:432-441 | whatever the order of days, the attempts granted on a day are those among the first `quota` of an unbroken stretch on it |
| QuotaLaws.QuotaHoldsExactly | src/repository/bank_accounts.rs:426-451 | over every interleaving and any clocks, an account keeps to the quota every day if and only if these early attempts do |
| QuotaLaws.AccountSeesItsOwnAttempts | src/repository/bank_accounts.rs:426-451 | in any interleaving an account's row and grants depend on the attempts on it alone |
| QuotaLaws.QuotaIsSafe | src/repository/bank_accounts.rs:426-451 | over every interleaving of workers, an account whose days never go back gets at most `quota` slots a day and its counter is the number granted on its stored day |
| QuotaLaws.AloneEveryDueAccountIsGranted | src/repository/bank_accounts.rs:402-412 | a worker alone is granted every account of its due list |
| SyncWorker.Worker.FetchData | src/domain/synchro.rs:234-278 | outcome and report of balances then transactions, whatever fails |
| SyncWorker.Worker.PublishSuccess | src/domain/synchro.rs:296-325 | the events of a success, in order, with the same count twice |
| SyncWorker.Worker.HandleFailure | src/domain/synchro.rs:327-349 | only an invalid consent expires, is counted and is announced, once the database marked it |
| SyncWorker.Worker.SyncAccount | src/domain/synchro.rs:165-232 | trace, report and abort of one account for every combination of answers |
| SyncWorker.Worker.Execute | src/domain/synchro.rs:148-163 | a cycle adds the accounts' events and counts, and stops at the first database failure |
| SyncLaws.AccountCloses | src/domain/synchro.rs:165-232 | the events of one account form a closed bracket |
| SyncLaws.TraceIsBracketed | src/domain/synchro.rs:148-232 | in every cycle, cut short or not, each start is closed by exactly one success or failure of its account before the next, and a success repeats the count just announced |
| SyncLaws.ReportTellsTheTrace | src/domain/synchro.rs:148-349 | in every cycle the report's synchronised, expired and inserted counts are those of the trace, and starts equal successes plus failures |
| SyncLaws.EvaluatedAccountsAddUp | src/domain/synchro.rs:148-232 | in a completed cycle all due accounts are evaluated, and they are those synchronised, refused, expired before their slot, or failed |
| SyncLaws.AloneNothingIsSkipped | src/repository/bank_accounts.rs:402-412 | a worker alone on a fresh due list skips nothing and meets no expired consent before a slot |
| SyncQuotaLaws.StartsAreGrants | src/domain/synchro.rs:185-200 | over any interleaving of visits by any workers, the `SyncStarted` events of an account on a day are its slots granted that day |
| SyncQuotaLaws.StartsWithinQuota | src/domain/synchro.rs:185-200 | they number at most the quota, as long as the account's days never go back |
| CycleLaws.LastDayIsDaysInMonth | src/domain/cycle.rs:48-60 | the eve of the next first is the last day of the month in the Gregorian calendar, leap years included |
| CycleLaws.NextMonthIsAfter | src/domain/depense.rs:37-44 | the first of the next month comes as many days later as the month has |
| CycleLaws.EveIsOneBefore | src/domain/cycle.rs:55-59 | the day before a date is valid and one day earlier in the count of days |
| CycleLaws.BoundsOf | src/domain/cycle.rs:83-101 | both bounds of a cycle are real dates: the start day of the month before and of the month named, shortened where the month is |
| CycleLaws.CyclesAbut | src/domain/cycle.rs:83-109 | each cycle ends where the next starts and starts where the previous ends, for every start day |
| CycleLaws.CycleLengthAndName | src/domain/cycle.rs:78-88 | a cycle lasts 28 to 31 days and its last day is in the month it is named after |
| CycleLaws.EarlierCycleEndsBefore | src/domain/cycle.rs:103-109 | cycles of the same start day never overlap |
| CycleLaws.EachDateInOneCycle | src/domain/cycle.rs:78-101 | a cycle contains a date if and only if it is the one cycle of that date |
| Spending.AmountsByCategory | src/repository/depenses.rs:42-79 | the map holds exactly the categories of counted rows, each with its total |
| Spending.Distribute | src/repository/depenses.rs:103-136 | the total is that of all counted rows and of the lines, and the index of the lines gives each known category what was spent in it |
| SpendingLaws.SpentSplits | src/repository/depenses.rs:53-55 | spending over an interval is that of its two halves |
| SpendingLaws.CyclesPartitionSpending | src/repository/depenses.rs:42-79 | the queries of consecutive cycles, any number of them, add up for each category to what was spent from the start of the first to the end of the last |
| Median.SortInPlace | src/domain/agregation.rs:60-60 | the slice becomes the sorted listing of its values |
| Median.ComputeMedian | src/domain/agregation.rs:56-67 | the median of the slice, which is only permuted |
| Median.PaddingCompletes | src/domain/agregation.rs:47-47 | padding the amounts present with zeros gives one amount per month, zero where the category is absent |
| Median.Collect | src/domain/agregation.rs:34-42 | exactly the categories that appear, each with its amounts month by month |
| Median.MediansByCategory | src/domain/agregation.rs:33-52 | exactly the categories with a positive median over all months, with that median |
| MedianLaws.MedianIsRobust | src/domain/agregation.rs:3-5 | with an odd number of values, replacing fewer than half leaves the median between two untouched values |
| MedianLaws.MedianIsPositive | src/domain/agregation.rs:56-67 | the exact condition under which non-negative amounts have a positive median, for odd and even numbers |
| MedianLaws.PredictedExactlyWhenUsual | src/domain/agregation.rs:29-32 | over an odd number of months a category is predicted if and only if it is positive in more than half of them |
| MedianLaws.AmountsAreSpending | src/handlers/previsionnel.rs:49-68 | the amounts behind a median are what was spent in the category in each past cycle |
| Forecast.Accumulate | src/domain/previsionnel.rs:70-83 | the amount left is the sum over planned categories of plan minus realised, floored at zero, with one line per category |
| Forecast.Project | src/domain/previsionnel.rs:53-109 | the projected balance is the current one plus income left minus expenses left, with the lines of both plans |
| ForecastLaws.OperationMovesByExcess | src/domain/previsionnel.rs:50-52 | recording an operation in balance and category moves the projection only by what exceeds what the category had left, down for an expense, up for an income |
| ForecastLaws.ProjectionIsConserved | src/domain/previsionnel.rs:50-52 | the same over every sequence of operations |
| ForecastLaws.WithinPlanNothingMoves | src/domain/previsionnel.rs:50-52 | operations within what their categories had left do not move the projection at all |
| ForecastLaws.RowIsAnOperation | src/handlers/previsionnel.rs:37-47 | one more row in the cycle and in the balance is one operation recorded in the books that the distributions give; without a known category it moves the balance only |
| ForecastLaws.RowMovesProjectionByExcess | src/handlers/previsionnel.rs:37-47 | such a row moves the projected balance by exactly its excess over what its category had left, or by its whole amount without a known category |
| AmountLaws.CentsAreNearest | src/adapters/bank/enable_banking/mapping.rs:33-49 | three decimals decide the nearest cent of any number of decimals, halves up |
| AmountLaws.WellFormedIsReadExactly | src/adapters/bank/enable_banking/mapping.rs:14-31 | every well-formed text is read as its nearest cent, halves away from zero, if and only if it fits in 64 bits |
| AmountLaws.WholePartBound | src/adapters/bank/enable_banking/mapping.rs:30-30 | the greatest whole part that always keeps the cents within 64 bits, and what happens above it |
| AmountLaws.AcceptedTexts | src/adapters/bank/enable_banking/mapping.rs:14-55 | a text is accepted if and only if it is well formed with a whole part that fits, or carries a second sign |
| AmountLaws.DoubleSignReadRightExactly | src/adapters/bank/enable_banking/mapping.rs:14-31 | a text with a second sign is read as what both signs give if and only if that fits and the second is a plus or there are no cents; behind a minus the cents are added on the wrong side |
| AmountLaws.DoubleSignMisread | src/adapters/bank/enable_banking/mapping.rs:51-55 | a concrete such text, `+-5.25`, is read as -475 cents |
| AmountLaws.PrintedAmountIsReadBack | src/adapters/bank/enable_banking/mapping.rs:14-31 | a printed 64-bit amount is read back as itself if and only if it is not the least one |

## Left out

- HTTP handlers beyond the reconciliation loop, DTOs, authentication, configuration and the MQTT relay: no property of their own.
- Encryption, HMAC and JWT: foreign libraries, taken as the identity and an injective key.
- Category deletion: its effect on transactions is in a migration, not part of this model.
- Consent attachment and renewal, owner erasure, IBAN masking, pagination, consolidated balance, envelopes, remaining budget: each adds only short claims.
- Which rows are listed when there are more than 5000: the query leaves it open, and every choice is allowed.
- SecondRunLaws.SecondRunChangesNothingExactly: beyond the limit, with several rules, the exact condition is stated on the table the first run leaves and not on the one it starts from: how many rows the earlier rules can spare for a later listing depends on how the rows they match overlap.
- Which of two rules tied on priority and creation comes first in a batch: the query leaves it open. Rank and outcome are still proved to agree.
- Display order of spending and forecast lines (`trier_par_montant_decroissant`, `trier_lignes`): `Distribute` and `Project` give the lines unsorted.
- Full Unicode casing and white space, and the rounding of `f64` scores: scores are exact.
- Overflow of 64-bit integers outside amount parsing, and of dates outside the years the calendar library knows.
- `Overflow` in amount parsing stands for whatever the build does then: a panic, or a wrapped value.
- Words are told apart by spaces: `DerivedRuleMatchesExactly` takes labels whose words are not empty and hold no space, as splitting gives them.
- Sign flip by credit or debit indicator in `vers_transaction`, and the rest of the mapping of bank messages: one conditional negation.
- Failures while rules are applied to a newly stored transaction: the program logs them and leaves the row uncategorised; `Save` models the run without failure.
- Marking rows as recurring after detection, and the recomputation the worker triggers: the detection alone is modelled.
- Selection of income categories in the forecast handler: plans are given to `Project`.
- Reconciliation.Store.Reconcile: modelled without another client writing between its statements; what survives any interleaving is in `TransactionLaws`.
