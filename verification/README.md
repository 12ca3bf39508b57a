# iaam: a verified model of the accounting core and the bank importer

This project models the parts of iaam that decide numbers and identities: the
importer that turns a bank export into operations, the fold that finds stretches
of negative cash, batch totals and their comparison with a printed control
section, the category rules with the preview of a rule, the market
synchronisation schedule, and six smaller self-contained algorithms. Loops and
mutable state are methods and classes proved against specification functions;
the promises of the code are lemmas about those functions, over every input or
every run.

## Layout

| files | what they hold |
|---|---|
| `Outcomes`, `StableSorting`, `Sums`, `Texts`, `KeyOrder` | shared vocabulary: options and results, a stable sort, order-free sums, splitting and numerals, key order |
| `ExportRows`, `TransferPairing`, `PairingLaws`, `PairingQuality`, `PairingMoments` | the greedy pairing of transfer legs |
| `ImportBuild`, `ImportRun`, `ImportConservation`, `ImportKeys`, `ImportOutput`, `ImportStability`, `ImportLimits`, `ImportMeaning` | building operations, counters, ordinals and keys; what a run conserves, what stays the same from run to run, and where its promises end |
| `NegativeRuns`, `Perimeter`, `PerimeterFold`, `PerimeterLaws`, `PerimeterDates`, `PerimeterVerdicts` | negative-cash spans of a whole journal |
| `Money`, `BatchTotals`, `BatchControl`, `BatchCompare`, `BatchFigures` | checked 64-bit amounts, batch totals, the control comparison |
| `Categories`, `CategoryImpact`, `CategoryImpactLaws`, `CategoryImpactOrder`, `CategoryMatches`, `CategoryImpactRows` | assignment by rules, the preview, the grouped impact |
| `MarketJobs`, `MarketRequests` | the daily schedule as a state machine |
| `DeclaredNames`, `JsonPointers`, `Bisection`, `NetPresentValues`, `PriceBoards`, `Contours`, `Retirements` | the smaller cores |

Each large operation is also said once more in plain terms (`PairingMoments`,
`ImportMeaning`, `PerimeterVerdicts`, `BatchFigures`, `CategoryMatches`,
`CategoryImpactRows`, `MarketRequests`): what comes out, in the columns, texts, dates
and amounts that went in, without the functions the operation is specified by.

Dates and moments are integers (day numbers, seconds), identifiers are integers
or texts, a posted amount is a bounded 64-bit integer, and an amount of the bank
export is a whole number of the smallest decimal unit its file prints. What the
outside world answers (the digest of a raw line, the lower-case form of a text,
what a market source replies, the value of a rate) is a parameter.

## What the proofs found

- A leg of an internal transfer whose amount is zero is on neither side of the
  pairing and in no list, so the importer's `unaccounted` figure is exactly the
  number of such legs, and nothing else can make it differ from zero.
- The row key leaves out the day while the counter that numbers rows includes it,
  so the keys of a run are pairwise distinct if and only if, among the rows that
  carry a key, equal raw lines of one account fall on one day. A raw line prints its
  own day, but a row is not always given its own line: the importer's `main` reads
  rows with a CSV reader, which skips a blank line, and pairs them with the lines of
  the file, which keep it, so the rows behind a blank line carry earlier lines.
- The greedy pairing finds at least half of the transfers any pairing could, and a
  four-row file shows that no better factor holds.
- `account_summary` files a transfer on its sender only. Its `net` is the account's
  movement exactly when no submitted transfer brings money into the account;
  otherwise it understates it, where the importer's README (line 135) calls it net movement.
- Negative spans go forward in time, over all journals with given effective dates,
  if and only if those dates do not go back in replay order. Otherwise two events
  suffice for a span that ends before it starts and is taken for a settlement
  deficit. Both ingest paths order an event by its effective date
  (`crates/iaam-ingest/src/operation.rs:482-504`,
  `crates/iaam-ingest/src/journal_event.rs:137-176`), so an event that breaks the
  condition comes from elsewhere: `assess_effective` itself does not check it.
- Net external flow of two disjoint contours adds up to that of their union but for
  an exact leftover of each event. The structure check of an event leaves the account
  of a `CashIn` or `CashOut` leg open (`crates/iaam-core/src/event/mod.rs:467-471`),
  and one such leg on another account already breaks the sum.
- The preview of a description rule calls the proposal «the newest rule of its
  kind» (`crates/iaam-core/src/category.rs:303`), but the stored rule competes on
  text length first. The two agree exactly under the condition `PreviewHolds`.
- A scheduled run against a source that is down puts the day on record, so the
  next run asks from the correction window on. The comment at
  `crates/iaam-app/src/jobs.rs:303-309` says tomorrow's run covers the missed day;
  the initial history before the window is never asked for again.
- Grouping the impact of a rule adds amounts in row order with a check at each step.
  The order of the rows decides nothing if and only if they cannot be reported at all
  or the outflows and the refunds of every group each fit 64 bits. The one caller
  passes outflows alone (`crates/iaam-app/src/scenarios/categories.rs:238-240`), and
  for those the condition always holds.

## Model

| member | source | states |
|---|---|---|
| TransferPairing.SidesAreInTimeOrder | tools/tbank-csv-import/import.py:62-71 | the outgoing and incoming sides are in time order, legs of one moment in file order |
| TransferPairing.SplitLegs | tools/tbank-csv-import/import.py:62-71 | the three-way split and the two sorts compute the two sides and the ordinary rows |
| TransferPairing.FindNearest | tools/tbank-csv-import/import.py:74-82 | the inner scan returns the nearest free incoming leg of the same magnitude within the tolerance |
| TransferPairing.PairOutgoing | tools/tbank-csv-import/import.py:72-87 | the outer loop makes the greedy choice, leg by leg |
| TransferPairing.PairLegs | tools/tbank-csv-import/import.py:54-93 | the whole function returns the pairing of the file |
| TransferPairing.ScanFindsNearest | tools/tbank-csv-import/import.py:74-82 | what the scan finds is free, joinable, no farther than any other such leg, and the first of the nearest; it finds nothing only where nothing is joinable |
| TransferPairing.GreedyChoiceIsGreedy | tools/tbank-csv-import/import.py:72-87 | every outgoing leg in turn takes a nearest incoming leg that the legs before it left free |
| TransferPairing.GreedyIsDetermined | tools/tbank-csv-import/import.py:72-87 | that description admits one choice only |
| PairingLaws.PairingPartitionsTheFile | tools/tbank-csv-import/import.py:54-93 | every row of every file is in exactly one place: one side of one pair, the singles, or the zero-amount legs |
| PairingLaws.PairingIsSound | tools/tbank-csv-import/import.py:72-87 | every pair is an outgoing and an incoming leg of opposite amounts within the tolerance |
| PairingLaws.PairingIsMaximal | tools/tbank-csv-import/import.py:72-91 | no two legs left single could still be joined |
| PairingQuality.PairsFormMatching | tools/tbank-csv-import/import.py:72-87 | no row is used by two pairs |
| PairingQuality.GreedyIsHalfOfTheBest | tools/tbank-csv-import/import.py:72-87 | no pairing of the file joins more than twice as many transfers |
| PairingQuality.HalfIsReached | tools/tbank-csv-import/import.py:72-87 | on four crossed legs the greedy pairing finds one of two transfers, so no better factor holds (`CrossedLegsExist` gives such a file) |
| PairingMoments.PairsMeet | tools/tbank-csv-import/import.py:72-87 | in columns: the legs of every pair carry the internal description, opposite amounts, and moments no more than the tolerance apart, either first |
| PairingMoments.SinglesDoNotMeet | tools/tbank-csv-import/import.py:72-91 | two mirrored legs left single are posted further apart than the tolerance |
| PairingMoments.TakenLegIsNearest | tools/tbank-csv-import/import.py:74-82 | of the mirrored legs nothing had taken by its turn, an outgoing leg took one no further in moments than any other, and of equally near ones the first |
| PairingMoments.PassedOverLegWasTaken | tools/tbank-csv-import/import.py:74-84 | an outgoing leg is single only where every mirrored leg within the tolerance had been taken before its turn |
| PairingMoments.PairsTakeTurns | tools/tbank-csv-import/import.py:65-87 | pairs come by the moment of their outgoing leg, and of one moment by place in the file |
| PairingMoments.SinglesComeInOrder | tools/tbank-csv-import/import.py:83-92 | singles are the legs that left and the legs that arrived, each in time order, then the ordinary rows in file order |
| ImportRun.PairingIsProper | tools/tbank-csv-import/import.py:54-93 | the pairing names rows of the file and no row twice, which the build relies on |
| ImportRun.CanonicalAccounts | tools/tbank-csv-import/import.py:352-363 | the account table holds exactly the rows that will be submitted, each with its own account |
| ImportRun.NumberRows | tools/tbank-csv-import/import.py:365-412 | the two counting passes over one counter give every numbered row its ordinal |
| ImportRun.KeyedRowsAreNumbered | tools/tbank-csv-import/import.py:414-490 | every key the build asks for has an ordinal |
| ImportRun.BookAllPairs | tools/tbank-csv-import/import.py:414-449 | the loop over the pairs keeps the specified book of operations, dropped legs and counters |
| ImportRun.BookAllSingles | tools/tbank-csv-import/import.py:451-490 | the loop over the singles continues it |
| ImportRun.Build | tools/tbank-csv-import/import.py:335-497 | the whole run returns the specified operations and summary |
| ImportMeaning.FlowIsPlain | tools/tbank-csv-import/import.py:271-305 | a row that is no transfer is a withdrawal unless its amount is positive, and then an income, a deposit or a refund by the bank's category |
| ImportMeaning.OperationsMeanTheirRows | tools/tbank-csv-import/import.py:285-497 | the rows submitted are those of the contour that are ordinary or stand for their pair, in file order; each operation has its row's magnitude, day, categories and key, and is a transfer between the two paired or declared accounts or the plain kind on the row's account |
| ImportMeaning.CountersCountRows | tools/tbank-csv-import/import.py:414-490 | skipped rows are the rows outside the contour without the zero-amount legs, and own transfers the contour's rows with a declared counterparty |
| ImportMeaning.UnmatchedPointAtTheirRows | tools/tbank-csv-import/import.py:456-478 | the unmatched legs reported are the contour's legs that no pair holds, each once, with its line and columns |
| ImportMeaning.DroppedPointAtTheirRows | tools/tbank-csv-import/import.py:423-441 | the dropped legs reported are the incoming legs of the pairs inside the contour, each once, in pair order, with its line and columns |
| ImportConservation.UnaccountedAreTheZeroLegs | tools/tbank-csv-import/import.py:670-676 | submitted, dropped, skipped and unmatched rows fall short of the file by exactly the zero-amount internal legs, and the counters agree with their lists |
| ImportConservation.RunConserves | tools/tbank-csv-import/import.py:285-332 | over every file, the signed effect of a run's operations on an account is its rows' amounts, without its unmatched legs, plus the opposite of what rows declared to face it moved |
| ImportConservation.RunConservesPlainly | tools/tbank-csv-import/import.py:414-490 | with no declared counterparties the effect is the rows' amounts without the unmatched legs |
| ImportKeys.OrdinalIsPlaceInGroup | tools/tbank-csv-import/import.py:365-393 | an ordinal is the row's place, from one, among the numbered rows of its account, day and digest |
| ImportKeys.OrdinalsDiffer | tools/tbank-csv-import/import.py:365-393 | two rows of one group never share an ordinal |
| ImportKeys.OrdinalsAreDense | tools/tbank-csv-import/import.py:365-412 | a group of n rows uses every ordinal from 1 to n, across both passes |
| ImportKeys.NumberedOnce | tools/tbank-csv-import/import.py:365-412 | no row is numbered twice |
| ImportKeys.RowKeyIsInjective | tools/tbank-csv-import/import.py:44-47 | within a channel a key names one account, digest and ordinal |
| ImportKeys.RowKeySplits | tools/tbank-csv-import/import.py:44-47 | digest and ordinal read back out of a key whatever slashes the account and channel hold |
| ImportOutput.RunFollowsTheFile | tools/tbank-csv-import/import.py:492-496 | one operation for each submitted row, in file order, under that row's own key |
| ImportOutput.RunKeysAreDistinctIff | tools/tbank-csv-import/import.py:365-412 | the keys a run prints are pairwise distinct if and only if equal raw lines of one account among the keyed rows fall on one day |
| ImportLimits.SharedLineRepeatsAKey | tools/tbank-csv-import/import.py:365-375 | any file with two ordinary rows of one account, one raw line and two days makes a run print a key twice |
| ImportLimits.SharedLineFileExists | tools/tbank-csv-import/import.py:365-375 | for every digest that prints no slash, every account of the contour and every line there is such a file |
| ImportStability.GroupHasItsFirstKeys | tools/tbank-csv-import/import.py:365-393 | a group of n numbered rows has exactly its first n keys, whatever the rest of the file |
| ImportStability.GroupKeysAreStable | tools/tbank-csv-import/import.py:377-393 | across two runs, whatever else their files and tolerances, the keys of a group depend on its size alone, the smaller using a part of the larger's |
| ImportStability.UniqueRowKeepsItsKey | tools/tbank-csv-import/import.py:377-412 | a row unique by account, day and digest in two exports keeps its key from one run to the other |
| ImportOutput.DroppedLegsAreFolded | tools/tbank-csv-import/import.py:414-449 | every dropped leg names, by key, a submitted transfer that carries its money |
| ImportOutput.SummaryNetIsMovementIff | tools/tbank-csv-import/import.py:531-558 | the summary's net never exceeds the account's movement, and equals it exactly when no submitted transfer is received |
| ImportLimits.PairedTransferLowersNet | tools/tbank-csv-import/import.py:531-558 | every pair inside the contour puts the receiver's net below its movement |
| ImportLimits.OneTransferLowersNet | tools/tbank-csv-import/import.py:531-558 | a file of one transfer between two accounts of the contour is such a file |
| NegativeRuns.RunsAreTheNegativeRuns | crates/iaam-core/src/perimeter.rs:301-335 | the intervals opened and closed leg by leg are exactly the maximal stretches of negative balance, in order |
| NegativeRuns.OpenIffFinallyNegative | crates/iaam-core/src/perimeter.rs:301-335 | an interval is left open exactly when the final balance is negative, and then only the last |
| PerimeterFold.PostLeg | crates/iaam-core/src/perimeter.rs:306-330 | posting a leg keeps the three tables true to every key's own legs; it fails exactly on overflow of that key |
| PerimeterFold.DetectFinancing | crates/iaam-core/src/perimeter.rs:286-299 | the accounts charged margin interest anywhere in the journal |
| PerimeterFold.AssessEffective | crates/iaam-core/src/perimeter.rs:272-342 | the whole fold returns the sorted spans of every key, or the first undated event, or the first overflow |
| PerimeterVerdicts.SpansAreCalled | crates/iaam-core/src/perimeter.rs:344-372 | every span of every assessed journal is a margin liability if and only if its account was charged margin interest, else a settlement deficit if and only if it was resolved within the window, else unclassified |
| PerimeterVerdicts.ReportsAreBlockedIff | crates/iaam-core/src/perimeter.rs:229-240 | reports are blocked if and only if the account has a span and was charged margin interest, or has one unresolved or longer than the window |
| PerimeterVerdicts.SpansComeInOrder | crates/iaam-core/src/perimeter.rs:332-341 | spans come by start, account and currency |
| PerimeterVerdicts.LeftNegativeIffCashIs | crates/iaam-core/src/perimeter.rs:301-336 | a key has one unresolved span exactly when all the cash the journal's legs moved on it, securities aside, is negative |
| PerimeterLaws.OneUnresolvedIffNegative | crates/iaam-core/src/perimeter.rs:301-336 | a key has one unresolved span if its final balance is negative and none otherwise |
| PerimeterLaws.EntriesAreChronological | crates/iaam-core/src/perimeter.rs:272-284 | where replay order agrees with effective dates the legs are posted in date order |
| PerimeterLaws.SpansFollowInTime | crates/iaam-core/src/perimeter.rs:301-342 | where a key's own legs are posted in date order its spans do not overlap and none ends before it starts |
| PerimeterDates.RunsGoForwardIff | crates/iaam-core/src/perimeter.rs:301-331 | over all legs of one key on given dates, no negative interval ends before it starts if and only if the dates do not go back |
| PerimeterDates.SpansGoForwardIff | crates/iaam-core/src/perimeter.rs:272-342 | over all dated journals, no assessed span ends before it starts if and only if the effective dates do not go back in replay order |
| PerimeterDates.SpanMayEndBeforeItStarts | crates/iaam-core/src/perimeter.rs:272-372 | a journal of two events, the second dated before the first, is assessed with one span that ends before it starts, taken for a settlement deficit |
| PerimeterLaws.AccountsAreIsolated | crates/iaam-core/src/perimeter.rs:229-233 | two dated journals that agree on an account's own cash legs and on whether it was charged margin interest have the same spans and the same verdict for it; where the first is assessed, the second can fail only by the overflow of another account |
| PerimeterLaws.UnconcernedEventsDoNotMatter | crates/iaam-core/src/perimeter.rs:229-233 | so it is after any events are left out that neither move the account's cash nor charge it margin interest |
| PerimeterLaws.WiderWindowNeverBlocks | crates/iaam-core/src/perimeter.rs:344-372 | widening the settlement window moves no span and blocks no further account |
| PerimeterLaws.SpansAreDetermined | crates/iaam-core/src/perimeter.rs:332-341 | order and each key's spans fix the whole list |
| PerimeterLaws.AssessmentForgetsOrder | crates/iaam-core/src/perimeter.rs:272-342 | any permutation of a dated journal has the same assessment, failure included |
| BatchTotals.Fold | crates/iaam-core/src/batch.rs:116-133 | one movement is folded into the exact sums of its key, or its key overflows |
| BatchTotals.TotalOfBucket | crates/iaam-core/src/batch.rs:134-146 | the final net subtraction cannot fail |
| BatchTotals.Total | crates/iaam-core/src/batch.rs:114-147 | the fold returns the exact totals in key order, or an overflow |
| BatchCompare.TotalsAreExact | crates/iaam-core/src/batch.rs:114-147 | a batch totals if and only if both sums of every key fit 64 bits; keys ascend strictly and each total is exact; overflow is the only failure |
| BatchCompare.TotalsForgetOrder | crates/iaam-core/src/batch.rs:114-147 | any permutation of the movements gives the same result, failure included |
| BatchControl.CollectChecks | crates/iaam-core/src/batch.rs:520-563 | the checks pushed for one section, or the first arithmetic failure |
| BatchControl.ChecksAreFaithful | crates/iaam-core/src/batch.rs:520-592 | checking fails only where a difference or derived balance cannot be posted; otherwise each stated figure has one check, of the section's own claim against the total's debit, credit or opening plus net, matched exactly when they are equal, and a closing without an opening is not checked |
| BatchControl.ChecksAreDetermined | crates/iaam-core/src/batch.rs:520-563 | one list of checks meets that description |
| BatchControl.ClosingMatchesIff | crates/iaam-core/src/batch.rs:541-563 | the closing check matches exactly when opening plus net is closing |
| BatchControl.ClosingChecksCompose | crates/iaam-core/src/batch.rs:541-563 | where a matched statement meets the next at one balance, the next matches exactly when the two together do over the concatenated rows |
| BatchCompare.StatementsCompose | crates/iaam-core/src/batch.rs:442-486 | the same of three whole comparisons: given that the first closes on its rows, the second does exactly when the third does over the rows of both |
| BatchControl.ComputeFit | crates/iaam-core/src/batch.rs:494-517 | the loop computes the specified fit |
| BatchControl.FitAccountsForEveryRow | crates/iaam-core/src/batch.rs:494-517 | outside and undated each count their own rows, and with the rows inside they are the rows of the total |
| BatchControl.FitSpanIsExact | crates/iaam-core/src/batch.rs:494-517 | the span is the earliest and latest outside day, and absent exactly when nothing is outside |
| BatchCompare.CompareBatch | crates/iaam-core/src/batch.rs:442-486 | total, then compare key by key in order, the first failure ending it |
| BatchCompare.CompareIsExact | crates/iaam-core/src/batch.rs:442-486 | a comparison succeeds if and only if every sum, derived balance and difference can be posted; it holds one exact entry for each key either side names, in key order |
| BatchFigures.EntriesAreTheKeysNamed | crates/iaam-core/src/batch.rs:442-455 | one entry for each account and currency a row or a section names, by account and then currency |
| BatchFigures.ObservedIsTheRows | crates/iaam-core/src/batch.rs:114-147 | what is observed is the number of the key's rows, what arrived, what left and the sum of the amounts |
| BatchFigures.FitIsTheRows | crates/iaam-core/src/batch.rs:442-517 | the section is the first printed for the key; outside are the rows dated before its first or after its last day, both days inside |
| BatchFigures.TotalOverflowsIff | crates/iaam-core/src/batch.rs:114-147 | totalling fails exactly when what arrived or what left on some key exceeds the greatest 64-bit amount |
| Categories.AssignIsTheMaximum | crates/iaam-core/src/category.rs:254-291 | the three filtered passes return a rule in force that no other outranks by tier, text length, version and id; nothing is assigned exactly when no rule covers and matches |
| CategoryMatches.OneRuleFilesIff | crates/iaam-core/src/category.rs:50-55 | one rule files a row if and only if its interval holds the date, both ends included, and the row's own field equals, starts with or holds its non-empty text, as its matcher asks (`matches`, lines 140-181) |
| CategoryMatches.TheStrongestFiles | crates/iaam-core/src/category.rs:254-302 | of many rules one that files the row alone does, every other such rule yielding to it by kind, text length, version and id; none does exactly when no rule files it alone |
| CategoryMatches.PreviewIs | crates/iaam-core/src/category.rs:304-332 | the preview is the proposal's answer exactly when the proposal can file the row and no rule of a stronger kind can |
| Categories.AssignIsTheWinner | crates/iaam-core/src/category.rs:254-302 | with distinct ids that rule is unique and is the answer |
| Categories.AssignIgnoresOrder | crates/iaam-core/src/category.rs:248-253 | the order of the rules decides nothing |
| Categories.PreviewAgreesIff | crates/iaam-core/src/category.rs:304-332 | for every row, rule list and proposal, the preview equals the assignment with the proposal stored as newest, in any order, if and only if `PreviewHolds` |
| Categories.PreviewCanMislead | crates/iaam-core/src/category.rs:304-332 | a row and two rules on which the preview moves the row and storing does not |
| CategoryImpact.AddRow | crates/iaam-core/src/category.rs:372-386 | one row is added to its group's exact sums, or the exact failure in the order the code tries it |
| CategoryImpact.Months | crates/iaam-core/src/category.rs:388-410 | groups read in key order become months: strictly ascending, none empty, one line a group |
| CategoryImpact.GroupImpacts | crates/iaam-core/src/category.rs:365-416 | the result is the grouping of the rows, or the failure of the first row that has one |
| CategoryImpactRows.MovesAreOfRows | crates/iaam-core/src/category.rs:365-416 | a reported move is the negated amounts and the number of the rows of its month, two categories and currency, at least one |
| CategoryImpactRows.EveryRowIsMoved | crates/iaam-core/src/category.rs:365-416 | every row is of some reported move |
| CategoryImpactRows.NoRowIsMovedTwice | crates/iaam-core/src/category.rs:365-416 | and of no second one |
| CategoryImpactRows.MovesComeInOrder | crates/iaam-core/src/category.rs:365-416 | months ascend, and moves of a month by old category, new category and currency |
| CategoryImpactLaws.ImpactIsDetermined | crates/iaam-core/src/category.rs:365-416 | the rows fix the months: one result is possible |
| CategoryImpactLaws.ImpactIgnoresOrder | crates/iaam-core/src/category.rs:365-416 | the order of the rows is forgotten |
| CategoryImpactLaws.ImpactConserves | crates/iaam-core/src/category.rs:365-416 | per currency the reported amounts are the negated outflows, and every row is counted in one move |
| CategoryImpactLaws.OutflowsFailIff | crates/iaam-core/src/category.rs:372-386 | outflows group if and only if each can be negated, each group's sum fits and the rows can be counted |
| CategoryImpactLaws.OutflowsFailTogether | crates/iaam-core/src/category.rs:372-386 | for outflows, any order succeeds or none does |
| CategoryImpactOrder.OrderDecidesNothingIff | crates/iaam-core/src/category.rs:372-386 | every order of the rows groups alike if and only if the rows cannot be reported or each side of every group fits 64 bits |
| CategoryImpactOrder.MixedSidesHaveBothOrders | crates/iaam-core/src/category.rs:372-386 | otherwise some order groups and some order overflows |
| CategoryImpactOrder.OutflowsHaveOneSide | crates/iaam-core/src/category.rs:372-386 | outflows that can be reported always meet the condition |
| MarketJobs.MarketSyncJob.RunIfDue | crates/iaam-app/src/jobs.rs:235-264 | a scheduled run: what is asked, and the day put on record when the answer spends it |
| MarketJobs.MarketSyncJob.RunNow | crates/iaam-app/src/jobs.rs:267-290 | a manual run: asked whatever the hour, on record only when it succeeds |
| MarketJobs.RunKeepsLog | crates/iaam-app/src/jobs.rs:63-86 | in every run with a clock that does not go back, attempts are in date order, no scheduled attempt falls on a recorded day, and after the first recorded day every range starts at the correction boundary |
| MarketJobs.JobRemembersLastDay | crates/iaam-app/src/jobs.rs:235-290 | in every run the remembered day is that of the last recorded attempt |
| MarketRequests.DayIsOnRecordIff | crates/iaam-app/src/jobs.rs:235-318 | in every run the day on record is that of the last attempt that succeeded or was scheduled and found its source down or refusing |
| MarketRequests.ScheduledRunAsksIff | crates/iaam-app/src/jobs.rs:62-86 | after any steps a scheduled run asks if and only if the series is active, the market has closed and the day on record is another; the range is the one the schedule names |
| MarketRequests.ScheduledRunAsksOncePerDay | crates/iaam-app/src/jobs.rs:62-86 | with a clock that does not go back: if and only if active, closed, and no attempt of that day has spent it |
| MarketRequests.ManualRunAsksIff | crates/iaam-app/src/jobs.rs:88-99 | a manual run asks if and only if the series is active |
| MarketJobs.ADayIsSpentOnce | crates/iaam-app/src/jobs.rs:63-65 | scheduled runs spend a date at most once |
| MarketJobs.CoveredIffNoGap | crates/iaam-app/src/jobs.rs:72-86 | fetched ranges cover every day to the last success if and only if one reaches back to the first day and no neighbours end more than the correction window plus one day apart |
| MarketJobs.RunCoversIff | crates/iaam-app/src/jobs.rs:72-86 | the same of every run |
| MarketJobs.HistoryIsFetched | crates/iaam-app/src/jobs.rs:72-86 | if the first recorded attempt succeeded and no gap opens, every day from the padded first event to the last success is fetched |
| MarketJobs.InitialHistoryIsFetchedOnce | crates/iaam-app/src/jobs.rs:303-315 | a day older than the first recorded attempt's correction window is ever fetched if and only if that attempt succeeded and reached back to it |
| MarketJobs.FailedFirstAttemptLosesHistory | crates/iaam-app/src/jobs.rs:303-315 | after a first attempt against a source that is down, no continuation of the run fetches a day before the correction window |
| DeclaredNames.ImportReadsBack | crates/iaam-core/src/ids.rs:181-195 | owner, account, channel and label read back out of an import's name |
| DeclaredNames.ReadImportIsStrict | crates/iaam-core/src/ids.rs:181-195 | the reader accepts a text if and only if it is the name of a declaration, the one it returns |
| DeclaredNames.ImportNameIsInjective | crates/iaam-core/src/ids.rs:181-195 | two imports share a name only if they are one declaration |
| DeclaredNames.SourceNameIsInjective | crates/iaam-core/src/ids.rs:150-158 | two sources share a name only if they are one declaration |
| DeclaredNames.NamesOfTwoKindsMeetIff | crates/iaam-core/src/ids.rs:134-140 | a source's name is an import's exactly when its channel spells that import's tail, which separate namespaces guard against |
| DeclaredNames.WithoutLengthCollidesIff | crates/iaam-core/src/ids.rs:181-184 | without the length two declarations share a name if and only if they agree or a slash slides from one's label into the other's channel |
| DeclaredNames.WithoutLengthTwoImportsShareAName | crates/iaam-core/src/ids.rs:181-184 | the pair the comment names collides without the length and not with it |
| JsonPointers.JsonPointer | crates/iaam-app/src/error.rs:301-321 | the nested loops print the pointer of the field's non-empty tokens |
| JsonPointers.PointerReadsBack | crates/iaam-app/src/error.rs:297-321 | for all tokens the pointer meets the grammar of RFC 6901 section 3 and reads back, as section 4 says, as those tokens |
| JsonPointers.FieldReadsBack | crates/iaam-app/src/error.rs:284-321 | the same for every field |
| JsonPointers.WordIsOneToken | crates/iaam-app/src/error.rs:303-310 | a text without dots and brackets is one token, and the empty text none |
| JsonPointers.SeparatorsPartTokens | crates/iaam-app/src/error.rs:303-310 | a dot or a bracket anywhere parts the tokens on either side of it, which with the row above fixes the tokens of every field |
| JsonPointers.PointersAgreeIff | crates/iaam-app/src/error.rs:284-321 | two fields share a pointer exactly when they name the same tokens |
| JsonPointers.BracketsAreDots | crates/iaam-app/src/error.rs:303-310 | an index in brackets and an index behind a dot transcribe alike |
| JsonPointers.TildesFirstMisreads | crates/iaam-app/src/error.rs:311-317 | decoding tildes first would read an escaped `~1` as a slash |
| Bisection.Xirr | scripts/gen-xirr-fixtures.py:44-59 | an error exactly when the ends share a sign; otherwise the estimate of four hundred halvings |
| Bisection.BracketNarrows | scripts/gen-xirr-fixtures.py:50-58 | after k steps: an exact zero, or a sign change of the first width halved k times whose low end keeps the first sign |
| Bisection.HalvedIsOverPower | scripts/gen-xirr-fixtures.py:50-51 | k halvings divide by two to the k |
| Bisection.SearchStaysInside | scripts/gen-xirr-fixtures.py:50-59 | the search stays in the interval it was given |
| Bisection.EstimateIsNearASignChange | scripts/gen-xirr-fixtures.py:44-59 | the answer is an exact zero or midway between two ends of a sign change |
| Bisection.MonotoneCrossesOnce | scripts/gen-xirr-fixtures.py:44-59 | a function strictly monotone within the bounds crosses zero once there |
| Bisection.RootStaysBracketed | scripts/gen-xirr-fixtures.py:50-58 | every bracket of the search holds the root of a function that crosses zero once within the bounds, whatever it does outside them |
| Bisection.EstimateIsNearTheRoot | scripts/gen-xirr-fixtures.py:44-59 | for such a function the answer is within the first width halved once more than the steps |
| Bisection.AnswerIsPrecise | scripts/gen-xirr-fixtures.py:44-47 | every ten steps are worth three decimal digits of that root |
| Bisection.XirrIsWithin | scripts/gen-xirr-fixtures.py:44-59 | the four hundred steps put the answer within the first width over 1000 to the power of 40 of the root that is crossed |
| NetPresentValues.Accumulate | scripts/gen-xirr-fixtures.py:32-41 | the loop over the flows comes to their discounted value |
| NetPresentValues.OutlaysFirstCrossOnce | scripts/gen-xirr-fixtures.py:32-41 | flows whose outlays come before their returns, two outlays and a return among them, have a present value that crosses zero once, from above to below |
| NetPresentValues.XirrIsPrecise | scripts/gen-xirr-fixtures.py:32-59 | the search over such flows finds the rate that balances them, three decimal digits for every ten steps |
| PriceBoards.PriceBoard.Record | crates/iaam-core/src/valuation.rs:84-89 | after any records the board holds the last price of every instrument and date |
| PriceBoards.PriceBoard.Observe | crates/iaam-core/src/valuation.rs:103-123 | an event records its price exactly when it is a dated valuation |
| PriceBoards.PriceBoard.PriceAtOrBefore | crates/iaam-core/src/valuation.rs:127-137 | the answer is that of a naive scan of the log |
| PriceBoards.PriceBoard.ObservationsAtOrBefore | crates/iaam-core/src/valuation.rs:142-151 | strictly descending, complete, and headed by the price at or before |
| PriceBoards.PriceBoard.Iter | crates/iaam-core/src/valuation.rs:155-162 | the latest observation of every instrument and of no other, instruments strictly ascending |
| PriceBoards.ScanIs | crates/iaam-core/src/valuation.rs:127-137 | a scan finds the last record of the greatest date no later than asked |
| PriceBoards.EarlierPricesStay | crates/iaam-core/src/valuation.rs:81-83 | later observations never change the answer about an earlier day |
| PriceBoards.ScanIgnoresOrder | crates/iaam-core/src/valuation.rs:84-89 | the order of records matters only within one instrument and date |
| Contours.EventFlowAdds | crates/iaam-core/src/contour.rs:144-195 | of any event, two disjoint contours' flows are their union's plus the event's leftover: a transfer's legs between them, or legs on the contour it does not cross |
| Contours.NetFlowAddsUpTo | crates/iaam-core/src/contour.rs:144-195 | the same identity over every journal |
| Contours.NetFlowAddsUpIff | crates/iaam-core/src/contour.rs:144-195 | flows add up at every point of a journal if and only if no event of it leaves anything over |
| Contours.MisplacedLegBreaksAdditivity | crates/iaam-core/src/contour.rs:144-195 | one inbound event with its leg on another account breaks the sum |
| Contours.NetFlowIsAdditive | crates/iaam-core/src/contour.rs:144-195 | net external flow is additive over disjoint contours where legs sit on the accounts their events name and transfers cancel |
| Contours.AccountsAddUpTo | crates/iaam-core/src/contour.rs:144-195 | over every journal the accounts of a contour add up to it and their leftovers |
| Contours.ContourIsSumOfAccounts | crates/iaam-core/src/contour.rs:144-195 | where legs sit on the accounts their events name and transfers cancel, a contour's flow is the sum of its accounts' flows |
| Contours.IndeterminateAddsUp | crates/iaam-core/src/contour.rs:178-187 | the events that cannot be placed add up, and no event is counted twice |
| Contours.WideningDecidesNothing | crates/iaam-core/src/contour.rs:106-125 | widening a contour leaves internal and undecidable events as they are and turns a crossing internal only when its other end was added |
| Contours.RelationIs | crates/iaam-core/src/contour.rs:144-195 | inbound exactly when money comes from outside to an account of the contour, outbound, internal and undecidable likewise, with the contour's version |
| Contours.FlowsAreDirected | crates/iaam-core/src/contour.rs:144-195 | over every journal net flow is the cash on the contour's accounts of what came in and of what went out |
| Retirements.RevisionCountsStatements | crates/iaam-core/src/retirement.rs:92-95 | in every run the revision is the number of accepted statements, at the end of the width included |
| Retirements.DeclareNumbers | crates/iaam-store/src/reference.rs:1527-1557 | a statement that may stand is appended at the next revision until the width is used up, and never after |
| Retirements.RetirementIsAcceptedIff | crates/iaam-core/src/retirement.rs:196-211 | after any statements a retirement is accepted if and only if the account is not retired, the day has come and revisions last; which refusal otherwise |
| Retirements.WithdrawalIsAcceptedIff | crates/iaam-core/src/retirement.rs:213-228 | a withdrawal is accepted if and only if the account is retired and revisions last |
| Retirements.PublishedStateIsFixed | crates/iaam-core/src/retirement.rs:213-228 | the state at an earlier revision never changes, whatever is declared later |
| Retirements.EveryRevisionChangesOneAccount | crates/iaam-core/src/retirement.rs:153-160 | every revision turned what stands for exactly one account, and for no other |
| Retirements.AccountAlternates | crates/iaam-core/src/retirement.rs:196-228 | statements about one account alternate between declaring and withdrawing |
| Retirements.WithdrawalRestores | crates/iaam-core/src/retirement.rs:213-228 | a withdrawal right after a declaration restores what stood for every account, two revisions later |
| Retirements.WhatStandsHasCeased | crates/iaam-core/src/retirement.rs:161-169 | no run holds a prediction: what stands is in force on the last day a statement was made |

## Left out

- HTTP calls, retries, argument parsing and JSON printing of the importer, and `operation_summary`'s printed rows.
- How the importer's `main` finds a row's raw line: it is a field of the row.
- Decimal context rounding at 28 digits and `NaN` amounts in the importer: amounts are exact integers.
- The text of an amount in a payload (its sign stripped, its decimals as printed): only the value is modelled.
- `strip()` and lower-casing of Unicode text: the stripped description is a field of a row, the lower-case form a function parameter.
- SHA-256 and UUID v5: digests are a parameter, and names are modelled before hashing.
- `account_summary`'s grouping by display name: the per-account net is stated by account.
- `compare_for_replay`: the replay order is a total place each event carries.
- `PerimeterException` matching and the reports that consult an assessment.
- `Money::sum`: the folds that use checked addition here are modelled with their own loops.
- Date arithmetic that leaves the calendar's range, which panics in the source: days are unbounded integers.
- Asynchrony and mutexes of the market job: runs are sequences of steps, one request finished before the next step.
- The scheduler's registry of jobs and its reading of the journal: activity and first event arrive as steps.
- Logarithms and the 50-digit rounding of the reference search: what a day at a rate discounts by is a parameter, one that falls as the rate grows, and arithmetic is exact. No flow is dated before the first.
- The overflow, date and sign errors of the external flow series, and its counts of internal movements: flows are exact sums of the cash legs on the contour.
- SQLite transactions and concurrent declarations of retirements: a run is a sequence of statements.
- Operation, goal, custody, instrument, settlement and retraction vocabularies, which would add only case splits.
- TransferPairing.PairLegs: identifies a row by its position in the file, where the code uses the identity of the row object.
- Contours.NetFlowIsAdditive: assumes that legs sit on the accounts their events name and that the legs of a transfer cancel in every currency, neither of which the structure check of an event demands of every leg; `Contours.NetFlowAddsUpTo` is the identity without assumptions.
- Contours.ContourIsSumOfAccounts: assumes the same; `Contours.AccountsAddUpTo` is the identity without assumptions.
- Categories.PreviewAgreesIff: the stored version is any number above all others; a version past 32 bits is not modelled.
