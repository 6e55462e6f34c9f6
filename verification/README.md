# Verified model of the money, writer, budget, alert and activation logic

A Dafny model of the parts of a personal-finance application whose correctness is hardest to see by reading:
exact currency arithmetic, the CSV printer and parser, the single database writer with optimistic budget
revisions, the analysis of category changes, the alert store, and the failure-atomic activation of the currency
schema. Each loop or in-place operation of the program is a method proved equal to a specification; what the
program promises is then proved about that specification, for all inputs and all runs.

`dafny verify dfyconfig.toml` checks the whole project.

| module | what it models |
|---|---|
| `Arithmetic`, `DecimalText`, `Ordering`, `Wrappers` | half-even rounding of a rational, decimal text, order of identifiers, optional values |
| `Rates` | the decimal parser of exchange rates |
| `RateDivision`, `RateQuotients` | long division to 18 significant digits, and what its result is worth |
| `Conversion`, `ConversionLaws`, `ConversionAgreement` | conversion in exact integers, its drift, round trips, and quoted rates |
| `Csv` | the printer with formula protection and the one-pass parser |
| `QueryStrings` | percent decoding and the splitting of a query by its category parameters |
| `Writer` | bounded queue, writer thread, callers that wait, retry or abort |
| `BudgetRevisions` | pause, delete and update guarded by an expected revision, run through the writer |
| `CategoryImpact`, `CategoryDeletion` | which budgets a category update or deletion touches |
| `CategoryHierarchy` | the shape that every run of category creations, updates and deletions keeps |
| `AlertFeed`, `AlertLifecycle` | keyset pagination, and the open, read and resolve states under a unique key |
| `CurrencyActivation` | back up, migrate, restore over a main file and its write-ahead log |

## What holds, and what does not

- The rate division is correctly rounded for every quotient below 10^17. At or above it, a quotient that does not
  come out even has an empty fraction, and the zero trim reaches the integer digits. `RateQuotients.AccurateIff`
  gives the exact condition under which the result keeps its accuracy, and `RateQuotients.WholeZerosAreLost` the
  input 300000000000000001 / 3, which comes out as "1".
- Converting by a quoted rate agrees with the two legs to one minor unit, up to 10^17 of them, exactly under that same
  condition, apart from amounts worth less than one and a half minor units (`ConversionAgreement.QuotedRateAgrees`).
  `ConversionAgreement.QuoteLosesAmount` is an input where the legs give 5 * 10^16 and the quote gives 0. A quote that
  is exactly the quotient agrees on every amount, errors included (`ConversionAgreement.ExactQuoteAgrees`).
- CSV text without a final terminator loses its last row exactly when that row, the last of several, is one empty
  field (`Csv.ParseJoinedIff`).
- A percent-encoded string whose bytes are not UTF-8 is kept as it was (`QueryStrings.DecodeInvertsIff`), as "%F0" is
  (`QueryStrings.LoneByteStaysEncoded`).
- The update analysis compares the selected ids with direct parents only. It is complete for the two levels that
  the category operations keep (`CategoryHierarchy.ReachableUpdateAnalysisComplete`).
  `CategoryImpact.ThirdLevelGoesUnreported` is the three-level input it would miss, and
  `CategoryImpact.MoveKeepsCoverageIff` says at any depth when a move keeps every coverage.
- A conversion there and back fails to return some `i64` amount, both conversions succeeding, exactly when a source
  unit is worth less than one target unit (`ConversionAgreement.RoundTripFailsIff`).
- Restoring a backup ignores a log file that cannot be removed. `CurrencyActivation.FailedLaunchRestoresIff` says
  exactly when a failed launch still gives the old content back, and `CurrencyActivation.StaleLogComesBack` is a launch
  after which the failed migration shows through.
- Ensuring an open alert reports success without opening one when the keys are new but the id is taken
  (`AlertLifecycle.EnsureOpenIff`, with an input in `AlertLifecycle.TakenIdOpensNothing`).

## Model

| member | source | states |
|---|---|---|
| `Rates.ParseIffText` | crates/core/src/money/rate.rs:121-152 | a text parses to (c, s) if and only if it writes c / 10^s (fixed point, optional plus sign, trailing point or missing leading zero) and 0 < c fits `i64` |
| `Rates.ParseOfRender` | crates/core/src/money/amount.rs:66-74 | parsing formatted minor units gives back the units and the digit count, for every positive `i64` |
| `RateDivision.RoundUpFraction` | crates/core/src/money/rate.rs:219-228 | the in-place carry leaves digits and adds exactly one unit in the last place, through the fraction and out into the whole part |
| `RateDivision.GenerateFraction` | crates/core/src/money/rate.rs:173-189 | the digit loop terminates, keeps n·10^k = d·digits + remainder, stops at remainder zero or 18 significant digits, and fails only where a multiplication by ten leaves `i128` |
| `RateDivision.RoundsHalfEven` | crates/core/src/money/rate.rs:191-203 | rounding by the next digit, what follows it and the parity of the last digit is half-even rounding of the exact quotient |
| `RateDivision.TrimOfRender` | crates/core/src/money/rate.rs:205-212 | with a fraction, the zero and point trim yields the text of the same number in lowest terms |
| `RateDivision.TrimOfInteger` | crates/core/src/money/rate.rs:205-212 | without a fraction the same trim strips the zeros of the integer |
| `RateDivision.ParseRateOfRender` | crates/core/src/money/rate.rs:21-29 | re-parsing a rendered quotient keeps coefficient, scale and text, or fails exactly when the coefficient exceeds `i64` |
| `RateDivision.ParseIgnoresPadding` | crates/core/src/money/rate.rs:21-29 | spaces, tabs and line ends around a rate do not matter and are not kept |
| `RateQuotients.RoundDigits` | crates/core/src/money/rate.rs:191-203 | the rounded digit buffer denotes the half-even rounding of the exact quotient; it fails exactly when a multiplication would overflow |
| `RateQuotients.RenderDigits` | crates/core/src/money/rate.rs:205-211 | the pushed digits are the fixed-point text of the number the buffer denotes |
| `RateQuotients.ReparseDigits` | crates/core/src/money/rate.rs:212-216 | the "cannot divide" branch after the trim is never taken |
| `RateQuotients.FromRatio` | crates/core/src/money/rate.rs:163-217 | the whole division equals a reference that rounds the exact quotient once, errors and overflow included, for all `i128` inputs |
| `RateQuotients.QuotientCorrectlyRounded` | crates/core/src/money/rate.rs:160-217 | below 10^17 and without overflow the result is the half-even rounding of n/d to 18 significant digits, in lowest terms, fits the coefficient, and is off by at most 5 parts in 10^18 |
| `RateQuotients.QuotientExactIff` | crates/core/src/money/rate.rs:163-217 | every quotient that is returned is exactly n/d if and only if 18 significant digits, or the integer digits, hold it |
| `RateQuotients.AccurateIff` | crates/core/src/money/rate.rs:205-216 | the exact condition under which the result keeps that accuracy, over all quotients |
| `RateQuotients.WholeZerosAreLost` | crates/core/src/money/rate.rs:205-212 | 300000000000000001 / 3 gives "1" |
| `RateQuotients.SmallDenominatorFits` | crates/core/src/money/rate.rs:180-203 | with a denominator of at most (2^127 - 1) / 10 no checked multiplication fails |
| `RateQuotients.CheckedDiv` | crates/core/src/money/rate.rs:60-68 | rates with positive coefficients and at most 18 decimals always divide to 5 parts in 10^18 while the quotient is below 10^17; a cross product beyond `i128` fails; in between, the division of the cross products |
| `RateQuotients.DivisionInRange` | crates/core/src/money/rate.rs:60-68 | the same success and accuracy for any scales, from the sizes of the two cross products alone |
| `RateQuotients.WholeQuotient` | crates/core/src/money/rate.rs:167-171 | a division that comes out even gives its own text with scale 0, up to the largest coefficient |
| `RateQuotients.LargeQuotient` | crates/core/src/money/rate.rs:205-216 | from 10^17 on, a division that does not come out even gives the rounded integer without its final zeros |
| `RateQuotients.Inverse` | crates/core/src/money/rate.rs:52-54 | the rate times its inverse is one to 5 parts in 10^18 if and only if the trim takes no zero of an integer |
| `Conversion.LowestLimbParity` | crates/core/src/money/convert.rs:151-154 | the parity of the lowest 64-bit limb is the parity of the integer |
| `Conversion.OneLimbIffFits` | crates/core/src/money/convert.rs:156-167 | for normal limb sequences, one limb with a clear top bit means at most `i64::MAX` |
| `Conversion.ToMinorUnitsMeaning` | crates/core/src/money/convert.rs:156-167 | the sign and limb test returns the integer exactly when it lies in 0..=`i64::MAX`, and overflows otherwise |
| `Conversion.LimbsOfValue` | crates/core/src/money/convert.rs:151-167 | a normal limb sequence is the only one for its value, so the limb tests decide about the integer |
| `Conversion.RoundHalfEvenMeaning` | crates/core/src/money/convert.rs:124-149 | rounding returns the nearest integer, ties to even, overflows exactly when that exceeds `i64`, and rejects a denominator that is not positive |
| `Conversion.RoundHalfEvenOfNegative` | crates/core/src/money/convert.rs:124-167 | a negative numerator truncates toward zero, and anything at or below minus one overflows |
| `Conversion.PowerOfTen` | crates/core/src/money/convert.rs:115-122 | the multiplication loop computes the power of ten |
| `Conversion.ConvertOutcome` | crates/core/src/money/convert.rs:19-39 | in one currency nothing but the identity completes, and it gives the amount itself; across currencies the identity is refused; a pending rate gives no amount; a completed one is in the target currency |
| `Conversion.AutomaticNeedsItsLegs` | crates/core/src/money/convert.rs:47-66 | an automatic conversion succeeds only with both legs in its currencies, on one date, from a named rate set |
| `ConversionLaws.ConvertsByRatio` | crates/core/src/money/convert.rs:95-113 | conversion multiplies by the exact ratio of the rates and minor-unit digits and rounds once; it fails only by overflow |
| `ConversionLaws.ConvertsToNearest` | crates/core/src/money/convert.rs:95-113 | in the numbers the code multiplies: the result is an integer nearest to the exact amount, the even one of two equally near |
| `ConversionLaws.ConvertMonotone` | crates/core/src/money/convert.rs:96-149 | if an amount converts, every smaller amount converts too, and to no more |
| `ConversionLaws.ConvertScaleFree` | crates/core/src/money/convert.rs:96-113 | only the rational values of the two rates matter, not the scales they are written with |
| `ConversionLaws.AdditivityDrift` | crates/core/src/money/convert.rs:124-149 | rounding a total and totalling n roundings differ by at most (n + 1) / 2 units |
| `ConversionLaws.ConversionDrift` | crates/core/src/money/convert.rs:96-149 | the same bound for any list of amounts in one currency as the conversion returns them |
| `ConversionAgreement.RoundTripError` | crates/core/src/money/convert.rs:95-149 | there and back is off by at most 1/2 + 1/(2c), where c is target units per source unit |
| `ConversionAgreement.RoundTripFailsIff` | crates/core/src/money/convert.rs:95-149 | an `i64` amount that both conversions accept and that does not come back exists if and only if a source unit is worth less than one target unit |
| `ConversionAgreement.ConvertThereAndBack` | crates/core/src/money/convert.rs:95-113 | both bounds for two conversions with the same two legs, when neither overflows |
| `ConversionAgreement.QuotedRateAgrees` | crates/core/src/money/convert.rs:40-75 | up to 10^17 minor units both paths succeed, and they differ by at most one unit if and only if the quote's trim took no zero of an integer or the amount is below one and a half units |
| `ConversionAgreement.QuotedRateDrift` | crates/core/src/money/convert.rs:40-75 | under the same condition on the trim, for every amount both paths convert, they differ by at most one unit and 5 parts in 10^18 of the amount |
| `ConversionAgreement.ExactQuoteAgrees` | crates/core/src/money/convert.rs:40-75 | a quote that is exactly the quotient of the legs gives the same amount or the same error, for every amount |
| `ConversionAgreement.QuoteLosesAmount` | crates/db/src/currency/lifecycle.rs:237-239 | an input that the legs convert to 5 * 10^16 and their quote to 0 |
| `ConversionAgreement.QuotedRounding` | crates/db/src/currency/lifecycle.rs:237-239 | the rounding argument for that: an accurate quotient moves a rounded product by at most one unit |
| `Csv.ParseCsv` | apps/frontend/src/lib/csv.ts:11-66 | the index loop, with its pushes and final pop, computes the state machine's parse |
| `Csv.ParsePrinted` | apps/frontend/src/lib/csv.ts:3-66 | parsing printed rows, each ended by LF, CRLF or CR, gives back the protected rows, for arbitrary field text |
| `Csv.ParseJoinedIff` | apps/frontend/src/features/transactions/lib/transaction-export.ts:140-145 | without a final terminator the same holds if and only if the last of several rows is not a single empty field, which is lost |
| `Csv.RoundTrip` | apps/frontend/src/lib/csv.ts:3-66 | dropping one leading tab from each parsed field gives the original rows |
| `Csv.EscapeInjective` | apps/frontend/src/lib/csv.ts:3-9 | no two values share an escaped form |
| `Csv.ExportIsInert` | apps/frontend/src/lib/csv.ts:1-9 | no field read back from an export begins with one of the listed formula characters, whatever the values were |
| `Csv.ExportedField` | apps/frontend/src/lib/csv.ts:1-9 | each field comes back behind a tab if it begins with one of the listed characters, and as it was if not |
| `Csv.EscapeUnchangedIff` | apps/frontend/src/lib/csv.ts:3-9 | a value is written as it is if and only if it has no quote, comma or line end and does not begin like a formula |
| `Csv.UnquotedText` | apps/frontend/src/lib/csv.ts:44-57 | quotes inside an unquoted field are text |
| `Csv.QuotedText` | apps/frontend/src/lib/csv.ts:29-42 | text behind a closing quote joins the field, and a field whose quote never closes runs to the end |
| `QueryStrings.PercentDecode` | apps/server/src/api/transactions.rs:33-54 | the index loop decodes every complete escape, keeps everything else, and falls back to the input when the bytes are not text |
| `QueryStrings.DecodeInvertsIff` | apps/server/src/api/transactions.rs:33-63 | decoding inverts any percent-encoding (section 2.1 of RFC 3986) if and only if the encoded bytes are UTF-8 or nothing was escaped |
| `QueryStrings.LoneByteStaysEncoded` | apps/server/src/api/transactions.rs:53 | "%F0" encodes a byte that is no text, and comes back as it is |
| `QueryStrings.Utf8Iff` | apps/server/src/api/transactions.rs:53 | the text test accepts exactly the UTF-8 forms of sequences of Unicode scalar values (section 3 of RFC 3629) |
| `QueryStrings.DecodedUnchangedIff` | apps/server/src/api/transactions.rs:38-51 | decoding changes nothing if and only if no complete escape occurs anywhere |
| `QueryStrings.SamePrefixTest` | apps/server/src/api/transactions.rs:69-82 | the key comparison of one function and the test for `categoryId=` of the other pick the same segments |
| `QueryStrings.SegmentsSharedOut` | apps/server/src/api/transactions.rs:65-85 | extracted ids and filtered query interleave to the query's segments: none lost, duplicated or reordered, and no id is left in the filtered query |
| `Writer.FailedTransactionalJob` | crates/db/src/write_actor.rs:166-172 | a transactional job that fails changes nothing, and a failure injected after the commit is the only failed reply that may hide a change |
| `Writer.ExecuteMeaning` | crates/db/src/write_actor.rs:166-172 | in terms of the job alone: without a transaction all it did stays; within one it stays if it begins, succeeds and commits; its reply is passed on unless a failure is injected |
| `Writer.ReplayIsFold` | crates/db/src/write_actor.rs:165-172 | replaying a log is folding its jobs, each kept or dropped by that rule |
| `Writer.RunIsSequential` | crates/db/src/write_actor.rs:160-181 | over any run, accepted messages are the executed ones followed by the queue in order, the queue stays within capacity, and database and replies are those of running the log one by one |
| `Writer.RunIsAccounted` | crates/db/src/write_actor.rs:67-101 | over any run each caller is accepted at most once, and a reply it holds is the one logged for its message, or a dropped reply of a stopped writer |
| `Writer.WriterRuns` | crates/db/src/write_actor.rs:151-190 | both, for every run from an idle writer; the database is the fold of the executed jobs, and the caller of each executed message holds its one reply unless it has aborted |
| `Writer.QueueDrains` | crates/db/src/write_actor.rs:165-181 | as many turns as there are queued messages execute all that was accepted and answer every caller that waited |
| `Writer.StopDropsReplies` | crates/db/src/write_actor.rs:93-95 | a stopping writer drops the reply of exactly the callers that wait |
| `Writer.StoppedForGood` | crates/db/src/write_actor.rs:129-131 | a stopped writer accepts and executes nothing more, and turns away whoever sends |
| `Writer.FailedTransactionsLeaveNoTrace` | crates/db/src/write_actor.rs:165-172 | the database is what the log without its failed transactions would have made it |
| `Writer.LateAbort` | crates/db/src/write_actor.rs:173-180 | a caller that aborts after acceptance changes neither database, queue, log nor any other caller, ever after |
| `Writer.EarlyAbortNeverRuns` | crates/db/src/write_actor.rs:81-91 | a message whose caller aborts or is rejected before acceptance is never accepted later |
| `Writer.WriteActor.TrySend` | crates/db/src/write_actor.rs:122-133 | the new state, and accepted, full or closed, each exactly when the channel says so |
| `Writer.WriteActor.ExecuteNext` | crates/db/src/write_actor.rs:165-181 | one turn takes the oldest message, leaves what its job did if it ran without a transaction or its transaction succeeded, and is one step of the system |
| `Writer.WriteActor.SendSync` | crates/db/src/write_actor.rs:104-144 | among any steps of others, the retry loop puts its message into the queue exactly once when it succeeds and never when the writer has stopped |
| `BudgetRevisions.BudgetTable.SetBudgetPaused` | crates/db/src/budgets/lifecycle.rs:11-51 | success means the budget was live at the expected revision and only its row changed, to the paused one at the next revision; an admissible request succeeds unless storage fails; a conflict is reported exactly when one is met, with its revision; other failures but a storage fault change nothing |
| `BudgetRevisions.BudgetTable.DeleteBudget` | crates/db/src/budgets/lifecycle.rs:53-90 | the same for deletion, where success may also mean that the budget was already deleted and nothing changed |
| `BudgetRevisions.BudgetTable.UpdateBudget` | crates/db/src/budgets/edit.rs:14-56 | the same for the update, which leaves configurations alone unless it changes them, and other budgets alone even when it fails between its writes |
| `BudgetRevisions.SuccessIsStored` | crates/db/src/budgets/edit.rs:36-118 | field by field: a pause stores its flag, a deletion its time, an update its name and settings, each one revision on and nothing else; configurations are replaced and reconciled exactly when the update changes them |
| `BudgetRevisions.RefusalReasons` | crates/db/src/budgets/edit.rs:20-34 | which refusal a missing or deleted budget, a negative revision, a changed cadence and the last revision give |
| `BudgetRevisions.EffectOrNothing` | crates/db/src/budgets/edit.rs:66-82 | run in its transaction, a mutation either finds its budget live at the expected revision and gives only it the requested row, one revision on, or changes nothing, even when it failed after its row write; configurations are rewritten only when the update changes them |
| `BudgetRevisions.RepeatedDelete` | crates/db/src/budgets/lifecycle.rs:65-67 | deleting a deleted budget succeeds for any expected revision and changes nothing |
| `BudgetRevisions.RevisionsChain` | crates/db/src/budgets/lifecycle.rs:24-33 | over any log the effective mutations of a budget expect r, r+1, r+2, ... without gap or repetition, and the stored revision is the first plus their number |
| `BudgetRevisions.TombstoneForever` | crates/db/src/budgets/lifecycle.rs:65-88 | after a deletion no later job changes the row or its timestamp |
| `BudgetRevisions.WriterKeepsRevisionChain` | crates/db/src/write_actor.rs:166-170 | the chain, for every run of the writer over budget jobs, however queued, aborted, retried or rolled back |
| `BudgetRevisions.WriterKeepsTombstones` | crates/db/src/budgets/lifecycle.rs:53-90 | once a run has deleted a budget, no continuation of the run changes its row |
| `CategoryImpact.SelectedOrCovers` | crates/db/src/budgets/category_impact.rs:279-298 | true if and only if some ancestor-or-self is selected, for every parent map, cyclic or dangling; the unvisited ids are the termination measure |
| `CategoryImpact.AffectedBudgetsForUpdate` | crates/db/src/budgets/category_impact.rs:33-87 | reports exactly the budgets with a touched configuration, in order, and fails when an unreadable scope is met before a touched one |
| `CategoryImpact.ReportedForUpdateIff` | crates/db/src/budgets/category_impact.rs:57-84 | an id is reported if and only if some configuration of its budget is touched |
| `CategoryImpact.UpdateTouchesIff` | crates/db/src/budgets/category_impact.rs:63-78 | in the hierarchies the application builds a configuration is touched if and only if the move involves a selected parent or, in spending mode, a category that counts changes its role |
| `CategoryImpact.MoveKeepsCoverageIff` | crates/db/src/budgets/category_impact.rs:63-67 | at any depth, a move keeps every coverage if and only if the category is selected or its old and new parents are covered alike |
| `CategoryImpact.UpdateAnalysisComplete` | crates/db/src/budgets/category_impact.rs:57-87 | in two-level hierarchies a budget missing from the returned list keeps the coverage of every category under each configuration and, in spending mode, the role of every covered one |
| `CategoryImpact.UpdateKeepsShape` | crates/db/src/transaction_categories/mutations.rs:131-149 | a validated update keeps the two levels and the roles that children share with their root |
| `CategoryHierarchy.UpdateSets` | crates/db/src/transaction_categories/mutations.rs:131-149 | an update sets the parent and role of its category, and hands the role of a root to its children only |
| `CategoryImpact.ThirdLevelGoesUnreported` | crates/db/src/budgets/category_impact.rs:63-67 | the depth bound is needed: a three-level hierarchy where coverage changes unreported |
| `CategoryDeletion.IdsToDelete` | crates/db/src/budgets/category_impact.rs:145-187 | strictly sorted ids that are exactly the requested ones, with their live children when those go too; an error exactly when the blocking strategy meets a live child |
| `CategoryDeletion.BudgetImpact` | crates/db/src/budgets/category_impact.rs:101-133 | whether a budget is touched and exactly which ids its current configurations block, unless a scope does not parse |
| `CategoryDeletion.AnalyzeDeletion` | crates/db/src/budgets/category_impact.rs:89-143 | the reported budgets are exactly the touched ones, blocked ids a strictly sorted subset of the ids to delete, and which error arises when |
| `CategoryDeletion.ReportedIff` | crates/db/src/budgets/category_impact.rs:127-132 | an id is reported if and only if some configuration of its budget is touched |
| `CategoryDeletion.DeletionKeepsCoverage` | crates/db/src/budgets/category_impact.rs:116-118 | at any depth, deleting uncovered categories changes the coverage of no surviving one, whether its parent link is cleared or left dangling |
| `CategoryDeletion.DeletionAnalysisComplete` | crates/db/src/budgets/category_impact.rs:101-133 | a budget missing from the reported list had no deleted category in scope and keeps the coverage of every surviving one |
| `CategoryDeletion.StrategyIsComplete` | crates/db/src/transaction_categories/delete.rs:85-105 | the same for the deletion that each children strategy performs |
| `CategoryDeletion.RemainingMeaning` | crates/db/src/transaction_categories/delete.rs:85-105 | exactly which categories each strategy leaves, and with which parent and role |
| `CategoryDeletion.PromotionKeepsChildren` | crates/db/src/transaction_categories/delete.rs:85-97 | promotion loses no category that was not requested, and makes the children of the requested ones roots |
| `CategoryDeletion.BlockingIsReported` | crates/db/src/budgets/category_impact.rs:106-132 | a budget whose current configuration blocks a deletion is also reported |
| `Ordering.BeforeIff` | crates/db/src/budgets/category_impact.rs:135-136 | identifiers are sorted lexicographically: a proper prefix, or the smaller character at the first difference, comes first |
| `CategoryHierarchy.DeletionKeepsShape` | crates/db/src/transaction_categories/delete.rs:85-105 | whatever the strategy, a deletion leaves no surviving category below a deleted one, and keeps levels and roles |
| `CategoryHierarchy.RunKeepsShape` | crates/db/src/transaction_categories/validation.rs:79-176 | over any run of validated creations, updates and deletions: two levels, children with the role of their root, no missing parent |
| `CategoryHierarchy.ReachableUpdateAnalysisComplete` | crates/db/src/transaction_categories/mutations.rs:81-149 | so in every hierarchy such a run can build, an update leaves the coverage and, in spending mode, the roles of every budget missing from the returned list alone |
| `AlertFeed.ListDomainAlerts` | crates/db/src/domain_alerts/list.rs:16-74 | for a limit in 1..=100, and only then, the newest matching alerts first, at most that many, with the position of the last one as cursor exactly when more follow; fetching one row too many and looping is the first page of the ordered listing |
| `AlertFeed.SelectNewestFirst` | crates/db/src/domain_alerts/list.rs:30-57 | the query lists exactly the alerts with the read state and severity asked for that come after the cursor, the later created first, and of equally old ones the larger id first |
| `AlertFeed.SelectIsListing` | crates/db/src/domain_alerts/list.rs:41-57 | the listing is strictly descending in the order the cursor compares by, and holds exactly the selected rows |
| `AlertFeed.WalkNewestFirst` | crates/db/src/domain_alerts/list.rs:41-73 | a whole traversal goes from the newest alert to the oldest |
| `AlertFeed.WalkVisitsAll` | crates/db/src/domain_alerts/list.rs:41-73 | following the cursor through an unchanging table visits the whole listing once, in order, and stops |
| `AlertFeed.WalkDescends` | crates/db/src/domain_alerts/list.rs:41-73 | however the table changes between pages, the traversal is strictly descending, so nothing is returned twice |
| `AlertFeed.LastingAlertReturned` | crates/db/src/domain_alerts/list.rs:41-73 | an alert present and matching at every read is returned, however the table changes otherwise |
| `AlertFeed.WalkStops` | crates/db/src/domain_alerts/list.rs:59-71 | with only newer alerts arriving, the traversal stops |
| `AlertFeed.UnreadCountIsListing` | crates/db/src/domain_alerts/list.rs:76-83 | the unread count is the length of the full unread traversal |
| `AlertLifecycle.AlertStore.InsertAlert` | crates/db/src/domain_alerts/insert.rs:9-25 | adds the row, or reports that it exists exactly when its id or its keys are taken |
| `AlertLifecycle.CreatedAsDrafted` | crates/db/src/domain_alerts/insert.rs:13-22 | a created alert is unread, unresolved and carries what its draft says; none is created exactly when the id or the keys are taken |
| `AlertLifecycle.AlertStore.EnsureOpenAlert` | crates/db/src/domain_alerts/lifecycle.rs:169-206 | inserts, refreshes or reopens; reports a creation exactly when the table grew |
| `AlertLifecycle.AlertStore.MarkAlertRead` | crates/db/src/domain_alerts/lifecycle.rs:29-59 | the returned alert is the stored, read row, and changed is reported exactly when the table changed |
| `AlertLifecycle.AlertStore.MarkAlertUnread` | crates/db/src/domain_alerts/lifecycle.rs:68-98 | the mirror image |
| `AlertLifecycle.AlertStore.ResolveAlert` | crates/db/src/domain_alerts/lifecycle.rs:116-146 | the returned alert is the stored, resolved row, and changed is reported exactly when the table changed |
| `AlertLifecycle.AlertStore.ResolveAlertByKeys` | crates/db/src/domain_alerts/lifecycle.rs:148-167 | reports true exactly when an open row with these keys existed |
| `AlertLifecycle.AlertStore.MarkAllAlertsRead` | crates/db/src/domain_alerts/lifecycle.rs:100-114 | marks exactly the unread, unresolved rows and reports their number, the prior unread count |
| `AlertLifecycle.MarkReadMeaning` | crates/db/src/domain_alerts/lifecycle.rs:33-50 | a read mark changes exactly the row with the id, if it was unread, and of it only the mark and the time of the update |
| `AlertLifecycle.MarkUnreadMeaning` | crates/db/src/domain_alerts/lifecycle.rs:72-89 | the mirror image: resolution and text stay |
| `AlertLifecycle.MarkAllReadMeaning` | crates/db/src/domain_alerts/lifecycle.rs:100-114 | exactly the unread, unresolved rows change, and of them only the mark and the time of the update |
| `AlertLifecycle.ResolveMeaning` | crates/db/src/domain_alerts/lifecycle.rs:120-137 | exactly the row with the id changes, if it was open, and of it only the resolution and the time of the update |
| `AlertLifecycle.ResolveByKeysMeaning` | crates/db/src/domain_alerts/lifecycle.rs:153-166 | the same for the open row under the keys |
| `AlertLifecycle.RunKeepsKeysUnique` | crates/db/src/domain_alerts/insert.rs:14-24 | over any run at most one row per producer and occurrence, and no row is lost or renamed |
| `AlertLifecycle.EnsureOpenIff` | crates/db/src/domain_alerts/lifecycle.rs:181-205 | leaves an open alert if and only if the keys were known or the id was free; a known row keeps id, read mark and creation time, takes the new text only when reopened, and no other row changes |
| `AlertLifecycle.TakenIdOpensNothing` | crates/db/src/domain_alerts/insert.rs:20-22 | new keys under a taken id: the table stays as it is and no alert is open under the keys |
| `AlertLifecycle.ResolveByKeysCloses` | crates/db/src/domain_alerts/lifecycle.rs:148-167 | leaves no open row with these keys, and changes the table exactly when there was one |
| `AlertLifecycle.MarkAllReadLeavesNone` | crates/db/src/domain_alerts/lifecycle.rs:100-114 | the unread count is zero afterwards |
| `AlertLifecycle.RefreshLeavesOneOrNone` | crates/app/src/currency_refresh.rs:130-167 | after any run and a refresh, at most one failure alert is open, and none after a success |
| `CurrencyActivation.DatabaseFile.CreatePreCurrencyBackup` | crates/db/src/currency/activation.rs:78-100 | no reader sees a difference whatever fails, even with a busy checkpoint; it succeeds exactly when no step fails, and the backup is then what a reader sees |
| `CurrencyActivation.DatabaseFile.RestorePreCurrencyBackup` | crates/db/src/currency/activation.rs:102-131 | succeeds exactly when a backup exists and the copy completes, keeps the backup, and a reader then sees it if and only if the log is gone or agrees with it |
| `CurrencyActivation.DatabaseFile.ActivateCurrencySchema` | crates/db/src/currency/activation.rs:16-50 | success exactly when no step fails, and then the content is migrated and has the marker; a failed first activation leaves what a reader sees as it was, if the restore works, with the backup holding it once the migration has begun; an activated database keeps its backup and is never restored from it |
| `CurrencyActivation.LaunchIsAtomic` | crates/db/src/currency/activation.rs:16-50 | a failed activation leaves the content of main file plus log as it was, the backup left by a failed migration is that content, and success implies the format marker |
| `CurrencyActivation.LaunchesAreAtomic` | crates/db/src/currency/activation.rs:16-50 | the same over any sequence of launches up to the first success; the backup that the last launch leaves after a migration is the content from before the first |
| `CurrencyActivation.LaunchSucceedsIff` | crates/db/src/currency/activation.rs:16-50 | exactly when a launch succeeds, and that it has then done nothing but migrate |
| `CurrencyActivation.ActivatedStays` | crates/db/src/currency/activation.rs:30-36 | with the format marker present, a launch keeps the backup and leaves the content migrated, or alone if it does not come to that |
| `CurrencyActivation.RestoreIff` | crates/db/src/currency/activation.rs:102-131 | restoring brings the backup back if and only if the log was removed or adds nothing to it |
| `CurrencyActivation.FailedLaunchRestoresIff` | crates/db/src/currency/activation.rs:30-47 | a launch that failed after migrating gives the old content back if and only if the log was removed, closing the pool had emptied it, or the migration had changed no row |
| `CurrencyActivation.StaleLogComesBack` | crates/db/src/currency/activation.rs:122-131 | a log that cannot be removed brings the failed migration back |

## Left out

- Writer.WriteActor.SendSync: the loop runs against a finite schedule of what others do during its sleeps, and says that it is still retrying if that schedule ends first; that the queue eventually drains is not claimed.
- AlertLifecycle.AlertStore.InsertAlert: the validation of a draft alert and the rebuilding of a stored row into a view, with their own errors, are not modelled.
- CurrencyActivation.LaunchesAreAtomic: asks that each restore works; a process that dies inside a migration is not modelled, since the next launch replaces the backup.
- CategoryImpact.UpdateAnalysisComplete: over the budget's own measurement mode, the only one the analysis consults; modes stored with single configurations are not part of this model.
- CategoryHierarchy.RunKeepsShape: updates of an already deleted category, which change no live one, and the uniqueness of sibling names are not modelled.
- A job that panics while it runs, thread start-up, and fairness of the channel: the writer stops only between jobs.
- Loading or creating a budget's current period, canonicalising category ids and reconciling the timeline: arbitrary steps that may fail and may rewrite configurations. Their own revision-free writes and the alerts raised after a mutation are not modelled.
- The order in which budgets are loaded by name, and parsing of stored roles, modes, cadences and severities: the model starts from parsed rows, with configurations that may be unreadable.
- The currency table, and the width of the digit count: minor-unit digits are any natural number. Formatting of negative amounts, which money excludes, and of more than 18 digits, which overflows the factor.
- The text form of a cursor, taken as a bijection, and the default page limit.
- Storage errors of the alert queries, and messages carried by errors: an error is its kind.
- Timestamps and generated identifiers are parameters.
- Frontend strings are sequences of UTF-16 code units, server strings the bytes of their UTF-8 form, rate texts sequences of characters.
- SQLite and Diesel themselves: a table is a map or a sequence, a transaction all or nothing, a checkpoint moves the log into the main file.
- Budget timeline, rollover, valuations, recurring processing, HTTP routes and user interface.
