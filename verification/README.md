# ContextLease kernel

ContextLease divides a model's input budget among named modules of a prompt. Each module has a
floor, a target and a maximum; unused target is lent out as leases, a module over its allocation
runs its registered reclaim pipeline, and the rendered result is admitted only if it fits. This
project models that kernel in Dafny and proves what it guarantees, over all definitions, demands,
texts, budgets and runs.

How it is laid out, one module a file:

- **The allocator.** `Layout` holds the definitions and their total orders, `Filling` the weighted
  rounds, `Proportionality` how fair a round is, `Leasing` the allocator itself, `Bookkeeping` what
  one grant and one borrower's visit keep, `Allocations` the theorems, `LendingOrder` the order in
  which capacity is lent, `LeaseIdentity` uniqueness of leases and independence of declaration
  order. `PythonAllocator` is the Python allocator in its own loops, over dictionaries and sets,
  proved equal to the kernel's. The central invariant is that what remains never exceeds what the
  donors and the shared slack can still cover; with the exit condition of the filling loop it
  gives exact work conservation and strict priority.
- **Texts and counting.** `Texts`, `TextPasses`, `Counting` and `Truncation` hold the counting
  automaton against the declarative token pattern, the lossless passes, the two estimators under a
  calibration multiplier, and the truncation loops against the longest fitting prefix.
- **Reclaim and the two-phase transaction.** `Reclaim` is the guarded pipeline and `StepOutcomes`
  what one step of it decides. `TwoPhase` shows that the planning loop and the committing loop
  stop at the same step holding the same text, `Requests` what a request says and what an answer to
  it does, and `RoundTrip` when a host that answers everything is accepted. `Usage` and `Preparing`
  compose a whole prepare, `HostFailures` follows a host counter's failures through it,
  `HostCounters` shows that a success rests on none, `Rendering` that protected content survives, and
  `Admission`, `CharAdmission`, `AdmissionBoundaries` and `UnderstatedDemands` prove when its final
  check cannot fail, and exactly where it can.
- **What is promised.** `Plans` states what a successful prepare hands back in the fields of the
  definition, the request and the plan, whatever the code goes through to get there: the window the
  prompt fits, the count it reports, the rows, outcomes and usage of every module in layout order, the
  leases, and the content no pipeline may touch.
- **The arena.** `EventLog` and `UsageIndex` are the laws of the event ring, the lease ledger, the
  usage index and calibration, `UsageHistory` those of the change rates. `ArenaStates` is the mutable
  state with its transactions and ghost history, `Arenas` the lease events, `Kernel` the arena object
  with prepare, two-phase prepare, usage reports and event reads. `Committed()` is the invariant of
  every run: each operation requires and restores it, and `CommittedMeans` spells it out.
- **Timestamps.** `Calendar` proves the day-to-date conversion against a calendar stepped a day at
  a time, built on the month lengths and leap years of RFC 3339, section 5.7 and Appendix C.
- **The Python side.** `PythonTruncation`, `PythonPipeline`, `PythonSelection`,
  `PythonGroups` and `Observations` model the binary search truncation, the fail-open pipeline, the two
  selectors and the telemetry store. `Host` is the Python facade over kernel and store: it answers the
  kernel's semantic requests from its providers and copies events and snapshots into the store.
  `HostRuns` drives it through the runs in which the two part.

Imperative code is imperative here: the loops are methods proved against specification functions,
and the lemmas are about those functions. Weights, shares and multipliers are exact reals, token
counts are unbounded integers, and texts are sequences of code points that carry the character
class (word, blank, symbol) the host's Unicode tables give them.

Where the code does less than one would expect of it, the code is followed, and for each case the
exact boundary is proved and an input on the wrong side of it is given:

- The character estimator's fast truncation ignores the calibration multiplier, so it meets its
  target on all texts exactly at multiplier one or target zero (`CharTruncationMeetsTargetIff`,
  `IdeographsMissTarget`).
- Null content counts zero but renders as a word. Under the word estimator, contributions whose
  observed demands, where given, cover their words are safe in every arena, at every budget and
  calibration, exactly when they hold no null content (`NullsDecideWordSafety`); for any contributions
  the same decides whether their chunks are safe under every observed demand
  (`NullsDecideAtAnyDemand`, `NullContentIsTurnedAway`). A demand that understates can be safe with a
  null, because nothing is ever prepared (`UnderstatedDemandCanBeSafe`). A reclaimed prepare is
  admitted exactly when its words and one for each null fit once scaled (`WordAdmissionIff`), which can
  be read off contributions that need no reclaiming (`FittingWordsAdmittedIff`).
- Only separators between modules are reserved. Under the character estimator, limiting every module
  to `k` chunks makes all contributions safe exactly when `k` is zero, or one and null content is
  ruled out (`ClassIsSafeIff`, `QuadAdmissionIff`); the closed form is `CharAdmissionIff`, on
  contributions `FittingCharsAdmittedIff`.
- The one-token minimum of a filling round can starve a heavy module: a round is proportional
  exactly when the claims before a module leave room for its fair gain (`ProportionalIff`,
  `FeatherWeightsCanStarve`).
- When the floors do not fit, the kernel's allocator refuses while Python's grants the floors and
  reports a negative remainder; otherwise they return the same (`AllocateInPython`,
  `RemainderMeans`, `FloorsCanOverspend`).
- Python's tail truncation can return a text over its target, because a slice of the last zero
  characters is the whole text. It is safe exactly for counters that charge no single character
  more than the target (`TailIsSafeIff`): always for the repository's pattern and character counters
  (`OwnCountersMeetTarget`), not for byte-level tokenizers that charge two tokens for one character
  (`PairsOverflow`).
- A host that answers every request it was handed, once each, is refused for a duplicate exactly
  when a module that asks lists one provider twice (`AnsweringEverything`,
  `RepeatedProviderIsRefused`). The Python facade is such a host (`HostIsRefusedIff`).
- docs/architecture.md:63 says failures can fall through to later steps: a failing step does so
  exactly when it is not a semantic step (`FallsThroughIff`, and an input in
  `UnansweredStepForfeits`).
- README.md:253 says accepted results fit the target. Under any counter that counts a letter as
  something, what a step of an algorithm is accepted with is sure to fit exactly for extractive ranking
  and boundary truncation, and there, under the character estimator, at multiplier one, under any other
  counter if it counts nothing as nothing (`AlwaysFitsIff`, `BuiltInAlwaysFitsIff`). Inputs on the wrong
  side are a letter for the other algorithms (`OneLetterStaysOver`), an ideograph above multiplier one
  (`OneIdeographStaysOver`), and the empty text (`NothingStaysOver`).
- A registered Python algorithm can make content grow. Every pipeline of a set of algorithms keeps its
  contract exactly when each of them, asked about content over its target, is harmless whenever it
  reports no growth (`KeepsContractIff`). Algorithms made of plain functions are (`FunctionPipeline`);
  one that reports zero and zero for content it grew is not (`MisreportsCanGrow`).
- The telemetry store adds the kernel's dropped-event count to its own. After a prepare the sum is what
  the store lost exactly when the log fitted the kernel's ring before it and the prepare's own events,
  up to its snapshot, fit the ring (`HostArena.Prepare`); after a usage report exactly when the log, with
  the new event, fits it (`HostArena.RecordUsage`). `LossIsMisreported` and `ReportsRepeat` are runs past
  the ring.
- After a usage report the facade tells the store what came after the last of the first ten thousand
  events it holds. A store that mirrored the kernel's log still does exactly when it held no more than
  ten thousand (`HostArena.RecordUsage`); in `ReportsRepeat` it is told old events again.
- A usage report stamps the latest snapshot with the calibration of the reported call's profile. The
  snapshot then shows its own profile's exactly when the two are the same (`ArenaState.RecordUsage`);
  in `OtherProfileIsShown` it shows the other.

## Model

| member | source | states |
|---|---|---|
| Filling.FillRound | rust/contextlease-core/src/lib.rs:1421-1434 | one round of grants, in id order, equals the round function, and reports what it moved |
| Filling.WeightedFill | rust/contextlease-core/src/lib.rs:1404-1441 | the rounds together equal the filling function |
| Filling.FilledToCorrect | rust/contextlease-core/src/lib.rs:1404-1441 | filling conserves tokens, only raises accounts, never past a cap, and stops only with the budget spent or every module at its cap: the no-progress exit is dead code |
| Filling.PassStaysBelowCaps | rust/contextlease-core/src/lib.rs:1424-1434 | a round never lowers an account nor lifts it over its cap |
| Proportionality.PassGain | rust/contextlease-core/src/lib.rs:1424-1434 | closed form of a round: a module gains its claim, cut to what the claims before it leave |
| Proportionality.FirstRoundIsProportional | rust/contextlease-core/src/lib.rs:1420-1434 | when every exact share is at least one, each module gains exactly its rounded-down share or its whole gap |
| Proportionality.FillIsProportional | rust/contextlease-core/src/lib.rs:1404-1441 | over the whole fill a module gains at least its first-round gain, so at least its rounded-down share when the first round has room for it, as when every exact share is at least one |
| Proportionality.ProportionalIff | rust/contextlease-core/src/lib.rs:1420-1434 | the exact condition for a module to gain at least its rounded-down share |
| Proportionality.FeatherWeightsCanStarve | rust/contextlease-core/src/lib.rs:1426-1433 | a concrete round in which one-token minimums leave a heavy module nothing |
| Leasing.SettleOne | rust/contextlease-core/src/lib.rs:1357-1384 | one borrower's visit to donors and slack equals the settlement function |
| Leasing.AllocateBudget | rust/contextlease-core/src/lib.rs:1283-1402 | floors, weighted targets, donor leases and slack, with the floor check, equal the allocation function |
| Bookkeeping.LendFromKeepsBooks | rust/contextlease-core/src/lib.rs:1358-1375 | lending keeps the books balanced, moves exactly the need it meets, and touches no other account |
| Bookkeeping.LendFromExhausts | rust/contextlease-core/src/lib.rs:1360-1375 | a borrower leaves the donors satisfied, or with no funds left, or with every donor drained |
| Bookkeeping.SettleBorrowerCorrect | rust/contextlease-core/src/lib.rs:1357-1384 | a visit keeps the books and ends at the borrower's ceiling or with nothing left to lend |
| Bookkeeping.SettleFromKeepsBooks | rust/contextlease-core/src/lib.rs:1357-1384 | the whole settlement keeps the books, stays within ceilings, and leaves funds only if every borrower is at its ceiling |
| Allocations.WorkConservation | rust/contextlease-core/src/lib.rs:1283-1402 | the allocated total is the smaller of what is available and what all modules are eligible for; the error occurs exactly when capped floors exceed the budget |
| Allocations.BudgetCheckSuffices | rust/contextlease-core/src/lib.rs:2007-2026 | once the model-budget check passes, the allocator's own error is unreachable |
| Allocations.DoubleEntry | rust/contextlease-core/src/lib.rs:1319-1400 | per row: leases sum to borrowed and lent, local is allocated less borrowed without the clip, local plus lent stays within target, amounts stay between the capped floor and maximum, no module both lends and borrows |
| Allocations.BorrowerDoesNotLend | rust/contextlease-core/src/lib.rs:1319-1349 | a module that borrowed anything lent nothing, because its target was full before the first lease |
| Allocations.StrictPriority | rust/contextlease-core/src/lib.rs:1350-1384 | if a module borrows, every would-be borrower that is heavier, or as heavy and earlier in the layout, or equal in both and of a smaller id, has all it may have |
| Allocations.RowsArePrioritised | rust/contextlease-core/src/lib.rs:1350-1400 | the same, read off the published rows |
| Allocations.RowsDescribeModules | rust/contextlease-core/src/lib.rs:1385-1400 | one row a module in ascending layout order and id, with that module's floor, target, maximum and demand |
| LendingOrder.DonorsDrainInOrder | rust/contextlease-core/src/lib.rs:1331-1383 | donors lend by ascending id, each drained before the next, and the arena's slack only after all of them |
| LeaseIdentity.LeaseKeysAreUnique | rust/contextlease-core/src/lib.rs:1357-1384 | one allocation holds at most one lease per donor and borrower |
| LeaseIdentity.LeasesAreReleasable | rust/contextlease-core/src/lib.rs:1443-1458 | every lease is a positive grant to a module that may borrow, and carries that module's non-empty release pipeline |
| LeaseIdentity.DeclarationOrderIsIrrelevant | rust/contextlease-core/src/lib.rs:1331-1401 | permuting the declared modules changes neither an allocation nor a lease |
| PythonAllocator.FillPassInPython | src/contextlease/allocation.py:27-37 | one pass over the sorted active ids, with its skip of full modules, equals the kernel's round |
| PythonAllocator.WeightedFillInPython | src/contextlease/allocation.py:16-41 | the Python filling loop, over dictionaries and a set of ids, equals the kernel's filling |
| PythonAllocator.DonorsAgree | src/contextlease/allocation.py:64-73 | sorting the whole donor dictionary and dropping its zeros leaves the kernel's donors |
| PythonAllocator.CapacityIsPool | src/contextlease/allocation.py:64-69 | zero entries add nothing to the sum that decides the shared slack |
| PythonAllocator.SettleInPython | src/contextlease/allocation.py:85-130 | one borrower's turn in Python equals the kernel's |
| PythonAllocator.AllocateInPython | src/contextlease/allocation.py:44-148 | Python's own loops compute the settled books and their remainder, and equal the kernel's result exactly when the floors fit |
| PythonAllocator.RemainderMeans | src/contextlease/allocation.py:148 | what is granted and what is left make up the budget; a positive remainder means everyone is served, a negative one exactly that the floors do not fit, with bare floors and no leases |
| PythonAllocator.FloorsCanOverspend | src/contextlease/allocation.py:55-62 | an arena whose demanded floor exceeds its budget: refused by the kernel, overdrawn by one token in Python |
| Texts.CountText | rust/contextlease-core/src/lib.rs:1808-1819 | the counting loop equals the automaton |
| Texts.WordsCountsTokens | src/contextlease/tokenization.py:23-26 | the automaton counts exactly the leftmost-longest tokens of the declarative pattern |
| Texts.WordsAcrossBlanks | rust/contextlease-core/src/lib.rs:1808-1819 | counts add across any non-empty blank separator |
| TextPasses.NormalizeKeepsWords | rust/contextlease-core/src/lib.rs:1694-1696 | whitespace normalisation keeps the word count |
| TextPasses.NormalizeIsIdempotent | rust/contextlease-core/src/lib.rs:1694-1696 | normalisation keeps every field and is idempotent |
| TextPasses.DeduplicateRoundTrip | rust/contextlease-core/src/lib.rs:1697-1703 | splitting a deduplicated text gives back exactly the kept blocks |
| TextPasses.DeduplicateCorrect | rust/contextlease-core/src/lib.rs:1697-1703 | deduplication is idempotent, never raises the word count and loses no distinct block |
| TextPasses.KeepFirstMeans | rust/contextlease-core/src/lib.rs:1697-1703 | what is kept is the first block of every kind, each kind once |
| TextPasses.SentencesPartition | rust/contextlease-core/src/lib.rs:1712 | the sentence split loses no character and has no empty part |
| TextPasses.SentencesEnd | rust/contextlease-core/src/lib.rs:1712 | a sentence has no terminator before its end, and only the last may lack one |
| Counting.CountCharEstimator | rust/contextlease-core/src/lib.rs:1764-1775 | the estimator loop equals CJK characters plus quarters of the other UTF-16 units, rounded up |
| Counting.CountOfPrefix | rust/contextlease-core/src/lib.rs:442-456 | a prefix never counts more than the text, for either estimator at any multiplier |
| Counting.HostCountsStand | rust/contextlease-core/src/lib.rs:442-456 | a host's count stands as it is at any multiplier, and a failed one stands for nothing |
| Counting.CharacterCosts | rust/contextlease-core/src/lib.rs:1764-1775 | a character of the CJK blocks is worth a token, any other a quarter per UTF-16 unit |
| Texts.DecimalReadsBack | rust/contextlease-core/src/lib.rs:690 | a number's decimal text is digits that read back as the number |
| Truncation.Truncate | rust/contextlease-core/src/lib.rs:1730-1747 | the truncation loop equals the trimmed prefix at its stopping point |
| Truncation.TruncateCharEstimator | rust/contextlease-core/src/lib.rs:1777-1798 | the incremental loop equals the trimmed prefix at its stopping point |
| Truncation.FitLengthIsLongest | rust/contextlease-core/src/lib.rs:1737-1746 | the recount loop stops at the longest prefix that fits, for built-in estimators at any multiplier |
| Truncation.CharTruncationIsRecount | rust/contextlease-core/src/lib.rs:1777-1798 | the incremental loop agrees with recounting every prefix at multiplier one |
| Truncation.RecountMeetsTarget | rust/contextlease-core/src/lib.rs:1734-1746 | under any counter, the host's included, the recount loop meets every target that the empty text meets |
| Truncation.CharTruncationMeetsTargetIff | rust/contextlease-core/src/lib.rs:1730-1733 | the character path meets its target on all texts exactly at multiplier one or target zero |
| Truncation.IdeographsMissTarget | rust/contextlease-core/src/lib.rs:1730-1733 | above multiplier one, a text of as many ideographs as the target is cut to itself and counts past it |
| Truncation.SelectSentences | rust/contextlease-core/src/lib.rs:1710-1728 | the extractive loop equals the selection function |
| Truncation.SelectedWordsAreLeading | rust/contextlease-core/src/lib.rs:1710-1728 | the words taken are those of the leading sentences that fit, and the next would not have fitted |
| Truncation.SelectedSentencesAreLeading | rust/contextlease-core/src/lib.rs:1710-1728 | the text is the longest fitting run of leading sentences, trimmed and joined by single spaces, or a truncation if that is empty |
| Truncation.SelectedSentencesMeetTarget | rust/contextlease-core/src/lib.rs:1710-1728 | under any counter the extractive pass meets every target that the empty text and the truncated text meet |
| Reclaim.ApplyPass | rust/contextlease-core/src/lib.rs:1692-1708 | dispatch to the deterministic passes, with unknown algorithms leaving the text alone |
| Reclaim.PassesMean | rust/contextlease-core/src/lib.rs:1692-1747 | normalisation leaves the fields one space apart, deduplication the first block of each kind, truncation the longest fitting prefix less its blanks, and any other name the text itself |
| Reclaim.ExtractingMeans | rust/contextlease-core/src/lib.rs:1710-1728 | the extractive pass leaves the longest fitting run of leading sentences, or what boundary truncation leaves |
| Reclaim.RunPipeline | rust/contextlease-core/src/lib.rs:1616-1654 | the guarded loop equals the pipeline function, errors included |
| Reclaim.CompressModule | rust/contextlease-core/src/lib.rs:1580-1690 | a module's reclaim equals the reclaim function, errors included |
| Reclaim.PartitionIsComplete | rust/contextlease-core/src/lib.rs:1587-1589 | a chunk is on the protected side exactly when it or its module is pinned, or it is fixed, and on the other side otherwise; none is lost |
| Reclaim.PartitionKeepsOrder | rust/contextlease-core/src/lib.rs:1587-1589 | each side of the partition keeps the order of the chunks |
| Reclaim.SmallestIsFirst | rust/contextlease-core/src/lib.rs:1635-1636 | the chosen candidate is the first of the least count |
| Reclaim.RunKeepsContract | rust/contextlease-core/src/lib.rs:1616-1654 | along a pipeline the count never rises, and the text is the original or holds every required term |
| Reclaim.ReclaimContract | rust/contextlease-core/src/lib.rs:1580-1690 | on success protected chunks come first and verbatim, one chunk follows naming every elastic source, reported tokens are a recount within the allocation, and the text is the plain join or holds every required term |
| Reclaim.ReclaimAccounts | rust/contextlease-core/src/lib.rs:1580-1690 | on success the fixed and pinned chunks come out as they went in, in order, and the others became one unprotected chunk that names them all in order, owes exactly their terms, and holds those unless it is their plain join |
| Reclaim.TruncatingPipelineSucceeds | rust/contextlease-core/src/lib.rs:1587-1661 | under a counter whose truncation meets its target, with a boundary truncation, no semantic step and no required terms, reclaim succeeds exactly when the protected chunks fit and some chunk is elastic |
| StepOutcomes.FallsThroughIff | rust/contextlease-core/src/lib.rs:1616-1654 | a failing step falls through to the next exactly when it is not a semantic step |
| StepOutcomes.LaterStepsWouldHaveSaved | rust/contextlease-core/src/lib.rs:1620-1644 | whenever a pipeline reclaims a module, an unanswered semantic step in front fails it |
| StepOutcomes.UnansweredStepForfeits | rust/contextlease-core/src/lib.rs:1620-1644 | a concrete module saved by truncation and lost to an unanswered request |
| StepOutcomes.AcceptedOverTarget | rust/contextlease-core/src/lib.rs:1647-1652 | normalising any over-target text is accepted and still over the target, under the word estimator |
| StepOutcomes.AlwaysFitsIff | README.md:253 | under any counter that counts a letter as something, built-in or the host's, an algorithm's accepted results always fit exactly for the two that cut to the target, at multiplier one by characters, and if nothing counts nothing otherwise |
| StepOutcomes.BuiltInAlwaysFitsIff | README.md:253 | under the built-in estimators: exactly for those two, by words at any calibration, by characters at multiplier one |
| StepOutcomes.NothingStaysOver | rust/contextlease-core/src/lib.rs:1734-1746 | where a host counts the empty text as something, it is cut to itself, accepted and over the target zero |
| StepOutcomes.OneLetterStaysOver | rust/contextlease-core/src/lib.rs:1616-1654 | one letter at target zero: every other algorithm, semantic ones answered with the letter itself, is accepted over the target |
| StepOutcomes.OneIdeographStaysOver | rust/contextlease-core/src/lib.rs:1730-1733 | one ideograph at target one, above multiplier one: cut to itself, accepted and over the target |
| StepOutcomes.LastStepDecides | rust/contextlease-core/src/lib.rs:1616-1661 | a result accepted at the last step reclaims the module exactly when it fits, else the target is unmet |
| StepOutcomes.StoppingEarlyIsHarmless | rust/contextlease-core/src/lib.rs:1616-1619 | stopping at the first text that fits reaches the target exactly when running every step would |
| TwoPhase.CollectSemanticRequests | rust/contextlease-core/src/lib.rs:1460-1507 | the planning loop equals the planning function, errors included |
| TwoPhase.SeekFindsTheStep | rust/contextlease-core/src/lib.rs:1492-1505 | planning stops at the semantic step where committing first needs a result, holding the same text, whatever results are supplied |
| TwoPhase.NothingPlannedNothingConsulted | rust/contextlease-core/src/lib.rs:1492-1506 | when nothing is planned a commit does not depend on the results |
| TwoPhase.SemanticStepConsults | rust/contextlease-core/src/lib.rs:1620-1645 | at its semantic step a commit depends on that step's ids only, and fails asking exactly when none is answered acceptably |
| TwoPhase.PlanAndCommitAgree | rust/contextlease-core/src/lib.rs:1611-1654 | a module's reclaim is decided by the results for exactly the planned ids, and planning errors are commit errors |
| Requests.RequestsSay | rust/contextlease-core/src/lib.rs:1460-1573 | a request is its module's, leaves the grant less what is protected, names exactly the terms of the chunks to be cut, carries a text still over that, and goes to a configured provider by its trimmed name |
| Requests.PlansSay | rust/contextlease-core/src/lib.rs:1165-1254 | the same of every request of a plan, for a module of the arena and the grant its row publishes |
| Requests.ProvidersAreConfigured | rust/contextlease-core/src/lib.rs:1516-1539 | requests go to the configured names that say something, trimmed, and to no others |
| Requests.EveryProviderIsAsked | rust/contextlease-core/src/lib.rs:1548-1573 | the step that asks asks every provider it is configured with |
| Requests.ProtectedModulesDoNotAsk | rust/contextlease-core/src/lib.rs:1460-1490 | a module with nothing to cut asks for nothing, and fails exactly when what it must keep exceeds its grant |
| Requests.TrimMeans | rust/contextlease-core/src/lib.rs:1516-1539 | trimming removes exactly the blanks around a text, or everything when there is nothing else |
| Requests.AnswerReclaims | rust/contextlease-core/src/lib.rs:1620-1644 | an answer that is not blank, fits its request's target and holds its terms reclaims the module, whatever else was answered, to an answer that counts no more |
| Requests.AskingFailsIff | rust/contextlease-core/src/lib.rs:1620-1644 | a module fails for want of an answer exactly when every answer it got is blank, longer than its source or drops a term |
| Preparing.AllocateContext | rust/contextlease-core/src/lib.rs:641-675 | separators set aside, budget checked, demands measured, budget allocated |
| Preparing.ReclaimModules | rust/contextlease-core/src/lib.rs:762-783 | modules over their allocation are reclaimed in layout order; the first failure ends it |
| Preparing.RenderAllocated | rust/contextlease-core/src/lib.rs:760-866 | reclaim, rendering and the admission check equal the rendering stage |
| Preparing.PlanRequests | rust/contextlease-core/src/lib.rs:1165-1254 | planning equals the concatenated requests of the modules over their allocation |
| Preparing.PrepareDependsOnPlannedIds | rust/contextlease-core/src/lib.rs:577-604 | a whole prepare depends on semantic results only through the planned ids |
| Preparing.CheckResults | rust/contextlease-core/src/lib.rs:588-602 | the check returns the first objection, a repeated id before a foreign one |
| Preparing.AcceptedResults | rust/contextlease-core/src/lib.rs:588-602 | results pass exactly when each names a planned request and none is named twice |
| Preparing.RefusalIsFirst | rust/contextlease-core/src/lib.rs:588-602 | the objection is to the first repeated or unplanned result, and to the repetition if it is both |
| Preparing.ResultMapFinds | rust/contextlease-core/src/lib.rs:612-615 | without repeats, an id looks up the one result that names it |
| RoundTrip.WholePlanDistinctIff | rust/contextlease-core/src/lib.rs:1515-1573 | the planned ids are distinct exactly when no module that asks lists a trimmed provider twice |
| RoundTrip.AnsweringEverything | rust/contextlease-core/src/lib.rs:583-602 | a host that answers each request once is accepted exactly then, and otherwise refused for a duplicate |
| RoundTrip.RepeatedProviderIsRefused | rust/contextlease-core/src/lib.rs:588-594 | a valid arena and contributions whose two planned requests share an id, so that answering both is refused |
| HostFailures.FailuresFollowPlannedIds | rust/contextlease-core/src/lib.rs:442-475 | whether a prepare's counting failed depends on semantic results only through the planned ids |
| HostFailures.PlanningFailureCarries | rust/contextlease-core/src/lib.rs:1252 | a host failure seen while planning is seen while preparing |
| HostFailures.NothingFails | rust/contextlease-core/src/lib.rs:442-475 | with a counter that answers for every text, no count of a planning or a prepare has failed |
| HostCounters.NoFailedCountMatters | rust/contextlease-core/src/lib.rs:442-475 | a success with a host counter rests on no failed count: any counter that agrees wherever this one answers gives the same plan |
| Kernel.BuiltInTokenizerNeverFails | rust/contextlease-core/src/lib.rs:466-475 | with a built-in estimator neither planning nor preparing reports a tokenizer failure |
| Admission.UsedWithinUsable | rust/contextlease-core/src/lib.rs:644-675 | what the modules used plus the reserved separators is within the usable budget |
| Admission.WordsOfContext | rust/contextlease-core/src/lib.rs:842-858 | the rendered context has exactly the words of its chunks |
| Admission.WordAdmissionNeverFails | rust/contextlease-core/src/lib.rs:859-866 | with the word estimator at any multiplier and no null content, the admission error is unreachable |
| Admission.WordAdmissionIff | rust/contextlease-core/src/lib.rs:442-464 | at any calibration a reclaimed prepare is admitted exactly when the words of its content, and one for each null chunk, fit once scaled |
| Admission.NullContentIsTurnedAway | rust/contextlease-core/src/lib.rs:1820-1825 | for every budget and calibration, valid contributions of null chunks that count nothing and are refused |
| CharAdmission.CharTokensOfJoin | rust/contextlease-core/src/lib.rs:1764-1775 | joined texts cost at most their own tokens and those of all separators together |
| CharAdmission.SeparatorsCovered | rust/contextlease-core/src/lib.rs:1257-1281 | reserved separators cover those rendered: reclaim never makes a silent module speak |
| CharAdmission.CharAdmissionNeverFails | rust/contextlease-core/src/lib.rs:859-866 | with the character estimator at any multiplier, no null content and at most one chunk a module, the admission error is unreachable |
| CharAdmission.QuadAdmissionIff | rust/contextlease-core/src/lib.rs:1257-1281 | a module filled with valid one-token chunks is refused exactly from two chunks on |
| AdmissionBoundaries.ContextIsOneJoin | rust/contextlease-core/src/lib.rs:842-858 | joining the chunks of each module and then the modules is joining all rendering chunks |
| AdmissionBoundaries.CharAdmissionIff | rust/contextlease-core/src/lib.rs:859-866 | at any calibration a reclaimed prepare is admitted by characters exactly when its chunk texts, joined as one, fit once scaled |
| AdmissionBoundaries.ReachesAsGiven | rust/contextlease-core/src/lib.rs:762-783 | contributions within what each module may get, by its demand and its ceiling, and the budget are granted all they ask for and reach admission untouched |
| AdmissionBoundaries.FittingWordsAdmittedIff | rust/contextlease-core/src/lib.rs:859-866 | for such contributions the word condition is on the contributions alone |
| AdmissionBoundaries.FittingCharsAdmittedIff | rust/contextlease-core/src/lib.rs:859-866 | for such contributions the character condition is on the contributions alone, for any number of chunks |
| AdmissionBoundaries.NullsDecideWordSafety | rust/contextlease-core/src/lib.rs:458-464 | contributions whose observed demands, where given, cover their words are safe in every arena, budget and calibration exactly when they hold no null content |
| AdmissionBoundaries.NullsDecideAtAnyDemand | rust/contextlease-core/src/lib.rs:458-464 | whatever is contributed, its chunks are safe under every observed demand exactly when none is null |
| UnderstatedDemands.GrantsStayWithinAsked | rust/contextlease-core/src/lib.rs:1283-1402 | no allocation grants a module more than it asks for, up to its ceiling |
| UnderstatedDemands.UnderstatedNeverReaches | rust/contextlease-core/src/lib.rs:1591-1599 | a fixed chunk with more words than its module's observed demand keeps every prepare from reaching admission |
| UnderstatedDemands.UnderstatedDemandCanBeSafe | rust/contextlease-core/src/lib.rs:859-866 | valid contributions with a null that are safe everywhere, because their demand understates |
| AdmissionBoundaries.ClassIsSafeIff | rust/contextlease-core/src/lib.rs:1257-1281 | a limit of k chunks a module makes every contribution safe exactly for k zero, or k one without null content |
| Admission.PublishedUsageAddsUp | rust/contextlease-core/src/lib.rs:797-838 | one usage row a module, whose fixed and variable, pinned and elastic, retained and reclaimable columns add up to what was used: no clip acts |
| Plans.AnswersKeepPromises | rust/contextlease-core/src/lib.rs:606-1016 | a successful prepare fits the model's window less its output and framework reserves, reports the count of what it rendered, publishes and renders the modules in layout order with their own columns, grants all that is asked or left, lends by priority, reclaims only over-granted modules, and keeps protected content verbatim |
| Plans.CountIsCount | rust/contextlease-core/src/lib.rs:442-456 | a reported count is the host's own answer, or the number of pattern tokens or character tokens times the multiplier, rounded up |
| Plans.OutcomeDelivers | rust/contextlease-core/src/lib.rs:769-783 | a module within its grant keeps its chunks; one over it accounts for every chunk |
| Plans.UsageReports | rust/contextlease-core/src/lib.rs:797-838 | a usage row's fixed and pinned columns count exactly the fixed and pinned chunks it is left with, and its pressure and ratio compare what was used with the grant and with what came in |
| Plans.PressureStands | rust/contextlease-core/src/lib.rs:2086-2098 | pressure is normal, elevated, critical or overflow exactly below seven tenths, from there, from nine tenths, and above the whole of the budget |
| Plans.SeparatorsAreSetAside | rust/contextlease-core/src/lib.rs:1257-1281 | what is set aside is the count of a blank line between each two modules that render something |
| Plans.RefusalsMean | rust/contextlease-core/src/lib.rs:606-675 | a missing exact tokenizer, and floors that do not fit the window less the separators, are what stops a prepare before it allocates, exactly then |
| Rendering.ContextContains | rust/contextlease-core/src/lib.rs:842-858 | the rendered context contains every chunk of every module |
| Rendering.ProtectedContentIsRendered | rust/contextlease-core/src/lib.rs:760-866 | a prepare that succeeds renders every chunk that is fixed or pinned, or of a pinned module, verbatim, whatever the budget, pipelines and semantic results |
| EventLog.ReadingTheRing | rust/contextlease-core/src/lib.rs:1026-1042 | reading the ring reads the log after the number asked for or after what was dropped |
| EventLog.RingAnswersIff | rust/contextlease-core/src/lib.rs:1026-1042 | the ring answers as the unbounded log would exactly when nothing asked for was dropped |
| EventLog.LogSliceIsSlice | rust/contextlease-core/src/lib.rs:1026-1042 | a read is the log's events in order from its position, at most ten thousand and at most those asked for, and fewer only when there are no more |
| EventLog.ByKeyFinds | rust/contextlease-core/src/lib.rs:709-713 | with distinct keys the lease map holds each lease under its key and nothing else |
| UsageIndex.IndexIsBounded | rust/contextlease-core/src/lib.rs:976-984 | after any run the usage index has no duplicates and at most 2048 entries |
| UsageIndex.EvictsOnlyWhenFull | rust/contextlease-core/src/lib.rs:976-984 | a prepare evicts nothing below 2048 ids or when its own is filed, and at 2048 exactly the oldest |
| UsageIndex.IndexIsByPrepareOrder | rust/contextlease-core/src/lib.rs:976-984 | the index runs from least to most recently prepared, so eviction takes the oldest prepare |
| UsageIndex.PreparesCoverObservations | rust/contextlease-core/src/lib.rs:1058-1069 | accepted observations of an id, with one still pending, never outnumber its prepares |
| UsageIndex.EwmaStaysBetween | rust/contextlease-core/src/lib.rs:1090-1095 | the average stays within the range of the observed ratios |
| UsageIndex.MultiplierBounds | rust/contextlease-core/src/lib.rs:1090-1096 | the safety multiplier is at least one and at most one or the largest ratio |
| UsageIndex.ReportTeaches | rust/contextlease-core/src/lib.rs:1070-1100 | a first report's average times the estimate is the actual count, a later one weighs a fifth, an estimate of nothing counts as exact; the multiplier is the average but never below one |
| UsageIndex.FirstReportSetsMultiplier | rust/contextlease-core/src/lib.rs:1070-1100 | a first report over its estimate makes the multiplier actual over estimated; otherwise it is one |
| UsageHistory.PreparesHaveDistinctOutcomes | rust/contextlease-core/src/lib.rs:762-838 | every successful prepare has one outcome for each of different modules, so what follows applies to it |
| UsageHistory.UsageAfterMeans | rust/contextlease-core/src/lib.rs:805-808 | after a prepare the remembered usage of every module is what it used |
| UsageHistory.RatesAreAgainstPrevious | rust/contextlease-core/src/lib.rs:805-835 | each module's change rate times its remembered usage, or one, is what it moved; a module not seen before has none |
| UsageHistory.SteadyUsageHasNoRate | rust/contextlease-core/src/lib.rs:805-835 | between two prepares a module's rate is zero exactly when it used as much |
| ArenaStates.ArenaState.PushEvent | rust/contextlease-core/src/lib.rs:1134-1163 | a push numbers the event, extends the log by it and keeps the ring a window on the log |
| ArenaStates.ArenaState.Transaction | rust/contextlease-core/src/lib.rs:378-392 | a transaction starts as a copy of everything but the events |
| ArenaStates.ArenaState.DrainEvents | rust/contextlease-core/src/lib.rs:404-410 | draining leaves the last 10000 of both rings and counts every loss |
| ArenaStates.ArenaState.CommitTransaction | rust/contextlease-core/src/lib.rs:394-417 | committing adopts the transaction and restores the arena's invariant, even when the transaction overflowed its own ring |
| ArenaStates.ArenaState.EvictOldest | rust/contextlease-core/src/lib.rs:980-984 | eviction keeps the last 2048 ids and the map in step |
| ArenaStates.ArenaState.RememberUsage | rust/contextlease-core/src/lib.rs:967-984 | a prepare files its usage as the newest entry and disturbs no other |
| ArenaStates.ArenaState.RecordUsage | rust/contextlease-core/src/lib.rs:1044-1132 | a report is accepted exactly for a pending id; it consumes the id, teaches that profile's calibration what the reported numbers say, logs one event and stamps the latest snapshot, which shows its own profile's calibration exactly when the report was for that profile; a refused report changes nothing |
| ArenaStates.ArenaState.CommittedMeans | rust/contextlease-core/src/lib.rs:362-375 | after any run: ring and drop counter account for every number, the index is bounded and in step, no multiplier is below one, lease events sum to the leases in force, and a calibration on show is the one in force for the profile it names |
| Arenas.PushReclaims | rust/contextlease-core/src/lib.rs:714-735 | each lease that shrank or vanished is reported with exactly its loss |
| Arenas.PushGrants | rust/contextlease-core/src/lib.rs:736-759 | each lease that grew or appeared is reported with exactly its gain |
| Arenas.PushLeaseChanges | rust/contextlease-core/src/lib.rs:709-759 | together these events take the ledger from the old leases to the new |
| Arenas.CompressionsTell | rust/contextlease-core/src/lib.rs:784-796 | compression events tell of every module that shrank, from what to what, and of no other |
| Arenas.CallIsNamed | rust/contextlease-core/src/lib.rs:687-690 | a call goes by the host's id if visible, else by the arena id, a colon and the request's number |
| Arenas.GeneratedIdsDiffer | rust/contextlease-core/src/lib.rs:687-690 | generated ids of different requests differ |
| Kernel.ContextLeaseArena.constructor | rust/contextlease-core/src/lib.rs:479-507 | a new arena starts with an empty log and valid state |
| Kernel.ContextLeaseArena.Commit | rust/contextlease-core/src/lib.rs:681-1015 | the transaction commits a success in full and leaves no trace of a failure; the returned snapshot shows the plan, utilization, change rates, its own profile's calibration, and the events dropped up to it |
| Kernel.ContextLeaseArena.Prepare | rust/contextlease-core/src/lib.rs:606-1016 | a failed prepare changes nothing; a successful one leaves the stated events, leases, usage and snapshot, keeps every promise of `Plans` at the multiplier in force, and names its call; for safe requests the admission error cannot occur, and with a built-in estimator no tokenizer error |
| Kernel.ContextLeaseArena.Plan | rust/contextlease-core/src/lib.rs:1165-1254 | planning reads the arena and answers with the planned requests, each of which says what it should, or the error that stops it |
| Kernel.ContextLeaseArena.PrepareBegin | rust/contextlease-core/src/lib.rs:536-558 | the first phase prepares at once, keeping every promise, only when no result could matter, else changes nothing and hands out the planned requests, each of which says what it should |
| Kernel.ContextLeaseArena.PrepareCommit | rust/contextlease-core/src/lib.rs:577-604 | the second phase refuses foreign or repeated results, its outcome is decided by the planned ids alone, and on success it keeps every promise |
| Kernel.ContextLeaseArena.RecordUsage | rust/contextlease-core/src/lib.rs:1044-1132 | a usage report moves one profile's calibration by what it reports, and no lease |
| Kernel.ContextLeaseArena.ReadEvents | rust/contextlease-core/src/lib.rs:1026-1042 | callers see the log's own slice exactly when nothing they asked for was dropped |
| Kernel.AnswersAgree | rust/contextlease-core/src/lib.rs:583-604 | results that agree on the planned ids give the same answer |
| Kernel.SafeRequestsAreAdmitted | rust/contextlease-core/src/lib.rs:859-866 | no request with built-in counting, no nulls and covered separators fails admission, at any multiplier |
| Calendar.DateFromDaysCorrect | rust/contextlease-core/src/lib.rs:1848-1861 | every day count gives a valid date whose day number is that count |
| Calendar.DateFromDaysIsTheCalendar | rust/contextlease-core/src/lib.rs:1848-1861 | the date is the one reached by stepping the calendar that many days from the epoch |
| Calendar.EveryDateIsReached | rust/contextlease-core/src/lib.rs:1848-1861 | every valid date from the epoch on is the date of its own day number |
| Calendar.LaterDaysAreLaterDates | rust/contextlease-core/src/lib.rs:1848-1861 | one day count is smaller than another exactly when its date is earlier |
| Calendar.UtcTimestampRoundTrip | rust/contextlease-core/src/lib.rs:1841-1861 | a timestamp's fields are in range and determine the second it was made from |
| PythonTruncation.SearchFit | src/contextlease/compression/builtin.py:214-222 | under any counter the search stops at a part that fits while one character more does not; if longer parts never count less, that is what a linear scan finds |
| PythonTruncation.RollingBackEndsAtWord | src/contextlease/compression/builtin.py:222-227 | a head ends before the last space or newline in the second half of its part, a tail starts after its part's first blank |
| PythonTruncation.TruncateTextToTokens | src/contextlease/compression/builtin.py:209-227 | nothing for no budget, the text if it fits, else the longest fitting part rolled back to a word; the head always fits, the tail exactly when the text fits or ends lightly |
| PythonTruncation.HeadFits | src/contextlease/compression/builtin.py:214-227 | for prefix-monotone counters the head fits after the rollback and is the longest fitting prefix before it |
| PythonTruncation.TailFitsIff | src/contextlease/compression/builtin.py:217-225 | the tail of an oversized text fits exactly when its last character fits alone or is its first blank |
| PythonTruncation.TailIsSafeIff | src/contextlease/compression/builtin.py:217-225 | the tail meets the target on all texts exactly when no single character exceeds it |
| PythonTruncation.PairsOverflow | src/contextlease/compression/builtin.py:222 | a counter, text and target for which the tail exceeds the target |
| PythonTruncation.OwnCountersAreMonotone | src/contextlease/tokenization.py:16-43 | the pattern and character counters are prefix- and suffix-monotone and charge at most one token a character |
| PythonTruncation.OwnCountersMeetTarget | src/contextlease/compression/builtin.py:209-227 | with those counters every positive target is met, head or tail |
| PythonPipeline.Execute | src/contextlease/compression/pipeline.py:16-61 | the loop looks steps up, skips exceptions when it fails open and reports that claim growth, stops at the target, and returns content, counts, status, lossy flag, removed items, applied ids and traces |
| PythonPipeline.StepMeans | src/contextlease/compression/pipeline.py:29-51 | a step asks with its own options over the caller's; an exception is skipped and traced when failing open, claimed growth is turned away and traced, any other report is taken over, its trace before the step's id and status |
| PythonPipeline.GuardMeans | src/contextlease/compression/builtin.py:24-50 | the guard's four verdicts and when it gives each; only a kept proposal changes anything |
| PythonPipeline.FunctionAlgorithmMeans | src/contextlease/compression/builtin.py:55-65 | a function algorithm raises exactly when its function does, and else reports through the guard with its own lossy flag |
| PythonPipeline.FailOpenNeverFails | src/contextlease/compression/pipeline.py:35-41 | failing open, a pipeline errs only at an id nobody registered |
| PythonPipeline.FailClosedRaisesOrAgrees | src/contextlease/compression/pipeline.py:37-41 | failing closed either raises for a failed step or does exactly what failing open does |
| PythonPipeline.TracesAccount | src/contextlease/compression/pipeline.py:29-51 | every step reached leaves one trace, steps are left out only once the target is met, and with none applied nothing was changed, lost or removed |
| PythonPipeline.KeepsContractIff | src/contextlease/compression/pipeline.py:29-51 | every pipeline of a set of algorithms never grows its content and ends with the original or all required terms exactly when each algorithm is harmless whenever it reports no growth |
| PythonPipeline.HarmlessPipeline | src/contextlease/compression/pipeline.py:29-51 | harmless algorithms keep the contract from any step and any content on |
| PythonPipeline.FunctionPipeline | src/contextlease/compression/builtin.py:24-65 | whatever function algorithms propose or raise, their pipelines keep the contract |
| PythonPipeline.MisreportsCanGrow | src/contextlease/compression/pipeline.py:42-45 | an algorithm that reports zero and zero makes one token into two past the pipeline's own check |
| PythonSelection.PrioritySelect | src/contextlease/compression/builtin.py:151-170 | the greedy loop keeps the selected items and reports the others |
| PythonSelection.SelectionFits | src/contextlease/compression/builtin.py:162-166 | what is kept fits unless it is one item, and the top-ranked item is kept |
| PythonSelection.GreedyByPriority | src/contextlease/compression/builtin.py:151-166 | an item is kept exactly when it fits beside the kept items of higher priority, or as high and earlier, or when there are none |
| PythonSelection.KeptCounts | src/contextlease/compression/builtin.py:167-169 | an item is kept as often as it stands at a chosen position |
| PythonSelection.SelectionKeepsOrder | src/contextlease/compression/builtin.py:168-169 | kept and removed items stay in the order of the list |
| PythonSelection.SelectionPartitions | src/contextlease/compression/builtin.py:167-169 | kept and removed items partition the input |
| PythonGroups.GroupMessages | src/contextlease/compression/builtin.py:259-271 | the loop gathers messages by their derived key, groups in order of first appearance |
| PythonGroups.MessageGroupSelect | src/contextlease/compression/builtin.py:256-283 | the selection keeps groups whole and in order, and reports the dropped ones |
| PythonGroups.GroupingIsComplete | src/contextlease/compression/builtin.py:259-271 | grouping loses no message, and messages share a group exactly when they share a key |
| PythonGroups.KeysMean | src/contextlease/compression/builtin.py:262-267 | messages share a key exactly when they share the first field they have, of dependency group, tool call and id; those that have none stand alone |
| PythonGroups.GroupsInListOrder | src/contextlease/compression/builtin.py:259-271 | a group's messages are in list order, and groups in the order of their first messages |
| PythonGroups.GroupSelectionFits | src/contextlease/compression/builtin.py:272-281 | system groups are kept and something is kept; as considered it fits unless it is the system groups alone or one group; it is kept as a permutation of that, which counts the same for a counter that ignores message order |
| PythonGroups.GroupJoinsIff | src/contextlease/compression/builtin.py:272-279 | a group without a system message is kept exactly when none taken before it, systems first and then later ones, holds the same messages, and it fits beside those or there are none |
| PythonGroups.OwnCountersIgnoreOrder | src/contextlease/tokenization.py:28-48 | over a serialised list the pattern and character counters ignore message order, however a message is written |
| PythonGroups.OrderCanMatter | src/contextlease/compression/builtin.py:272-281 | a counter, two messages and a target for which what is considered fits and what is kept does not |
| PythonGroups.GroupSelectionPartitions | src/contextlease/compression/builtin.py:280-282 | kept and dropped groups partition the groups |
| PythonGroups.GroupSelectionKeepsOrder | src/contextlease/compression/builtin.py:280-283 | kept groups, and dropped ones, stay in order |
| Observations.ObservationStore.Create | src/contextlease/observation.py:14-24 | a store exists exactly for a positive capacity |
| Observations.ObservationStore.PublishEvent | src/contextlease/observation.py:31-37 | a queue stays the tail of its arena's log and the counter accounts for the rest |
| Observations.ObservationStore.PublishMany | src/contextlease/observation.py:39-41 | events join one arena's log in order and touch no other |
| Observations.ObservationStore.GetSnapshot | src/contextlease/observation.py:59-69 | the latest snapshot, its loss reported as the store's own and what the snapshot counts |
| Observations.ObservationStore.ReadEvents | src/contextlease/observation.py:71-76 | a numbered log is answered exactly when nothing asked for was dropped |
| Observations.ObservationStore.MinimumEventSeq | src/contextlease/observation.py:78-81 | the oldest number held is one past what was dropped |
| Host.HostIsRefusedIff | src/contextlease/runtime.py:132-155 | the facade's own prepare is refused for its results exactly when every provider answers and a module that asks lists one provider twice |
| Host.HostArena.Summarize | src/contextlease/runtime.py:145-147 | one result per request in order, under its id and with its provider's text, or the first provider failure |
| Host.HostArena.Transact | src/contextlease/runtime.py:140-151 | both phases against the kernel answer as one function of the request and the providers; a failure changes nothing |
| Host.SeesTheEndIff | src/contextlease/runtime.py:162-163 | the last number among the first ten thousand held is the log's last exactly when no more are held |
| Host.CatchesUpIff | src/contextlease/runtime.py:164-171 | what is read after the last number seen is exactly the new event exactly when that number was the log's last |
| Host.HostArena.Prepare | src/contextlease/runtime.py:132-155 | a prepare through the facade keeps the store a mirror of the kernel's log, and the loss then reported is the store's exactly when the log fitted the ring before and the prepare's events up to its snapshot fit it |
| Host.HostArena.RecordUsage | src/contextlease/runtime.py:157-180 | a usage report keeps the mirror exactly when the store held at most ten thousand events, and the loss then reported is the store's exactly when the log fits the ring |
| HostRuns.LossIsMisreported | src/contextlease/runtime.py:152-155 | a run of prepares past the ring after which the store reports a loss it did not have |
| HostRuns.ReportsRepeat | src/contextlease/runtime.py:161-176 | a run after which a usage report tells a larger store old events again |
| HostRuns.OtherProfileIsShown | rust/contextlease-core/src/lib.rs:1119-1127 | two profiles in turn and a report for the first: the second's snapshot shows the first's calibration |

## Left out

- Arenas.PushReclaims: leaves the order of the reclaimed leases open, as the source walks a hash map there.
- AdmissionBoundaries.NullsDecideWordSafety: where a host's observed demand is below a module's words, the module must be reclaimed or fails, and no condition on such contributions is stated beyond `NullsDecideAtAnyDemand`.
- PythonPipeline.Execute: the guard's notion of holding a term (case folding, serialised content) is a parameter, algorithms are functions of their request, and a request's services and metadata, which no step changes, are part of the algorithm.
- PythonGroups.GroupSelectionFits: for a counter that minds message order, such as a byte-pair tokenizer, only the considered order is shown to fit; `OrderCanMatter` is a case where the order kept does not.
- Kernel.ContextLeaseArena.Commit: leaves out slack, which is usable less used, and the constants of health.
- Floating-point rounding, 32-bit overflow and non-finite weights: shares, ratios and multipliers are exact reals and counts are unbounded integers.
- Real thread interleaving: operations are atomic, except that the transaction is proved for any multiplier of at least one, since the multiplier is read under an earlier lock.
- The SHA-256 digest: a semantic request id is an injective function of what it fingerprints, and a required term is taken not to contain the separator character.
- Lease id text and the layout hash: a lease is identified by donor and borrower, with the arena's slack as a donor of its own; ids that contain ':' or equal the slack's name are not modelled.
- Module ids as strings: an id stands for its rank in byte order.
- Validation of definitions, profiles, schema versions, contributions and observed demands: their outcome is a precondition or a type. The model-budget check itself is modelled.
- A host tokenizer that is not deterministic: a host counter is a function of the text for the duration of one call.
- Admission with a host counter: nothing is promised for it, so nothing is proved but the check itself.
- Character classes: word and blank are the host's Unicode tables; that Rust and Python agree on them is assumed.
- Timestamp text: the fields of a timestamp are modelled, their zero-padded formatting and the clock are not. Events and snapshots carry no times.
- JSON parsing and serialisation, chunk kinds, priorities, dependency groups and metadata other than source ids; the required terms of a compressed chunk are a set rather than a sorted list.
- The remaining Python algorithms: whitespace and block passes with their regular expressions, structured and exact deduplication, recency selection, sentence ranking, similarity, field pruning, externalisation and summary providers.
- The conversion of kernel documents to Python objects in the facade, instance ids, and other users of a shared store.
- Observation store waiting, arena listing and public serialisation.
- The C ABI, the C, C++, Go and .NET bindings, the command line, the debug server and packaging.
