/**
 End-to-end admission: when a prepare built on a built-in estimator has reclaimed every module,
 the rendered context cannot exceed the usable budget, and when it still can.
 */
module Admission {
  import opened Basics
  import opened Texts
  import opened Counting
  import opened Layout
  import opened Leasing
  import opened Allocations
  import opened Reclaim
  import opened Preparing
  import opened Usage

  // ----- What the outcomes add up to -----

  function UsedTotal(outcomes: seq<Outcome>): int {
    if outcomes == [] then 0 else outcomes[0].used + UsedTotal(outcomes[1..])
  }

  predicate NoNulls(chunks: seq<Chunk>) {
    forall c | c in chunks :: !c.content.Null?
  }

  predicate NoNullContributions(contributions: Contributions) {
    forall id | id in contributions :: NoNulls(contributions[id].chunks)
  }

  /** Each outcome spends what its chunks count, and no more than its module was granted. */
  predicate SpendsItsGrant(o: Outcome, granted: int, counts: Calibrated) {
    o.used == CountChunks(o.chunks, counts) <= granted
  }

  lemma OutcomeSpends(m: ModuleDefinition, chunks: seq<Chunk>, granted: int,
                      results: SemanticResults, counts: Calibrated)
    ensures var o := OutcomeOf(m, chunks, granted, results, counts);
            o.Ok? ==> SpendsItsGrant(o.value, granted, counts)
  {
    hide ReclaimModule;
    ReclaimContract(m, chunks, granted, results, counts);
  }

  lemma {:induction false} PartitionSizes(m: ModuleDefinition, chunks: seq<Chunk>)
    ensures |Protected(m, chunks)| + |Elastic(m, chunks)| == |chunks|
  {
    if chunks != [] {
      PartitionSizes(m, chunks[1..]);
    }
  }

  lemma ReclaimedNeedsElastic(m: ModuleDefinition, chunks: seq<Chunk>, granted: int,
                              results: SemanticResults, counts: Calibrated)
    ensures ReclaimModule(m, chunks, granted, results, counts).Ok? ==> Elastic(m, chunks) != []
  {
    hide RunFrom;
  }

  lemma ProtectedHasNoNulls(m: ModuleDefinition, chunks: seq<Chunk>)
    requires NoNulls(chunks)
    ensures NoNulls(Protected(m, chunks))
  {
    PartitionIsComplete(m, chunks);
  }

  /** Reclaim brings in no null content and never lengthens a module's chunk list. */
  lemma OutcomeShape(m: ModuleDefinition, chunks: seq<Chunk>, granted: int,
                     results: SemanticResults, counts: Calibrated)
    ensures var o := OutcomeOf(m, chunks, granted, results, counts);
            o.Ok? ==> (NoNulls(chunks) ==> NoNulls(o.value.chunks)) && |o.value.chunks| <= |chunks|
  {
    hide ReclaimModule, Protected, Elastic, RequiredTerms, ElasticText, CountChunks;
    ReclaimContract(m, chunks, granted, results, counts);
    ReclaimedNeedsElastic(m, chunks, granted, results, counts);
    PartitionSizes(m, chunks);
    var r := ReclaimModule(m, chunks, granted, results, counts);
    if r.Ok? {
      var n := |Protected(m, chunks)|;
      assert r.value.chunks == r.value.chunks[..n] + [r.value.chunks[n]];
      if NoNulls(chunks) {
        ProtectedHasNoNulls(m, chunks);
      }
    }
  }

  lemma {:induction false} BlankChunksCountNothing(chunks: seq<Chunk>, counts: Calibrated)
    requires !RendersSomething(chunks) && counts.external.None?
    ensures CountChunks(chunks, counts) == 0
  {
    if chunks != [] {
      assert chunks[0] in chunks;
      assert Render(chunks[0].content) == [];
      CountOfEmpty(counts);
      assert !RendersSomething(chunks[1..]);
      BlankChunksCountNothing(chunks[1..], counts);
    }
  }

  /** A module that renders nothing is never reclaimed, so it still renders nothing. */
  lemma BlankModuleStaysBlank(m: ModuleDefinition, chunks: seq<Chunk>, granted: int,
                              results: SemanticResults, counts: Calibrated)
    requires !RendersSomething(chunks) && counts.external.None? && granted >= 0
    ensures OutcomeOf(m, chunks, granted, results, counts) == Ok(Outcome(m.id, chunks, 0, 0))
  {
    BlankChunksCountNothing(chunks, counts);
  }

  // ----- The rendered words -----

  lemma {:induction false} TotalWordsOfNonEmpty(parts: seq<Text>)
    ensures TotalWords(NonEmpty(parts)) == TotalWords(parts)
  {
    if parts != [] {
      TotalWordsOfNonEmpty(parts[1..]);
      assert [] + NonEmpty(parts[1..]) == NonEmpty(parts[1..]);
      assert ([parts[0]] + NonEmpty(parts[1..]))[1..] == NonEmpty(parts[1..]);
    }
  }

  lemma WordsOfRenderChunks(chunks: seq<Chunk>)
    ensures Words(RenderChunks(chunks)) == TotalWords(Rendered(chunks))
  {
    WordsOfJoin(NonEmpty(Rendered(chunks)), BREAK);
    TotalWordsOfNonEmpty(Rendered(chunks));
  }

  function ChunkWords(outcomes: seq<Outcome>): nat {
    if outcomes == [] then 0 else TotalWords(Rendered(outcomes[0].chunks)) + ChunkWords(outcomes[1..])
  }

  lemma {:induction false} WordsOfModuleTexts(outcomes: seq<Outcome>)
    ensures TotalWords(ModuleTexts(outcomes)) == ChunkWords(outcomes)
  {
    if outcomes != [] {
      WordsOfModuleTexts(outcomes[1..]);
      WordsOfRenderChunks(outcomes[0].chunks);
      assert ModuleTexts(outcomes)[1..] == ModuleTexts(outcomes[1..]);
    }
  }

  /** The rendered context has exactly the words of its chunks: separators merge and add nothing. */
  lemma WordsOfContext(outcomes: seq<Outcome>)
    ensures Words(RenderContext(outcomes)) == ChunkWords(outcomes)
  {
    WordsOfJoin(NonEmpty(ModuleTexts(outcomes)), BREAK);
    TotalWordsOfNonEmpty(ModuleTexts(outcomes));
    WordsOfModuleTexts(outcomes);
  }

  lemma {:induction false} ScaledChunksWithinCount(chunks: seq<Chunk>, counts: Calibrated)
    requires counts.CountsWords() && NoNulls(chunks)
    ensures Scaled(TotalWords(Rendered(chunks)), counts.multiplier) <= CountChunks(chunks, counts)
  {
    if chunks == [] {
      ScaledZero(counts.multiplier);
    } else {
      ScaledChunksWithinCount(chunks[1..], counts);
      assert chunks[0] in chunks;
      assert Rendered(chunks)[1..] == Rendered(chunks[1..]);
      ScaledSubadditive(Words(Render(chunks[0].content)), TotalWords(Rendered(chunks[1..])), counts.multiplier);
    }
  }

  ghost predicate AllSpend(outcomes: seq<Outcome>, counts: Calibrated) {
    forall o | o in outcomes :: o.used == CountChunks(o.chunks, counts)
  }

  predicate NoNullOutcomes(outcomes: seq<Outcome>) {
    forall o | o in outcomes :: NoNulls(o.chunks)
  }

  lemma {:induction false} ScaledContextWithinUsed(outcomes: seq<Outcome>, counts: Calibrated)
    requires counts.CountsWords() && NoNullOutcomes(outcomes) && AllSpend(outcomes, counts)
    ensures Scaled(ChunkWords(outcomes), counts.multiplier) <= UsedTotal(outcomes)
  {
    hide CountChunks, TotalWords, NoNulls;
    if outcomes == [] {
      ScaledZero(counts.multiplier);
    } else {
      ScaledContextWithinUsed(outcomes[1..], counts);
      assert outcomes[0] in outcomes;
      ScaledChunksWithinCount(outcomes[0].chunks, counts);
      ScaledSubadditive(TotalWords(Rendered(outcomes[0].chunks)), ChunkWords(outcomes[1..]), counts.multiplier);
    }
  }

  // ----- Null content, counted as nothing but rendered as a word -----

  function NullChunks(chunks: seq<Chunk>): nat {
    if chunks == [] then 0 else (if chunks[0].content.Null? then 1 else 0) + NullChunks(chunks[1..])
  }

  function NullTotal(outcomes: seq<Outcome>): nat {
    if outcomes == [] then 0 else NullChunks(outcomes[0].chunks) + NullTotal(outcomes[1..])
  }

  lemma NullIsOneWord()
    ensures Words(NULL_TEXT) == 1
  {
    var t := NULL_TEXT;
    WordRunScan(t);
    assert WordRun(t) == 4;
    assert t[4..] == [];
  }

  /** The words of everything that is not null. */
  function PlainWords(chunks: seq<Chunk>): nat {
    if chunks == [] then 0
    else (if chunks[0].content.Null? then 0 else Words(Render(chunks[0].content))) + PlainWords(chunks[1..])
  }

  function PlainTotal(outcomes: seq<Outcome>): nat {
    if outcomes == [] then 0 else PlainWords(outcomes[0].chunks) + PlainTotal(outcomes[1..])
  }

  lemma {:induction false} ChunkWordsSplit(chunks: seq<Chunk>)
    ensures TotalWords(Rendered(chunks)) == PlainWords(chunks) + NullChunks(chunks)
  {
    if chunks != [] {
      ChunkWordsSplit(chunks[1..]);
      NullIsOneWord();
      assert Rendered(chunks)[1..] == Rendered(chunks[1..]);
    }
  }

  /** The rendered words are those of the content, and one per null chunk. */
  lemma {:induction false} ContextWordsSplit(outcomes: seq<Outcome>)
    ensures ChunkWords(outcomes) == PlainTotal(outcomes) + NullTotal(outcomes)
  {
    if outcomes != [] {
      ContextWordsSplit(outcomes[1..]);
      ChunkWordsSplit(outcomes[0].chunks);
    }
  }

  // ----- Outcomes against grants -----

  function GrantsFrom(order: seq<ModuleDefinition>, i: nat, rows: seq<ModuleAllocation>): int
    decreases |order| - i
  {
    if i >= |order| then 0 else GrantedBy(rows, order[i].id) + GrantsFrom(order, i + 1, rows)
  }

  lemma {:induction false} OutcomesSpend(order: seq<ModuleDefinition>, i: nat, contributions: Contributions,
                                         rows: seq<ModuleAllocation>, results: SemanticResults, counts: Calibrated)
    ensures var os := OutcomesFrom(order, i, contributions, rows, results, counts);
            os.Ok? ==> AllSpend(os.value, counts) && UsedTotal(os.value) <= GrantsFrom(order, i, rows)
    decreases |order| - i
  {
    hide OutcomeOf, CountChunks, GrantedBy, ChunksOf;
    if i < |order| {
      var m := order[i];
      OutcomeSpends(m, ChunksOf(contributions, m.id), GrantedBy(rows, m.id), results, counts);
      OutcomesSpend(order, i + 1, contributions, rows, results, counts);
      var o := OutcomeOf(m, ChunksOf(contributions, m.id), GrantedBy(rows, m.id), results, counts);
      var rest := OutcomesFrom(order, i + 1, contributions, rows, results, counts);
      if o.Ok? && rest.Ok? {
        assert ([o.value] + rest.value)[1..] == rest.value;
      }
    }
  }

  lemma {:induction false} OutcomesHaveNoNulls(order: seq<ModuleDefinition>, i: nat, contributions: Contributions,
                                               rows: seq<ModuleAllocation>, results: SemanticResults,
                                               counts: Calibrated)
    requires NoNullContributions(contributions)
    ensures var os := OutcomesFrom(order, i, contributions, rows, results, counts);
            os.Ok? ==> NoNullOutcomes(os.value)
    decreases |order| - i
  {
    hide OutcomeOf, GrantedBy;
    if i < |order| {
      var m := order[i];
      OutcomeShape(m, ChunksOf(contributions, m.id), GrantedBy(rows, m.id), results, counts);
      OutcomesHaveNoNulls(order, i + 1, contributions, rows, results, counts);
    }
  }

  predicate RowsFollow(order: seq<ModuleDefinition>, rows: seq<ModuleAllocation>) {
    |rows| == |order| && forall i | 0 <= i < |rows| :: rows[i].id == order[i].id
  }

  lemma {:induction false} GrantsUnaffected(order: seq<ModuleDefinition>, i: nat, r: ModuleAllocation,
                                            rows: seq<ModuleAllocation>)
    requires forall j | i <= j < |order| :: order[j].id != r.id
    ensures GrantsFrom(order, i, [r] + rows) == GrantsFrom(order, i, rows)
    decreases |order| - i
  {
    if i < |order| {
      assert ([r] + rows)[1..] == rows;
      GrantsUnaffected(order, i + 1, r, rows);
    }
  }

  lemma {:induction false} GrantsShift(order: seq<ModuleDefinition>, i: nat, rows: seq<ModuleAllocation>)
    requires 1 <= i <= |order|
    ensures GrantsFrom(order, i, rows) == GrantsFrom(order[1..], i - 1, rows)
    decreases |order| - i
  {
    if i < |order| {
      GrantsShift(order, i + 1, rows);
    }
  }

  lemma {:induction false} GrantsAreRows(order: seq<ModuleDefinition>, rows: seq<ModuleAllocation>)
    requires RowsFollow(order, rows) && DistinctIds(order)
    ensures GrantsFrom(order, 0, rows) == GrantedTotal(rows)
  {
    if order != [] {
      var r, rest := rows[0], rows[1..];
      assert rows == [r] + rest;
      GrantsAreRows(order[1..], rest);
      GrantsUnaffected(order, 1, r, rest);
      GrantsShift(order, 1, rest);
    }
  }

  lemma {:induction false} DemandNonNegative(ms: seq<ModuleDefinition>, contributions: Contributions,
                                             counts: Calibrated, id: ModuleId)
    ensures Of(Demands(ms, contributions, counts), id) >= 0
  {
    hide DemandOf;
    if ms != [] {
      DemandNonNegative(ms[1..], contributions, counts, id);
    }
  }

  lemma {:induction false} GrantsNonNegative(rows: seq<ModuleAllocation>, id: ModuleId)
    requires forall r | r in rows :: r.granted >= 0
    ensures GrantedBy(rows, id) >= 0
  {
    if rows != [] {
      GrantsNonNegative(rows[1..], id);
    }
  }

  /** The published rows follow layout order, are never negative, and sum to at most the budget. */
  lemma RowsWithinBudget(d: ArenaDefinition, demands: Amounts, budget: int)
    requires ValidModules(d.modules) && NonNegative(d.modules, demands)
    ensures var a := Allocation(d, demands, budget);
            a.Ok? ==>
              && RowsFollow(Sort(d.modules, ByLayout), a.value.rows)
              && GrantedTotal(a.value.rows) <= budget - d.frameworkReserve
              && forall r | r in a.value.rows :: r.granted >= 0
  {
    hide Settled, EligibleTotal, FloorsFit, Sort, GrantedTotal, ValidModules, NonNegative, DemandCapped, Total;
    WorkConservation(d, demands, budget);
    DoubleEntry(d, demands, budget);
    var a := Allocation(d, demands, budget);
    if a.Ok? {
      forall r | r in a.value.rows ensures r.granted >= 0 {
        assert RowBalances(r, a.value.leases);
      }
    }
  }

  lemma LayoutOrder(ms: seq<ModuleDefinition>)
    requires DistinctIds(ms)
    ensures var order := Sort(ms, ByLayout);
            DistinctIds(order) && forall m :: m in order <==> m in ms
  {
    SortPermutes(ms, ByLayout);
    SameMembers(Sort(ms, ByLayout), ms);
    PermutationDistinct(ms, Sort(ms, ByLayout));
  }

  /** What the modules were granted in all, and what separators are reserved beside it. */
  lemma GrantsWithinBudget(d: ArenaDefinition, contributions: Contributions, inputBudget: int, counts: Calibrated)
    requires ValidModules(d.modules)
    ensures var a := AllocationStage(d, contributions, inputBudget, counts);
            a.Ok? ==>
              && GrantsFrom(Sort(d.modules, ByLayout), 0, a.value.rows)
                 + SeparatorTokens(d.modules, contributions, counts)
                 <= inputBudget - d.frameworkReserve
              && forall r | r in a.value.rows :: r.granted >= 0
  {
    hide Demands, SeparatorTokens, Allocation, Sort, GrantedTotal, GrantsFrom, BudgetFitsFloors, RowsFollow,
         ValidModule;
    var demands := Demands(d.modules, contributions, counts);
    var budget := inputBudget - SeparatorTokens(d.modules, contributions, counts);
    forall m | m in d.modules ensures Of(demands, m.id) >= 0 {
      DemandNonNegative(d.modules, contributions, counts, m.id);
    }
    RowsWithinBudget(d, demands, budget);
    LayoutOrder(d.modules);
    var a := Allocation(d, demands, budget);
    if a.Ok? {
      GrantsAreRows(Sort(d.modules, ByLayout), a.value.rows);
    }
  }

  // ----- The theorem for the default estimator -----

  /** A reclaimed prepare, before the admission check. */
  ghost predicate Reaches(d: ArenaDefinition, contributions: Contributions, inputBudget: int,
                          results: SemanticResults, counts: Calibrated, a: Allocated, outcomes: seq<Outcome>)
    requires ValidModules(d.modules)
  {
    && AllocationStage(d, contributions, inputBudget, counts) == Ok(a)
    && OutcomesFrom(Sort(d.modules, ByLayout), 0, contributions, a.rows, results, counts) == Ok(outcomes)
  }

  lemma ReachedPlan(d: ArenaDefinition, contributions: Contributions, inputBudget: int,
                    results: SemanticResults, counts: Calibrated, a: Allocated, outcomes: seq<Outcome>)
    requires ValidModules(d.modules) && Reaches(d, contributions, inputBudget, results, counts, a, outcomes)
    ensures PlanContext(d, contributions, inputBudget, results, counts) == Admit(d, a, outcomes, inputBudget, counts)
  {
    hide AllocationStage, OutcomesFrom, Admit;
  }

  /** Used is within granted, and granted plus reserved separators within the usable budget. */
  lemma UsedWithinUsable(d: ArenaDefinition, contributions: Contributions, inputBudget: int,
                         results: SemanticResults, counts: Calibrated, a: Allocated, outcomes: seq<Outcome>)
    requires ValidModules(d.modules) && Reaches(d, contributions, inputBudget, results, counts, a, outcomes)
    ensures AllSpend(outcomes, counts)
    ensures UsedTotal(outcomes) + SeparatorTokens(d.modules, contributions, counts)
            <= inputBudget - d.frameworkReserve
  {
    GrantsWithinBudget(d, contributions, inputBudget, counts);
    OutcomesSpend(Sort(d.modules, ByLayout), 0, contributions, a.rows, results, counts);
  }

  lemma {:induction false} OneOutcomeEach(order: seq<ModuleDefinition>, i: nat, contributions: Contributions,
                                          rows: seq<ModuleAllocation>, results: SemanticResults, counts: Calibrated)
    requires i <= |order|
    ensures var os := OutcomesFrom(order, i, contributions, rows, results, counts);
            os.Ok? ==> |os.value| == |order| - i && forall k | 0 <= k < |os.value| :: os.value[k].id == order[i + k].id
    decreases |order| - i
  {
    hide ReclaimModule, CountChunks, GrantedBy, ChunksOf;
    if i < |order| {
      OneOutcomeEach(order, i + 1, contributions, rows, results, counts);
    }
  }

  lemma {:induction false} UsageRowsAddUp(order: seq<ModuleDefinition>, rows: seq<ModuleAllocation>,
                                          outcomes: seq<Outcome>, counts: Calibrated)
    requires AllSpend(outcomes, counts) && |order| == |rows| == |outcomes|
    ensures |UsageRows(order, rows, outcomes, counts)| == |order|
    ensures forall i | 0 <= i < |order| ::
              var u := UsageRows(order, rows, outcomes, counts)[i];
              AddsUp(u) && u.allocation == rows[i] && u.used == outcomes[i].used
  {
    hide UsageOf, CountChunks, AddsUp;
    if order != [] {
      var o := outcomes[0];
      assert o in outcomes;
      UsageAddsUp(order[0], rows[0], o.chunks, o.before, o.used, counts);
      UsageCarries(order[0], rows[0], o.chunks, o.before, o.used, counts);
      UsageRowsAddUp(order[1..], rows[1..], outcomes[1..], counts);
      var rest := UsageRows(order[1..], rows[1..], outcomes[1..], counts);
      assert forall i | 0 < i < |order| :: UsageRows(order, rows, outcomes, counts)[i] == rest[i - 1];
    }
  }

  lemma UsageCarries(m: ModuleDefinition, row: ModuleAllocation, chunks: seq<Chunk>, before: int, after: int,
                     counts: Calibrated)
    ensures var u := UsageOf(m, row, chunks, before, after, counts); u.allocation == row && u.used == after
  {
  }

  /**
   A prepare publishes one usage row for each module, in which fixed and variable, pinned and
   elastic, retained and reclaimable tokens each add up to what the module used.
   */
  lemma PublishedUsageAddsUp(d: ArenaDefinition, contributions: Contributions, inputBudget: int,
                             results: SemanticResults, counts: Calibrated, plan: Plan)
    requires ValidModules(d.modules) && PlanContext(d, contributions, inputBudget, results, counts) == Ok(plan)
    ensures |plan.usage| == |plan.allocation.rows| == |plan.outcomes| == |d.modules|
    ensures forall i | 0 <= i < |plan.usage| ::
              && AddsUp(plan.usage[i]) && plan.usage[i].allocation == plan.allocation.rows[i]
              && plan.usage[i].used == plan.outcomes[i].used
  {
    hide OutcomesFrom, AllSpend, SeparatorTokens, UsageRows, RenderContext, Allocation, Demands, BudgetFitsFloors, Sort,
         AddsUp;
    var order, rows := Sort(d.modules, ByLayout), plan.allocation.rows;
    var demands := Demands(d.modules, contributions, counts);
    forall m | m in d.modules ensures Of(demands, m.id) >= 0 {
      DemandNonNegative(d.modules, contributions, counts, m.id);
    }
    RowsWithinBudget(d, demands, inputBudget - SeparatorTokens(d.modules, contributions, counts));
    SortPermutes(d.modules, ByLayout);
    SameMembers(order, d.modules);
    OutcomesSpend(order, 0, contributions, rows, results, counts);
    OneOutcomeEach(order, 0, contributions, rows, results, counts);
    UsageRowsAddUp(order, rows, plan.outcomes, counts);
  }

  lemma AllocationStageErrors(d: ArenaDefinition, contributions: Contributions, inputBudget: int, counts: Calibrated)
    requires ValidModules(d.modules)
    ensures AllocationStage(d, contributions, inputBudget, counts) != Err(RenderedExceedsBudget)
  {
    hide Allocation, SeparatorTokens, Demands, BudgetFitsFloors;
  }

  /**
   With the word estimator, at any calibration, and no null content: once every module has passed
   reclaim, the rendered context fits and the admission error cannot occur.
   */
  lemma WordAdmissionNeverFails(d: ArenaDefinition, contributions: Contributions, inputBudget: int,
                                results: SemanticResults, counts: Calibrated)
    requires ValidModules(d.modules) && counts.CountsWords() && NoNullContributions(contributions)
    ensures PlanContext(d, contributions, inputBudget, results, counts) != Err(RenderedExceedsBudget)
  {
    AllocationStageErrors(d, contributions, inputBudget, counts);
    hide AllocationStage, OutcomesFrom, AllSpend, SeparatorTokens, Sort, RenderContext, NoNullContributions;
    var a := AllocationStage(d, contributions, inputBudget, counts);
    if a.Ok? {
      var order := Sort(d.modules, ByLayout);
      var outcomes := OutcomesFrom(order, 0, contributions, a.value.rows, results, counts);
      if outcomes.Ok? {
        UsedWithinUsable(d, contributions, inputBudget, results, counts, a.value, outcomes.value);
        OutcomesHaveNoNulls(order, 0, contributions, a.value.rows, results, counts);
        ScaledContextWithinUsed(outcomes.value, counts);
        WordsOfContext(outcomes.value);
      }
    }
  }

  /**
   Exactly when the word estimator admits a reclaimed prepare, at any calibration: when the words
   of its content, and one for each null chunk, fit once scaled.
   */
  lemma WordAdmissionIff(d: ArenaDefinition, contributions: Contributions, inputBudget: int,
                         results: SemanticResults, counts: Calibrated, a: Allocated, outcomes: seq<Outcome>)
    requires ValidModules(d.modules) && counts.CountsWords()
    requires Reaches(d, contributions, inputBudget, results, counts, a, outcomes)
    ensures PlanContext(d, contributions, inputBudget, results, counts).Ok?
            <==> Scaled(PlainTotal(outcomes) + NullTotal(outcomes), counts.multiplier)
                 <= inputBudget - d.frameworkReserve
  {
    hide AllocationStage, OutcomesFrom, Sort, RenderContext;
    ReachedPlan(d, contributions, inputBudget, results, counts, a, outcomes);
    ContextWordsSplit(outcomes);
    WordsOfContext(outcomes);
  }

  /** A reclaimed prepare over the usable budget is turned away, and for no other reason. */
  lemma WordsTooMany(d: ArenaDefinition, contributions: Contributions, inputBudget: int, results: SemanticResults,
                     counts: Calibrated, a: Allocated, outcomes: seq<Outcome>)
    requires ValidModules(d.modules) && counts.external == None && counts.estimator == WordEstimator
    requires Reaches(d, contributions, inputBudget, results, counts, a, outcomes)
    requires PlainTotal(outcomes) + NullTotal(outcomes) > inputBudget - d.frameworkReserve
             || Scaled(PlainTotal(outcomes) + NullTotal(outcomes), counts.multiplier) > inputBudget - d.frameworkReserve
    ensures PlanContext(d, contributions, inputBudget, results, counts) == Err(RenderedExceedsBudget)
  {
    hide AllocationStage, OutcomesFrom, RenderContext, PlainTotal, NullTotal, PlanContext, Reaches;
    WordAdmissionIff(d, contributions, inputBudget, results, counts, a, outcomes);
    ReachedPlan(d, contributions, inputBudget, results, counts, a, outcomes);
  }

  // ----- Null content can be turned away -----

  /** A visible name of `n` characters. */
  function Mark(n: nat): Text {
    seq(n, i => Letter(0x61, WordChar))
  }

  function NullContent(n: nat): seq<Chunk> {
    if n == 0 then [] else [Chunk(Named(Mark(n)), Null, false, false, {}, [])] + NullContent(n - 1)
  }

  lemma MarkIsVisible(n: nat)
    requires n > 0
    ensures !AllBlank(Mark(n))
  {
    assert !IsBlank(Mark(n)[0]);
  }

  lemma {:induction false} NullContentWellFormed(n: nat)
    ensures |NullContent(n)| == n && forall i | 0 <= i < n :: NullContent(n)[i].id == Named(Mark(n - i))
    ensures WellFormedChunks(NullContent(n))
  {
    if n > 0 {
      NullContentWellFormed(n - 1);
      var chunks := NullContent(n);
      forall i | 0 <= i < n ensures chunks[i].id == Named(Mark(n - i)) && !AllBlank(chunks[i].id.name) {
        assert i > 0 ==> chunks[i] == NullContent(n - 1)[i - 1];
        MarkIsVisible(n - i);
      }
      forall i, j | 0 <= i < j < n ensures chunks[i].id != chunks[j].id {
        assert |chunks[i].id.name| == n - i && |chunks[j].id.name| == n - j;
      }
    }
  }

  lemma {:induction false} NullContentCounts(n: nat, counts: Calibrated)
    ensures CountChunks(NullContent(n), counts) == 0
    ensures NullChunks(NullContent(n)) == n && PlainWords(NullContent(n)) == 0
  {
    if n > 0 {
      NullContentCounts(n - 1, counts);
      assert NullContent(n)[1..] == NullContent(n - 1);
    }
  }

  function SizedModule(id: ModuleId, size: nat): ModuleDefinition {
    ModuleDefinition(id, 0, size, size, 0, 1.0, false, false, false, [])
  }

  function NullArena(n: nat): ArenaDefinition {
    ArenaDefinition([SizedModule(0, n)], 0)
  }

  function NullContributions(n: nat): Contributions {
    map[0 := Contribution(NullContent(n + 1), None)]
  }

  lemma NullArenaAllocates(n: nat, counts: Calibrated)
    requires n > 0
    ensures ValidDefinition(NullArena(n))
    ensures var a := AllocationStage(NullArena(n), NullContributions(n), n, counts);
            a.Ok? && GrantedBy(a.value.rows, 0) >= 0
  {
    hide Allocation, NullContent, Demands;
    var d, contributions := NullArena(n), NullContributions(n);
    assert d.modules == [SizedModule(0, n)] && d.modules[1..] == [];
    assert FloorTotal(d.modules) == 0;
    assert RenderingModules(d.modules, contributions) <= 1;
    BudgetCheckSuffices(d, Demands(d.modules, contributions, counts), n);
    GrantsWithinBudget(d, contributions, n, counts);
    GrantsNonNegative(AllocationStage(d, contributions, n, counts).value.rows, 0);
  }

  lemma NullModulePasses(n: nat, rows: seq<ModuleAllocation>, counts: Calibrated)
    requires GrantedBy(rows, 0) >= 0
    ensures OutcomesFrom([SizedModule(0, n)], 0, NullContributions(n), rows, map[], counts)
            == Ok([Outcome(0, NullContent(n + 1), 0, 0)])
  {
    hide NullContent, GrantedBy, ReclaimModule;
    NullContentCounts(n + 1, counts);
    var order, contributions := [SizedModule(0, n)], NullContributions(n);
    assert ChunksOf(contributions, 0) == NullContent(n + 1);
    assert OutcomesFrom(order, 1, contributions, rows, map[], counts) == Ok([]);
    var o := Outcome(0, NullContent(n + 1), 0, 0);
    assert OutcomeOf(order[0], ChunksOf(contributions, 0), GrantedBy(rows, 0), map[], counts) == Ok(o);
    assert [o] + [] == [o];
  }

  lemma NullOutcomeTotals(n: nat)
    ensures var os := [Outcome(0, NullContent(n + 1), 0, 0)];
            PlainTotal(os) == 0 && NullTotal(os) == n + 1
  {
    hide NullContent;
    NullContentCounts(n + 1, Counter(None, WordEstimator, 1.0));
    var os := [Outcome(0, NullContent(n + 1), 0, 0)];
    assert os[1..] == [];
  }

  lemma NullArenaIsValid(n: nat)
    ensures ValidContributions(NullArena(n), NullContributions(n))
  {
    NullContentWellFormed(n + 1);
    hide NullContent, WellFormedChunks;
    var d := NullArena(n);
    assert d.modules[0] in d.modules && HasId(d.modules, 0);
  }

  lemma NullArenaReaches(n: nat, counts: Calibrated) returns (a: Allocated)
    requires n > 0
    ensures ValidModules(NullArena(n).modules) && NullArena(n).frameworkReserve == 0
    ensures Reaches(NullArena(n), NullContributions(n), n, map[], counts, a, [Outcome(0, NullContent(n + 1), 0, 0)])
  {
    NullArenaAllocates(n, counts);
    a := AllocationStage(NullArena(n), NullContributions(n), n, counts).value;
    hide AllocationStage, OutcomesFrom, NullContributions;
    var ms := NullArena(n).modules;
    assert Sort(ms, ByLayout) == [SizedModule(0, n)] by {
      assert ms == [SizedModule(0, n)] && ms[1..] == [];
    }
    NullModulePasses(n, a.rows, counts);
  }

  /**
   A budget of `n` tokens and one null chunk more, under any calibration: valid contributions of
   which nothing is counted and everything is refused.
   */
  lemma NullContentIsTurnedAway(n: nat, multiplier: real)
    requires n > 0 && multiplier >= 1.0
    ensures ValidDefinition(NullArena(n)) && ValidContributions(NullArena(n), NullContributions(n))
    ensures PlanContext(NullArena(n), NullContributions(n), n, map[], Counter(None, WordEstimator, multiplier))
            == Err(RenderedExceedsBudget)
  {
    hide *;
    var counts := Counter(None, WordEstimator, multiplier);
    NullArenaIsValid(n);
    NullArenaAllocates(n, counts);
    var a := NullArenaReaches(n, counts);
    NullOutcomeTotals(n);
    WordsTooMany(NullArena(n), NullContributions(n), n, map[], counts, a, [Outcome(0, NullContent(n + 1), 0, 0)]);
  }
}
