/**
 A prepare that succeeds with a host counter rests on no failed count: any other counter that
 agrees wherever this one answers gives the same plan.
 */
module HostCounters {
  import opened Basics
  import opened Texts
  import opened TextPasses
  import opened Counting
  import opened Truncation
  import opened Layout
  import opened Leasing
  import opened Reclaim
  import opened Usage
  import opened Preparing
  import opened HostFailures
  import opened Admission
  import opened Arenas
  import opened Plans

  /** Two host counters, of which the second says what the first says, and something where that fails. */
  ghost predicate Refines(f: Calibrated, g: Calibrated) {
    && f.external.Some? && g.external.Some?
    && forall t: Text :: f.RawCount(t) >= 0 ==> g.RawCount(t) == f.RawCount(t)
  }

  lemma SameCount(t: Text, f: Calibrated, g: Calibrated)
    requires Refines(f, g) && !Fails(t, f)
    ensures !Fails(t, g) && f.CountText(t) == g.CountText(t)
  {
  }

  // ----- Chunks -----

  lemma {:induction false} SameChunks(chunks: seq<Chunk>, f: Calibrated, g: Calibrated)
    requires Refines(f, g) && !ChunksFail(chunks, f)
    ensures !ChunksFail(chunks, g) && CountChunks(chunks, f) == CountChunks(chunks, g)
    ensures FixedTokens(chunks, f) == FixedTokens(chunks, g)
    ensures forall m :: PinnedTokens(m, chunks, f) == PinnedTokens(m, chunks, g)
  {
    if chunks != [] {
      hide Counter.CountText, Refines, Fails;
      var c := chunks[0];
      assert c in chunks;
      assert !ChunksFail(chunks[1..], f);
      SameChunks(chunks[1..], f, g);
      if !c.content.Null? {
        SameCount(Render(c.content), f, g);
      }
      assert CountContent(c.content, f) == CountContent(c.content, g);
      hide CountContent;
      forall m ensures PinnedTokens(m, chunks, f) == PinnedTokens(m, chunks, g) {
        assert PinnedTokens(m, chunks[1..], f) == PinnedTokens(m, chunks[1..], g);
      }
    }
  }

  lemma PartsDoNotFail(m: ModuleDefinition, chunks: seq<Chunk>, counts: Calibrated)
    requires !ChunksFail(chunks, counts)
    ensures !ChunksFail(Protected(m, chunks), counts)
  {
    PartitionIsComplete(m, chunks);
    hide Protected, Elastic, Fails;
  }

  // ----- Passes -----

  lemma {:induction false} SameFit(t: Text, target: int, f: Calibrated, g: Calibrated, n: nat)
    requires Refines(f, g) && n <= |t| && !FitFails(t, target, f, n)
    ensures !FitFails(t, target, g, n) && FitLength(t, target, f, n) == FitLength(t, target, g, n)
    decreases |t| - n
  {
    hide Counter.CountText, Refines, Fails;
    if n < |t| {
      SameCount(t[..n + 1], f, g);
      if f.CountText(t[..n + 1]) <= target {
        SameFit(t, target, f, g, n + 1);
      }
    }
  }

  lemma SameTruncation(t: Text, target: int, f: Calibrated, g: Calibrated)
    requires Refines(f, g) && !TruncationFails(t, target, f)
    ensures !TruncationFails(t, target, g) && Truncated(t, target, f) == Truncated(t, target, g)
  {
    if target > 0 {
      SameFit(t, target, f, g, 0);
    }
    hide FitFails, FitLength;
  }

  lemma {:induction false} SameSelection(sentences: seq<Text>, result: Text, target: int, f: Calibrated, g: Calibrated)
    requires Refines(f, g) && !SelectionFails(sentences, result, target, f)
    ensures !SelectionFails(sentences, result, target, g)
    ensures SelectFrom(sentences, result, target, f) == SelectFrom(sentences, result, target, g)
    decreases sentences
  {
    hide Counter.CountText, Refines, Fails, Extend;
    if sentences != [] {
      var next := Extend(result, sentences[0]);
      SameCount(next, f, g);
      if f.CountText(next) <= target {
        SameSelection(sentences[1..], next, target, f, g);
      }
    }
  }

  lemma SamePass(a: Algorithm, t: Text, target: int, f: Calibrated, g: Calibrated)
    requires Refines(f, g) && !PassFails(a, t, target, f)
    ensures !PassFails(a, t, target, g) && CompressText(a, t, target, f) == CompressText(a, t, target, g)
  {
    hide Refines, TruncationFails, Truncated, SelectionFails, SelectFrom, NormalizeWhitespace, DeduplicateBlocks,
         Sentences;
    if a == ExtractiveSentenceRankV1 {
      SameSelection(Sentences(t), [], target, f, g);
      if SelectFrom(Sentences(t), [], target, f) == [] {
        SameTruncation(t, target, f, g);
      }
    } else if a == BoundaryTruncateV1 {
      SameTruncation(t, target, f, g);
    }
  }

  lemma SameStep(step: Step, t: Text, a: Task, b: Task)
    requires Refines(a.counts, b.counts) && b == a.(counts := b.counts)
    requires !Fails(t, a.counts) && !StepCountFails(step, t, a)
    ensures !StepCountFails(step, t, b) && StepResult(step, t, a) == StepResult(step, t, b)
  {
    hide Refines, Fails, PassFails, CompressText, Counter.CountText, ContainsAll;
    SamePass(step.algorithm, t, a.target, a.counts, b.counts);
    SameCount(t, a.counts, b.counts);
    SameCount(CompressText(step.algorithm, t, a.target, a.counts), a.counts, b.counts);
  }

  // ----- Pipelines -----

  lemma {:induction false} SameCandidates(requests: seq<SemanticRequest>, results: SemanticResults, t: Text,
                                          a: Task, b: Task)
    requires Refines(a.counts, b.counts) && b == a.(counts := b.counts)
    requires !Fails(t, a.counts) && !CandidatesFail(requests, results, a.counts)
    ensures !CandidatesFail(requests, results, b.counts)
    ensures Candidates(requests, results, t, a) == Candidates(requests, results, t, b)
    ensures forall c | c in Candidates(requests, results, t, a) :: !Fails(c, a.counts)
  {
    hide Refines, Fails, Counter.CountText, ContainsAll, Trim;
    if requests != [] {
      var r := requests[0];
      assert r in requests;
      assert !CandidatesFail(requests[1..], results, a.counts);
      SameCandidates(requests[1..], results, t, a, b);
      SameCount(t, a.counts, b.counts);
      if r.id in results && Trim(results[r.id]) != [] {
        SameCount(results[r.id], a.counts, b.counts);
      }
    }
  }

  lemma {:induction false} SameSmallest(candidates: seq<Text>, f: Calibrated, g: Calibrated)
    requires Refines(f, g) && candidates != [] && forall c | c in candidates :: !Fails(c, f)
    ensures Smallest(candidates, f) == Smallest(candidates, g)
  {
    hide Refines, Fails, Counter.CountText;
    SameCount(candidates[0], f, g);
    if |candidates| > 1 {
      SameSmallest(candidates[1..], f, g);
      SameCount(Smallest(candidates[1..], f), f, g);
    }
  }

  lemma {:induction false} SameRun(steps: seq<Step>, i: nat, t: Text, a: Task, b: Task, results: SemanticResults)
    requires Refines(a.counts, b.counts) && b == a.(counts := b.counts)
    requires !RunFails(steps, i, t, a, results)
    ensures !RunFails(steps, i, t, b, results)
    ensures var end := RunFrom(steps, i, t, a, results);
            && end == RunFrom(steps, i, t, b, results)
            && (end.Ok? ==> !Fails(end.value, a.counts))
    decreases |steps| - i
  {
    hide Refines, Fails, StepCountFails, StepResult, Candidates, CandidatesFail, Smallest, ProvidersOf,
         Counter.CountText;
    SameCount(t, a.counts, b.counts);
    if i < |steps| && a.counts.CountText(t) > a.target {
      if IsSemantic(steps[i].algorithm) {
        var requests := RequestsForStep(steps[i], t, a);
        assert requests == RequestsForStep(steps[i], t, b);
        if requests.Ok? {
          SameCandidates(requests.value, results, t, a, b);
          var candidates := Candidates(requests.value, results, t, a);
          if candidates != [] {
            SameSmallest(candidates, a.counts, b.counts);
            SameRun(steps, i + 1, Smallest(candidates, a.counts), a, b, results);
          }
        }
      } else {
        SameStep(steps[i], t, a, b);
        SameRun(steps, i + 1, StepResult(steps[i], t, a), a, b, results);
      }
    }
  }

  // ----- Modules -----

  lemma SameTask(m: ModuleDefinition, chunks: seq<Chunk>, granted: int, f: Calibrated, g: Calibrated)
    requires Refines(f, g) && !ChunksFail(chunks, f)
    ensures TaskOf(m, chunks, granted, g) == TaskOf(m, chunks, granted, f).(counts := g)
  {
    PartsDoNotFail(m, chunks, f);
    SameChunks(Protected(m, chunks), f, g);
  }

  lemma SameReclaim(m: ModuleDefinition, chunks: seq<Chunk>, granted: int, results: SemanticResults,
                    f: Calibrated, g: Calibrated)
    requires Refines(f, g) && !ChunksFail(chunks, f) && !ReclaimFails(m, chunks, granted, results, f)
    ensures !ReclaimFails(m, chunks, granted, results, g)
    ensures ReclaimModule(m, chunks, granted, results, f) == ReclaimModule(m, chunks, granted, results, g)
    ensures var r := ReclaimModule(m, chunks, granted, results, f); r.Ok? ==> !ChunksFail(r.value.chunks, f)
  {
    hide Refines, Fails, RunFails, RunFrom, ElasticText, Protected, Elastic, RequiredTerms, CountChunks,
         Counter.CountText;
    SameTask(m, chunks, granted, f, g);
    var a, b := TaskOf(m, chunks, granted, f), TaskOf(m, chunks, granted, g);
    SameRun(m.pipeline, 0, ElasticText(m, chunks), a, b, results);
    PartsDoNotFail(m, chunks, f);
    SameChunks(Protected(m, chunks), f, g);
    var text := RunFrom(m.pipeline, 0, ElasticText(m, chunks), a, results);
    if text.Ok? {
      SameCount(text.value, f, g);
    }
  }

  lemma SameOutcome(m: ModuleDefinition, chunks: seq<Chunk>, granted: int, results: SemanticResults,
                    f: Calibrated, g: Calibrated)
    requires Refines(f, g) && !ChunksFail(chunks, f) && !OutcomeFails(m, chunks, granted, results, f)
    ensures !OutcomeFails(m, chunks, granted, results, g)
    ensures var o := OutcomeOf(m, chunks, granted, results, f);
            o == OutcomeOf(m, chunks, granted, results, g) && (o.Ok? ==> !ChunksFail(o.value.chunks, f))
  {
    hide Refines, ReclaimFails, ReclaimModule, CountChunks, ChunksFail;
    SameChunks(chunks, f, g);
    if CountChunks(chunks, f) > granted {
      SameReclaim(m, chunks, granted, results, f, g);
    }
  }

  ghost predicate NoneFail(order: seq<ModuleDefinition>, contributions: Contributions, counts: Calibrated) {
    forall m | m in order :: !ChunksFail(ChunksOf(contributions, m.id), counts)
  }

  ghost predicate OutcomesCounted(outcomes: seq<Outcome>, counts: Calibrated) {
    forall o | o in outcomes :: !ChunksFail(o.chunks, counts)
  }

  lemma {:induction false} SameOutcomes(order: seq<ModuleDefinition>, i: nat, contributions: Contributions,
                                        rows: seq<ModuleAllocation>, results: SemanticResults,
                                        f: Calibrated, g: Calibrated)
    requires Refines(f, g) && NoneFail(order, contributions, f)
    requires !OutcomesFail(order, i, contributions, rows, results, f)
    ensures !OutcomesFail(order, i, contributions, rows, results, g)
    ensures var os := OutcomesFrom(order, i, contributions, rows, results, f);
            && os == OutcomesFrom(order, i, contributions, rows, results, g)
            && (os.Ok? ==> OutcomesCounted(os.value, f))
    decreases |order| - i
  {
    hide Refines, ChunksFail, OutcomeFails, OutcomeOf, ChunksOf, GrantedBy;
    if i < |order| {
      var m := order[i];
      assert m in order;
      SameOutcome(m, ChunksOf(contributions, m.id), GrantedBy(rows, m.id), results, f, g);
      SameOutcomes(order, i + 1, contributions, rows, results, f, g);
    }
  }

  lemma {:induction false} SameUsage(order: seq<ModuleDefinition>, rows: seq<ModuleAllocation>,
                                     outcomes: seq<Outcome>, f: Calibrated, g: Calibrated)
    requires Refines(f, g) && OutcomesCounted(outcomes, f)
    ensures UsageRows(order, rows, outcomes, f) == UsageRows(order, rows, outcomes, g)
  {
    hide Refines, ChunksFail, PressureOf, CompressionRatio, FixedTokens, PinnedTokens;
    if order != [] && rows != [] && outcomes != [] {
      assert outcomes[0] in outcomes;
      SameChunks(outcomes[0].chunks, f, g);
      SameUsage(order[1..], rows[1..], outcomes[1..], f, g);
    }
  }

  // ----- A whole prepare -----

  lemma {:induction false} SameDemands(ms: seq<ModuleDefinition>, contributions: Contributions,
                                       f: Calibrated, g: Calibrated)
    requires Refines(f, g) && NoneFail(ms, contributions, f)
    ensures Demands(ms, contributions, f) == Demands(ms, contributions, g) && NoneFail(ms, contributions, g)
  {
    hide Refines, ChunksFail, CountChunks, ChunksOf;
    if ms != [] {
      assert ms[0] in ms;
      SameChunks(ChunksOf(contributions, ms[0].id), f, g);
      SameDemands(ms[1..], contributions, f, g);
    }
  }

  lemma SameStage(d: ArenaDefinition, contributions: Contributions, inputBudget: int, f: Calibrated, g: Calibrated)
    requires Refines(f, g) && ValidModules(d.modules) && !MeasuringFails(d.modules, contributions, f)
    ensures !MeasuringFails(d.modules, contributions, g) && NoneFail(d.modules, contributions, f)
    ensures AllocationStage(d, contributions, inputBudget, f) == AllocationStage(d, contributions, inputBudget, g)
  {
    hide Refines, ChunksFail, Fails, Allocation, BudgetFitsFloors, Demands, RenderingModules, Counter.CountText;
    SameDemands(d.modules, contributions, f, g);
    var n := RenderingModules(d.modules, contributions);
    if n > 1 {
      SameCount(Breaks(n - 1), f, g);
    }
  }

  lemma SamePlan(d: ArenaDefinition, contributions: Contributions, inputBudget: int, results: SemanticResults,
                 f: Calibrated, g: Calibrated, plan: Plan)
    requires Refines(f, g) && ValidModules(d.modules)
    requires PlanContext(d, contributions, inputBudget, results, f) == Ok(plan)
    requires !PrepareFails(d, contributions, results, plan, f)
    ensures PlanContext(d, contributions, inputBudget, results, g) == Ok(plan)
    ensures !PrepareFails(d, contributions, results, plan, g)
  {
    ModulesAreDistinct(d.modules);
    hide Refines, PlanContext, AllocationStage, OutcomesFrom, OutcomesFail, MeasuringFails, RenderContext, UsageRows,
         ChunksFail, Sort, Fails, Counter.CountText, ChunksOf, ValidModules, DistinctIds;
    var order := Sort(d.modules, ByLayout);
    LayoutOrder(d.modules);
    PlanParts(d, contributions, inputBudget, results, f, plan);
    PlanIsAdmitted(d, contributions, inputBudget, results, f, plan);
    SameStage(d, contributions, inputBudget, f, g);
    assert NoneFail(order, contributions, f);
    var rows := plan.allocation.rows;
    SameOutcomes(order, 0, contributions, rows, results, f, g);
    SameUsage(order, rows, plan.outcomes, f, g);
    SameCount(plan.rendered, f, g);
    PlanFromParts(d, contributions, inputBudget, results, g, plan);
  }

  lemma PlanFromParts(d: ArenaDefinition, contributions: Contributions, inputBudget: int, results: SemanticResults,
                      counts: Calibrated, plan: Plan)
    requires ValidModules(d.modules)
    requires AllocationStage(d, contributions, inputBudget, counts) == Ok(plan.allocation)
    requires var order, rows := Sort(d.modules, ByLayout), plan.allocation.rows;
             && OutcomesFrom(order, 0, contributions, rows, results, counts) == Ok(plan.outcomes)
             && plan.usage == UsageRows(order, rows, plan.outcomes, counts)
             && plan.rendered == RenderContext(plan.outcomes)
    requires plan.promptTokens == counts.CountText(plan.rendered) <= plan.usable == inputBudget - d.frameworkReserve
    ensures PlanContext(d, contributions, inputBudget, results, counts) == Ok(plan)
  {
    hide AllocationStage, OutcomesFrom, RenderContext, UsageRows, Sort, Counter.CountText;
  }

  /**
   A successful answer with a host counter rests on no failed count: with any other counter that
   agrees wherever this one answers, the answer is the same.
   */
  lemma NoFailedCountMatters(d: ArenaDefinition, request: Request, other: Request, results: SemanticResults,
                             multiplier: real, plan: Plan)
    requires ValidDefinition(d) && multiplier >= 1.0
    requires request.external.Some? && other == request.(external := other.external) && other.external.Some?
    requires forall t: Text | request.external.value(t) >= 0 :: other.external.value(t) == request.external.value(t)
    requires Answer(d, request, results, multiplier) == Ok(plan)
    ensures Answer(d, other, results, multiplier) == Ok(plan)
  {
    hide Refines, PlanContext, PrepareFails;
    RefinesBy(request, other, multiplier);
    SamePlan(d, request.contributions, InputBudget(request), results, CounterFor(request, multiplier),
             CounterFor(other, multiplier), plan);
  }

  lemma RefinesBy(request: Request, other: Request, multiplier: real)
    requires multiplier >= 1.0 && request.external.Some? && other.external.Some?
    requires request.model == other.model
    requires forall t: Text | request.external.value(t) >= 0 :: other.external.value(t) == request.external.value(t)
    ensures Refines(CounterFor(request, multiplier), CounterFor(other, multiplier))
  {
  }
}
