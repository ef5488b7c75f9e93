/**
 A host counter reports failure with a negative count. Counting goes on with zero, and the failure
 surfaces at the end: these predicates say exactly when some text that was counted failed.
 */
module HostFailures {
  import opened Basics
  import opened Texts
  import opened TextPasses
  import opened Counting
  import opened Truncation
  import opened Layout
  import opened Leasing
  import opened Reclaim
  import opened TwoPhase
  import opened Preparing

  predicate Fails(t: Text, counts: Calibrated) {
    counts.RawCount(t) < 0
  }

  /** Null content is never counted. */
  predicate ChunksFail(chunks: seq<Chunk>, counts: Calibrated) {
    exists c | c in chunks :: !c.content.Null? && Fails(Render(c.content), counts)
  }

  // ----- The passes -----

  predicate FitFails(t: Text, target: int, counts: Calibrated, n: nat)
    requires n <= |t|
    decreases |t| - n
  {
    n < |t| && (Fails(t[..n + 1], counts)
                || (counts.CountText(t[..n + 1]) <= target && FitFails(t, target, counts, n + 1)))
  }

  predicate TruncationFails(t: Text, target: int, counts: Calibrated) {
    !counts.CountsCharacters() && target > 0 && FitFails(t, target, counts, 0)
  }

  predicate SelectionFails(sentences: seq<Text>, result: Text, target: int, counts: Calibrated) {
    sentences != []
    && var next := Extend(result, sentences[0]);
       Fails(next, counts) || (counts.CountText(next) <= target && SelectionFails(sentences[1..], next, target, counts))
  }

  predicate PassFails(algorithm: Algorithm, text: Text, target: int, counts: Calibrated) {
    match algorithm
    case ExtractiveSentenceRankV1 =>
      SelectionFails(Sentences(text), [], target, counts)
      || (SelectFrom(Sentences(text), [], target, counts) == [] && TruncationFails(text, target, counts))
    case BoundaryTruncateV1 => TruncationFails(text, target, counts)
    case _ => false
  }

  predicate StepCountFails(step: Step, text: Text, task: Task) {
    || PassFails(step.algorithm, text, task.target, task.counts)
    || Fails(CompressText(step.algorithm, text, task.target, task.counts), task.counts)
  }

  // ----- Reclaim -----

  /** Candidates that are not blank are counted, accepted or not. */
  predicate CandidatesFail(requests: seq<SemanticRequest>, results: SemanticResults, counts: Calibrated) {
    exists r | r in requests :: r.id in results && Trim(results[r.id]) != [] && Fails(results[r.id], counts)
  }

  predicate RunFails(steps: seq<Step>, i: nat, text: Text, task: Task, results: SemanticResults)
    decreases |steps| - i
  {
    if Fails(text, task.counts) then true
    else if i >= |steps| || task.counts.CountText(text) <= task.target then false
    else if IsSemantic(steps[i].algorithm) then
      match RequestsForStep(steps[i], text, task)
      case Err(_) => false
      case Ok(requests) =>
        var candidates := Candidates(requests, results, text, task);
        CandidatesFail(requests, results, task.counts)
        || (candidates != [] && RunFails(steps, i + 1, Smallest(candidates, task.counts), task, results))
    else StepCountFails(steps[i], text, task) || RunFails(steps, i + 1, StepResult(steps[i], text, task), task, results)
  }

  /** The planning loop counts the same texts up to the semantic step. */
  predicate SeekFails(steps: seq<Step>, i: nat, text: Text, task: Task)
    decreases |steps| - i
  {
    i < |steps|
    && (Fails(text, task.counts)
        || (task.counts.CountText(text) > task.target && !IsSemantic(steps[i].algorithm)
            && (StepCountFails(steps[i], text, task)
                || SeekFails(steps, i + 1, StepResult(steps[i], text, task), task))))
  }

  predicate ReclaimFails(m: ModuleDefinition, chunks: seq<Chunk>, granted: int, results: SemanticResults,
                         counts: Calibrated) {
    RunFails(m.pipeline, 0, ElasticText(m, chunks), TaskOf(m, chunks, granted, counts), results)
  }

  predicate OutcomeFails(m: ModuleDefinition, chunks: seq<Chunk>, granted: int, results: SemanticResults,
                         counts: Calibrated) {
    CountChunks(chunks, counts) > granted && ReclaimFails(m, chunks, granted, results, counts)
  }

  predicate PlanFails(m: ModuleDefinition, chunks: seq<Chunk>, granted: int, counts: Calibrated) {
    CountChunks(chunks, counts) > granted && Elastic(m, chunks) != []
    && SeekFails(m.pipeline, 0, ElasticText(m, chunks), TaskOf(m, chunks, granted, counts))
  }

  // ----- A whole prepare -----

  predicate OutcomesFail(order: seq<ModuleDefinition>, i: nat, contributions: Contributions,
                         rows: seq<ModuleAllocation>,
                         results: SemanticResults, counts: Calibrated)
    decreases |order| - i
  {
    i < |order|
    && (OutcomeFails(order[i], ChunksOf(contributions, order[i].id), GrantedBy(rows, order[i].id), results, counts)
        || OutcomesFail(order, i + 1, contributions, rows, results, counts))
  }

  predicate PlansFail(order: seq<ModuleDefinition>, contributions: Contributions, rows: seq<ModuleAllocation>,
                      counts: Calibrated) {
    exists m | m in order :: PlanFails(m, ChunksOf(contributions, m.id), GrantedBy(rows, m.id), counts)
  }

  /** Separators and every contributed chunk are counted before anything is allocated. */
  predicate MeasuringFails(ms: seq<ModuleDefinition>, contributions: Contributions, counts: Calibrated) {
    || (RenderingModules(ms, contributions) > 1 && Fails(Breaks(RenderingModules(ms, contributions) - 1), counts))
    || exists m | m in ms :: ChunksFail(ChunksOf(contributions, m.id), counts)
  }

  /** Something a successful prepare counted on its way failed; its own chunks were counted on the way. */
  predicate PrepareFails(d: ArenaDefinition, contributions: Contributions, results: SemanticResults, plan: Plan,
                         counts: Calibrated) {
    || MeasuringFails(d.modules, contributions, counts)
    || OutcomesFail(Sort(d.modules, ByLayout), 0, contributions, plan.allocation.rows, results, counts)
    || Fails(plan.rendered, counts)
  }

  predicate PlanningFails(d: ArenaDefinition, contributions: Contributions, inputBudget: int, counts: Calibrated)
    requires ValidModules(d.modules)
  {
    || MeasuringFails(d.modules, contributions, counts)
    || var stage := AllocationStage(d, contributions, inputBudget, counts);
       stage.Ok? && PlansFail(Sort(d.modules, ByLayout), contributions, stage.value.rows, counts)
  }

  // ----- Failures follow the planned results -----

  lemma CandidatesFailAgree(requests: seq<SemanticRequest>, a: SemanticResults, b: SemanticResults, counts: Calibrated)
    requires AgreeOn(requests, a, b)
    ensures CandidatesFail(requests, a, counts) == CandidatesFail(requests, b, counts)
  {
  }

  lemma {:induction false} RunFailsWithoutSemantics(steps: seq<Step>, i: nat, text: Text, task: Task,
                                                    a: SemanticResults, b: SemanticResults)
    requires NoSemanticFrom(steps, i)
    ensures RunFails(steps, i, text, task, a) == RunFails(steps, i, text, task, b)
    decreases |steps| - i
  {
    hide StepCountFails, StepResult;
    if i < |steps| && task.counts.CountText(text) > task.target {
      RunFailsWithoutSemantics(steps, i + 1, StepResult(steps[i], text, task), task, a, b);
    }
  }

  lemma {:induction false} RunFailsAgree(steps: seq<Step>, i: nat, text: Text, task: Task,
                                         a: SemanticResults, b: SemanticResults)
    requires AtMostOneSemantic(steps)
    requires var plan := SeekFrom(steps, i, text, task); plan.Ok? && AgreeOn(plan.value, a, b)
    ensures RunFails(steps, i, text, task, a) == RunFails(steps, i, text, task, b)
    decreases |steps| - i
  {
    hide StepCountFails, StepResult, Candidates, CandidatesFail, RequestsForStep, AgreeOn, Smallest;
    if i < |steps| && task.counts.CountText(text) > task.target {
      if IsSemantic(steps[i].algorithm) {
        OnlyOneSemantic(steps, i);
        var requests := RequestsForStep(steps[i], text, task).value;
        CandidatesAgree(requests, a, b, text, task);
        CandidatesFailAgree(requests, a, b, task.counts);
        var candidates := Candidates(requests, a, text, task);
        if candidates != [] {
          RunFailsWithoutSemantics(steps, i + 1, Smallest(candidates, task.counts), task, a, b);
        }
      } else {
        RunFailsAgree(steps, i + 1, StepResult(steps[i], text, task), task, a, b);
      }
    }
  }

  lemma OutcomeFailsAgree(m: ModuleDefinition, chunks: seq<Chunk>, granted: int, counts: Calibrated,
                          a: SemanticResults, b: SemanticResults)
    requires AtMostOneSemantic(m.pipeline)
    requires CountChunks(chunks, counts) > granted ==>
               && Elastic(m, chunks) != []
               && var plan := PlannedRequests(m, chunks, granted, counts); plan.Ok? && AgreeOn(plan.value, a, b)
    ensures OutcomeFails(m, chunks, granted, a, counts) == OutcomeFails(m, chunks, granted, b, counts)
  {
    hide RunFails, SeekFrom, ElasticText, Elastic, AgreeOn, CountChunks, AtMostOneSemantic, RequiredTerms, Protected;
    if CountChunks(chunks, counts) > granted {
      RunFailsAgree(m.pipeline, 0, ElasticText(m, chunks), TaskOf(m, chunks, granted, counts), a, b);
    }
  }

  lemma ReclaimedHasElastic(m: ModuleDefinition, chunks: seq<Chunk>, granted: int, results: SemanticResults,
                            counts: Calibrated)
    requires OutcomeOf(m, chunks, granted, results, counts).Ok?
    ensures CountChunks(chunks, counts) > granted ==> Elastic(m, chunks) != []
  {
    hide RunFrom;
  }

  lemma {:induction false} OutcomesFailAgree(order: seq<ModuleDefinition>, i: nat, contributions: Contributions,
                                             rows: seq<ModuleAllocation>, counts: Calibrated,
                                             a: SemanticResults, b: SemanticResults)
    requires AllAtMostOneSemantic(order)
    requires OutcomesFrom(order, i, contributions, rows, a, counts).Ok?
    requires var plan := RequestsFrom(order, i, contributions, rows, counts); plan.Ok? && AgreeOn(plan.value, a, b)
    ensures OutcomesFail(order, i, contributions, rows, a, counts)
            == OutcomesFail(order, i, contributions, rows, b, counts)
    decreases |order| - i
  {
    hide AgreeOn, PlannedRequests, OutcomeOf, OutcomeFails, CountChunks, AtMostOneSemantic, ChunksOf, GrantedBy,
         Elastic;
    if i < |order| {
      var m := order[i];
      assert m in order;
      var chunks, granted := ChunksOf(contributions, m.id), GrantedBy(rows, m.id);
      var first := if CountChunks(chunks, counts) > granted then PlannedRequests(m, chunks, granted, counts)
        else Ok([]);
      AgreeOnConcat(first.value, RequestsFrom(order, i + 1, contributions, rows, counts).value, a, b);
      ReclaimedHasElastic(m, chunks, granted, a, counts);
      OutcomeFailsAgree(m, chunks, granted, counts, a, b);
      OutcomesFailAgree(order, i + 1, contributions, rows, counts, a, b);
    }
  }

  /** Whether a prepare's counting failed depends on semantic results only through the planned ids. */
  lemma FailuresFollowPlannedIds(d: ArenaDefinition, contributions: Contributions, inputBudget: int, counts: Calibrated,
                                 a: SemanticResults, b: SemanticResults, plan: Plan)
    requires ValidModules(d.modules)
    requires var asked := PlanSemanticRequests(d, contributions, inputBudget, counts);
             asked.Ok? && AgreeOn(asked.value, a, b)
    requires PlanContext(d, contributions, inputBudget, a, counts) == Ok(plan)
    ensures PrepareFails(d, contributions, a, plan, counts) == PrepareFails(d, contributions, b, plan, counts)
  {
    hide AllocationStage, OutcomesFrom, OutcomesFail, AgreeOn, RenderContext, MeasuringFails, Sort, AtMostOneSemantic;
    var order := Sort(d.modules, ByLayout);
    SortPermutes(d.modules, ByLayout);
    SameMembers(order, d.modules);
    assert AllAtMostOneSemantic(order) by {
      assert forall m | m in order :: ValidModule(m);
    }
    OutcomesFailAgree(order, 0, contributions, plan.allocation.rows, counts, a, b);
  }

  // ----- Planning and preparing -----

  lemma {:induction false} SeekFailureCarries(steps: seq<Step>, i: nat, text: Text, task: Task,
                                              results: SemanticResults)
    requires SeekFails(steps, i, text, task)
    ensures RunFails(steps, i, text, task, results)
    decreases |steps| - i
  {
    hide StepCountFails, StepResult;
    if !Fails(text, task.counts) && !StepCountFails(steps[i], text, task) {
      SeekFailureCarries(steps, i + 1, StepResult(steps[i], text, task), task, results);
    }
  }

  lemma {:induction false} OutcomesFailFor(order: seq<ModuleDefinition>, i: nat, contributions: Contributions,
                                           rows: seq<ModuleAllocation>, results: SemanticResults, counts: Calibrated,
                                           k: nat)
    requires i <= k < |order|
    requires OutcomeFails(order[k], ChunksOf(contributions, order[k].id), GrantedBy(rows, order[k].id), results, counts)
    ensures OutcomesFail(order, i, contributions, rows, results, counts)
    decreases |order| - i
  {
    hide OutcomeFails, ChunksOf, GrantedBy;
    if i < k {
      OutcomesFailFor(order, i + 1, contributions, rows, results, counts, k);
    }
  }

  /** Preparing counts everything planning counted: a failure planning saw is one preparing sees. */
  lemma PlanningFailureCarries(d: ArenaDefinition, contributions: Contributions, inputBudget: int, counts: Calibrated,
                               results: SemanticResults, plan: Plan)
    requires ValidModules(d.modules) && PlanContext(d, contributions, inputBudget, results, counts) == Ok(plan)
    requires PlanningFails(d, contributions, inputBudget, counts)
    ensures PrepareFails(d, contributions, results, plan, counts)
  {
    hide AllocationStage, OutcomesFrom, RenderContext, MeasuringFails, Sort, SeekFails, RunFails, ElasticText, Elastic,
         Protected, RequiredTerms, CountChunks, ChunksOf, GrantedBy;
    var order, rows := Sort(d.modules, ByLayout), plan.allocation.rows;
    if !MeasuringFails(d.modules, contributions, counts) {
      var m :| m in order && PlanFails(m, ChunksOf(contributions, m.id), GrantedBy(rows, m.id), counts);
      var k :| 0 <= k < |order| && order[k] == m;
      var chunks, granted := ChunksOf(contributions, m.id), GrantedBy(rows, m.id);
      SeekFailureCarries(m.pipeline, 0, ElasticText(m, chunks), TaskOf(m, chunks, granted, counts), results);
      OutcomesFailFor(order, 0, contributions, rows, results, counts, k);
    }
  }

  // ----- Counting that never fails -----

  /** A counter that answers for every text, as the built-in ones do. */
  ghost predicate NeverFails(counts: Calibrated) {
    forall t: Text :: !Fails(t, counts)
  }

  lemma BuiltInNeverFails(counts: Calibrated)
    requires counts.external.None?
    ensures NeverFails(counts)
  {
  }

  lemma {:induction false} FitNeverFails(t: Text, target: int, counts: Calibrated, n: nat)
    requires NeverFails(counts) && n <= |t|
    ensures !FitFails(t, target, counts, n)
    decreases |t| - n
  {
    hide Fails, Counter.CountText;
    if n < |t| {
      assert !Fails(t[..n + 1], counts);
      FitNeverFails(t, target, counts, n + 1);
    }
  }

  lemma {:induction false} SelectionNeverFails(sentences: seq<Text>, result: Text, target: int, counts: Calibrated)
    requires NeverFails(counts)
    ensures !SelectionFails(sentences, result, target, counts)
    decreases sentences
  {
    hide Fails, Counter.CountText, Extend;
    if sentences != [] {
      assert !Fails(Extend(result, sentences[0]), counts);
      SelectionNeverFails(sentences[1..], Extend(result, sentences[0]), target, counts);
    }
  }

  lemma StepNeverFails(step: Step, text: Text, task: Task)
    requires NeverFails(task.counts)
    ensures !StepCountFails(step, text, task)
  {
    hide Fails, FitFails, SelectionFails, CompressText, SelectFrom;
    FitNeverFails(text, task.target, task.counts, 0);
    SelectionNeverFails(Sentences(text), [], task.target, task.counts);
  }

  lemma {:induction false} RunNeverFails(steps: seq<Step>, i: nat, text: Text, task: Task, results: SemanticResults)
    requires NeverFails(task.counts)
    ensures !RunFails(steps, i, text, task, results)
    decreases |steps| - i
  {
    hide Fails, StepCountFails, StepResult, RequestsForStep, Candidates, Smallest, Counter.CountText;
    if i < |steps| && task.counts.CountText(text) > task.target {
      if IsSemantic(steps[i].algorithm) {
        var requests := RequestsForStep(steps[i], text, task);
        if requests.Ok? && Candidates(requests.value, results, text, task) != [] {
          RunNeverFails(steps, i + 1, Smallest(Candidates(requests.value, results, text, task), task.counts), task,
                        results);
        }
      } else {
        StepNeverFails(steps[i], text, task);
        RunNeverFails(steps, i + 1, StepResult(steps[i], text, task), task, results);
      }
    }
  }

  lemma {:induction false} SeekNeverFails(steps: seq<Step>, i: nat, text: Text, task: Task)
    requires NeverFails(task.counts)
    ensures !SeekFails(steps, i, text, task)
    decreases |steps| - i
  {
    hide Fails, StepCountFails, StepResult, Counter.CountText;
    if i < |steps| && task.counts.CountText(text) > task.target && !IsSemantic(steps[i].algorithm) {
      StepNeverFails(steps[i], text, task);
      SeekNeverFails(steps, i + 1, StepResult(steps[i], text, task), task);
    }
  }

  lemma {:induction false} OutcomesNeverFail(order: seq<ModuleDefinition>, i: nat, contributions: Contributions,
                                             rows: seq<ModuleAllocation>, results: SemanticResults, counts: Calibrated)
    requires NeverFails(counts)
    ensures !OutcomesFail(order, i, contributions, rows, results, counts)
    decreases |order| - i
  {
    hide NeverFails, RunFails, ElasticText, CountChunks, Protected, RequiredTerms, Elastic;
    if i < |order| {
      var chunks, granted := ChunksOf(contributions, order[i].id), GrantedBy(rows, order[i].id);
      RunNeverFails(order[i].pipeline, 0, ElasticText(order[i], chunks), TaskOf(order[i], chunks, granted, counts),
                    results);
      OutcomesNeverFail(order, i + 1, contributions, rows, results, counts);
    }
  }

  lemma PlansNeverFail(order: seq<ModuleDefinition>, contributions: Contributions, rows: seq<ModuleAllocation>,
                       counts: Calibrated)
    requires NeverFails(counts)
    ensures !PlansFail(order, contributions, rows, counts)
  {
    hide NeverFails, SeekFails, ElasticText, CountChunks, Protected, RequiredTerms, Elastic;
    forall m | m in order ensures !PlanFails(m, ChunksOf(contributions, m.id), GrantedBy(rows, m.id), counts) {
      var chunks, granted := ChunksOf(contributions, m.id), GrantedBy(rows, m.id);
      SeekNeverFails(m.pipeline, 0, ElasticText(m, chunks), TaskOf(m, chunks, granted, counts));
    }
  }

  lemma MeasuringNeverFails(ms: seq<ModuleDefinition>, contributions: Contributions, counts: Calibrated)
    requires NeverFails(counts)
    ensures !MeasuringFails(ms, contributions, counts)
  {
    hide Fails;
  }

  /** With a counter that never fails, planning and preparing never report a failed count. */
  lemma NothingFails(d: ArenaDefinition, contributions: Contributions, inputBudget: int, counts: Calibrated)
    requires ValidModules(d.modules) && NeverFails(counts)
    ensures !PlanningFails(d, contributions, inputBudget, counts)
    ensures forall results: SemanticResults, plan: Plan :: !PrepareFails(d, contributions, results, plan, counts)
  {
    hide AllocationStage, PlansFail, OutcomesFail, MeasuringFails, Fails;
    var order := Sort(d.modules, ByLayout);
    MeasuringNeverFails(d.modules, contributions, counts);
    var stage := AllocationStage(d, contributions, inputBudget, counts);
    if stage.Ok? {
      PlansNeverFail(order, contributions, stage.value.rows, counts);
    }
    forall results: SemanticResults, plan: Plan ensures !PrepareFails(d, contributions, results, plan, counts) {
      OutcomesNeverFail(order, 0, contributions, plan.allocation.rows, results, counts);
      assert !Fails(plan.rendered, counts);
    }
  }
}
