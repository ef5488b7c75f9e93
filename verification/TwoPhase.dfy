/**
 The two-phase semantic transaction: planning and committing run separately written loops, which
 must stop at the same step with the same text for the request ids to match.
 */
module TwoPhase {
  import opened Basics
  import opened Texts
  import opened Counting
  import opened Layout
  import opened Reclaim

  // ----- Planning -----

  /** The planning loop from step `i` on: the requests of the first semantic step it reaches. */
  function SeekFrom(steps: seq<Step>, i: nat, text: Text, task: Task): Result<seq<SemanticRequest>, ReclaimError>
    decreases |steps| - i
  {
    if i >= |steps| || task.counts.CountText(text) <= task.target then Ok([])
    else if IsSemantic(steps[i].algorithm) then RequestsForStep(steps[i], text, task)
    else SeekFrom(steps, i + 1, StepResult(steps[i], text, task), task)
  }

  function PlannedRequests(m: ModuleDefinition, chunks: seq<Chunk>, allocation: int, counts: Calibrated)
    : Result<seq<SemanticRequest>, ReclaimError>
  {
    var task := TaskOf(m, chunks, allocation, counts);
    if task.target < 0 then Err(ProtectedExceedsAllocation)
    else if Elastic(m, chunks) == [] then Ok([])
    else SeekFrom(m.pipeline, 0, ElasticText(m, chunks), task)
  }

  method SeekRequests(steps: seq<Step>, start: Text, task: Task)
    returns (r: Result<seq<SemanticRequest>, ReclaimError>)
    ensures r == SeekFrom(steps, 0, start, task)
  {
    hide CompressText, RequestsForStep, ContainsAll;
    var text := start;
    for i := 0 to |steps|
      invariant SeekFrom(steps, 0, start, task) == SeekFrom(steps, i, text, task)
    {
      if task.counts.CountText(text) <= task.target {
        return Ok([]);
      }
      var step := steps[i];
      if IsSemantic(step.algorithm) {
        r := RequestsForStep(step, text, task);
        return;
      }
      var candidate := ApplyPass(step.algorithm, text, task.target, task.counts);
      if task.counts.CountText(candidate) <= task.counts.CountText(text) && ContainsAll(candidate, task.required) {
        text := candidate;
      }
    }
    r := Ok([]);
  }

  method CollectSemanticRequests(m: ModuleDefinition, chunks: seq<Chunk>, allocation: int, counts: Calibrated)
    returns (r: Result<seq<SemanticRequest>, ReclaimError>)
    ensures r == PlannedRequests(m, chunks, allocation, counts)
  {
    hide SeekFrom, Protected, Elastic, RequiredTerms, Rendered, Join;
    var protected, elastic := Protected(m, chunks), Elastic(m, chunks);
    var protectedTokens := CountChunks(protected, counts);
    if protectedTokens > allocation {
      return Err(ProtectedExceedsAllocation);
    }
    if elastic == [] {
      return Ok([]);
    }
    var task := Task(m.id, allocation - protectedTokens, RequiredTerms(elastic), counts);
    r := SeekRequests(m.pipeline, Join(Rendered(elastic), BREAK), task);
  }

  // ----- Agreement -----

  predicate NoSemanticFrom(steps: seq<Step>, i: nat) {
    forall j | i <= j < |steps| :: !IsSemantic(steps[j].algorithm)
  }

  predicate AsksAbout(requests: seq<SemanticRequest>, id: RequestId) {
    exists r | r in requests :: r.id == id
  }

  predicate AgreeOn(requests: seq<SemanticRequest>, a: SemanticResults, b: SemanticResults) {
    forall r | r in requests :: (r.id in a <==> r.id in b) && (r.id in a ==> a[r.id] == b[r.id])
  }

  lemma {:induction false} CandidatesAgree(requests: seq<SemanticRequest>, a: SemanticResults, b: SemanticResults,
                                           text: Text, task: Task)
    requires AgreeOn(requests, a, b)
    ensures Candidates(requests, a, text, task) == Candidates(requests, b, text, task)
  {
    if requests != [] {
      assert requests[0] in requests;
      CandidatesAgree(requests[1..], a, b, text, task);
    }
  }

  lemma {:induction false} RunWithoutSemantics(steps: seq<Step>, i: nat, text: Text, task: Task,
                                               a: SemanticResults, b: SemanticResults)
    requires NoSemanticFrom(steps, i)
    ensures RunFrom(steps, i, text, task, a) == RunFrom(steps, i, text, task, b)
    decreases |steps| - i
  {
    if i < |steps| && task.counts.CountText(text) > task.target {
      RunWithoutSemantics(steps, i + 1, StepResult(steps[i], text, task), task, a, b);
    }
  }

  /** The commit loop gets to step `k` with text `t`, whatever results it was given. */
  ghost predicate Arrives(steps: seq<Step>, i: nat, text: Text, task: Task, k: nat, t: Text) {
    i <= k < |steps| && forall results: SemanticResults ::
      RunFrom(steps, i, text, task, results) == RunFrom(steps, k, t, task, results)
  }

  /** Planning stops where committing first needs a semantic result, holding the same text. */
  lemma {:induction false} SeekFindsTheStep(steps: seq<Step>, i: nat, text: Text, task: Task)
    returns (k: nat, t: Text)
    requires SeekFrom(steps, i, text, task) != Ok([])
    ensures Arrives(steps, i, text, task, k, t)
    ensures IsSemantic(steps[k].algorithm) && task.counts.CountText(t) > task.target
    ensures SeekFrom(steps, i, text, task) == RequestsForStep(steps[k], t, task)
    decreases |steps| - i
  {
    hide RunFrom, RequestsForStep;
    if IsSemantic(steps[i].algorithm) {
      k, t := i, text;
    } else {
      var next := StepResult(steps[i], text, task);
      k, t := SeekFindsTheStep(steps, i + 1, next, task);
      forall results: SemanticResults
        ensures RunFrom(steps, i, text, task, results) == RunFrom(steps, k, t, task, results)
      {
        RunSkips(steps, i, text, task, results);
      }
    }
  }

  lemma RunSkips(steps: seq<Step>, i: nat, text: Text, task: Task, results: SemanticResults)
    requires i < |steps| && task.counts.CountText(text) > task.target && !IsSemantic(steps[i].algorithm)
    ensures RunFrom(steps, i, text, task, results)
            == RunFrom(steps, i + 1, StepResult(steps[i], text, task), task, results)
  {
  }

  /** Nothing planned means nothing consulted. */
  lemma {:induction false} NothingPlannedNothingConsulted(steps: seq<Step>, i: nat, text: Text, task: Task,
                                                          a: SemanticResults, b: SemanticResults)
    requires SeekFrom(steps, i, text, task) == Ok([])
    ensures RunFrom(steps, i, text, task, a) == RunFrom(steps, i, text, task, b)
    decreases |steps| - i
  {
    if i < |steps| && task.counts.CountText(text) > task.target {
      NothingPlannedNothingConsulted(steps, i + 1, StepResult(steps[i], text, task), task, a, b);
    }
  }

  /** From its semantic step on, a commit depends on the results for that step's requests only. */
  lemma SemanticStepConsults(steps: seq<Step>, k: nat, t: Text, task: Task, requests: seq<SemanticRequest>,
                             a: SemanticResults, b: SemanticResults)
    requires k < |steps| && IsSemantic(steps[k].algorithm) && task.counts.CountText(t) > task.target
    requires RequestsForStep(steps[k], t, task) == Ok(requests)
    requires NoSemanticFrom(steps, k + 1) && AgreeOn(requests, a, b)
    ensures RunFrom(steps, k, t, task, a) == RunFrom(steps, k, t, task, b)
    ensures Candidates(requests, a, t, task) == []
            <==> RunFrom(steps, k, t, task, a) == Err(SemanticResultMissingOrInvalid)
  {
    hide Candidates, RequestsForStep, StepResult, NoSemanticFrom, Smallest;
    CandidatesAgree(requests, a, b, t, task);
    var candidates := Candidates(requests, a, t, task);
    if candidates != [] {
      RunWithoutSemantics(steps, k + 1, Smallest(candidates, task.counts), task, a, b);
      DeterministicStepsNeverAsk(steps, k + 1, Smallest(candidates, task.counts), task, a);
    }
  }

  lemma {:induction false} DeterministicStepsNeverAsk(steps: seq<Step>, i: nat, text: Text, task: Task,
                                                      results: SemanticResults)
    requires NoSemanticFrom(steps, i)
    ensures RunFrom(steps, i, text, task, results).Ok?
    decreases |steps| - i
  {
    if i < |steps| && task.counts.CountText(text) > task.target {
      DeterministicStepsNeverAsk(steps, i + 1, StepResult(steps[i], text, task), task, results);
    }
  }

  /**
   Plan and commit agree: a commit's outcome is decided by the results for exactly the planned
   ids. With nothing planned the results are irrelevant; with a planning error the commit fails
   the same way; and with none of the planned ids answered acceptably the commit fails asking.
   */
  lemma PlanAndCommitAgree(m: ModuleDefinition, chunks: seq<Chunk>, allocation: int, counts: Calibrated,
                           a: SemanticResults, b: SemanticResults)
    requires AtMostOneSemantic(m.pipeline)
    ensures var plan := PlannedRequests(m, chunks, allocation, counts);
            && (plan.Err? ==> ReclaimedText(m, chunks, allocation, a, counts) == Err(plan.error))
            && (plan.Ok? && AgreeOn(plan.value, a, b) ==>
                  ReclaimModule(m, chunks, allocation, a, counts) == ReclaimModule(m, chunks, allocation, b, counts))
            && (plan.Ok? && plan.value != [] && (forall r | r in plan.value :: r.id !in a) ==>
                  ReclaimedText(m, chunks, allocation, a, counts) == Err(SemanticResultMissingOrInvalid))
  {
    hide RunFrom, Candidates, RequestsForStep, Elastic, Protected, RequiredTerms;
    var task, text := TaskOf(m, chunks, allocation, counts), ElasticText(m, chunks);
    var plan := PlannedRequests(m, chunks, allocation, counts);
    if task.target >= 0 && Elastic(m, chunks) != [] {
      if plan == Ok([]) {
        NothingPlannedNothingConsulted(m.pipeline, 0, text, task, a, b);
      } else {
        var k, t := SeekFindsTheStep(m.pipeline, 0, text, task);
        OnlyOneSemantic(m.pipeline, k);
        if plan.Err? {
          NoProvidersFails(m.pipeline, k, t, task, a);
        } else {
          SemanticStepConsults(m.pipeline, k, t, task, plan.value, a, a);
          if AgreeOn(plan.value, a, b) {
            SemanticStepConsults(m.pipeline, k, t, task, plan.value, a, b);
          }
          if forall r | r in plan.value :: r.id !in a {
            NoAnswersNoCandidates(plan.value, a, t, task);
          }
        }
      }
    }
  }

  lemma OnlyOneSemantic(steps: seq<Step>, k: nat)
    requires AtMostOneSemantic(steps) && k < |steps| && IsSemantic(steps[k].algorithm)
    ensures NoSemanticFrom(steps, k + 1)
  {
  }

  lemma NoProvidersFails(steps: seq<Step>, k: nat, t: Text, task: Task, results: SemanticResults)
    requires k < |steps| && IsSemantic(steps[k].algorithm) && task.counts.CountText(t) > task.target
    requires RequestsForStep(steps[k], t, task).Err?
    ensures RunFrom(steps, k, t, task, results) == Err(RequestsForStep(steps[k], t, task).error)
  {
  }

  lemma {:induction false} NoAnswersNoCandidates(requests: seq<SemanticRequest>, results: SemanticResults,
                                                 text: Text, task: Task)
    requires forall r | r in requests :: r.id !in results
    ensures Candidates(requests, results, text, task) == []
  {
    if requests != [] {
      assert requests[0] in requests;
      NoAnswersNoCandidates(requests[1..], results, text, task);
    }
  }
}
