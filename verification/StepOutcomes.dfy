/**
 What a single reclaim step decides: when its failure falls through to the next step, when its
 accepted result is over the target, and when that matters.
 */
module StepOutcomes {
  import opened Basics
  import opened Texts
  import opened TextPasses
  import opened Counting
  import opened Truncation
  import opened Layout
  import opened Reclaim
  import opened TwoPhase

  /** A deterministic step fails when its guard rejects it, a semantic one when nothing is acceptable. */
  predicate StepFails(step: Step, text: Text, task: Task, results: SemanticResults) {
    if IsSemantic(step.algorithm) then
      var requests := RequestsForStep(step, text, task);
      requests.Err? || Candidates(requests.value, results, text, task) == []
    else
      var candidate := CompressText(step.algorithm, text, task.target, task.counts);
      task.counts.CountText(candidate) > task.counts.CountText(text) || !ContainsAll(candidate, task.required)
  }

  /** What a step that does not fail turns the text into. */
  function Accepted(step: Step, text: Text, task: Task, results: SemanticResults): Text
    requires !StepFails(step, text, task, results)
  {
    if IsSemantic(step.algorithm)
    then Smallest(Candidates(RequestsForStep(step, text, task).value, results, text, task), task.counts)
    else CompressText(step.algorithm, text, task.target, task.counts)
  }

  // ----- Falling through -----

  lemma FailedStepLeavesText(step: Step, text: Text, task: Task, results: SemanticResults)
    requires !IsSemantic(step.algorithm) && StepFails(step, text, task, results)
    ensures StepResult(step, text, task) == text
  {
    hide CompressText;
  }

  lemma FailedSemanticStepFails(steps: seq<Step>, i: nat, text: Text, task: Task, results: SemanticResults)
    requires i < |steps| && task.counts.CountText(text) > task.target
    requires IsSemantic(steps[i].algorithm) && StepFails(steps[i], text, task, results)
    ensures RunFrom(steps, i, text, task, results).Err?
  {
    hide RequestsForStep, Candidates, Smallest;
  }

  /** A failing step falls through to the next exactly when it is not a semantic step. */
  lemma FallsThroughIff(steps: seq<Step>, i: nat, text: Text, task: Task, results: SemanticResults)
    requires i < |steps| && task.counts.CountText(text) > task.target
    requires AtMostOneSemantic(steps) && StepFails(steps[i], text, task, results)
    ensures RunFrom(steps, i, text, task, results) == RunFrom(steps, i + 1, text, task, results)
            <==> !IsSemantic(steps[i].algorithm)
  {
    hide StepFails, StepResult, RunFrom;
    if IsSemantic(steps[i].algorithm) {
      FailedSemanticStepFails(steps, i, text, task, results);
      OnlyOneSemantic(steps, i);
      DeterministicStepsNeverAsk(steps, i + 1, text, task, results);
    } else {
      FailedStepLeavesText(steps[i], text, task, results);
      RunSkips(steps, i, text, task, results);
    }
  }

  /**
   Whenever a deterministic pipeline would have reclaimed a module, an unanswered semantic step in
   front of it fails the module instead.
   */
  lemma LaterStepsWouldHaveSaved(m: ModuleDefinition, semantic: Step, chunks: seq<Chunk>, allocation: int,
                                 counts: Calibrated)
    requires IsSemantic(semantic.algorithm) && ProvidersOf(semantic) != []
    requires counts.CountText(ElasticText(m, chunks)) > TaskOf(m, chunks, allocation, counts).target
    requires ReclaimModule(m, chunks, allocation, map[], counts).Ok?
    ensures ReclaimModule(m.(pipeline := [semantic] + m.pipeline), chunks, allocation, map[], counts)
            == Err(SemanticResultMissingOrInvalid)
  {
    hide Protected, Elastic, RequiredTerms, Rendered, Join, CountChunks, RunFrom;
    var m' := m.(pipeline := [semantic] + m.pipeline);
    SamePartition(m, m', chunks);
    UnansweredFirst(semantic, m.pipeline, ElasticText(m, chunks), TaskOf(m, chunks, allocation, counts));
  }

  lemma UnansweredFirst(semantic: Step, steps: seq<Step>, text: Text, task: Task)
    requires IsSemantic(semantic.algorithm) && ProvidersOf(semantic) != []
    requires task.counts.CountText(text) > task.target
    ensures RunFrom([semantic] + steps, 0, text, task, map[]) == Err(SemanticResultMissingOrInvalid)
  {
    var requests := RequestsForStep(semantic, text, task);
    assert requests.Ok?;
    hide ProvidersOf, RequestsForStep, Candidates;
    NoAnswersNoCandidates(requests.value, map[], text, task);
  }

  lemma {:induction false} SamePartition(m: ModuleDefinition, m': ModuleDefinition, chunks: seq<Chunk>)
    requires m.pinned == m'.pinned
    ensures Protected(m, chunks) == Protected(m', chunks) && Elastic(m, chunks) == Elastic(m', chunks)
  {
    if chunks != [] {
      SamePartition(m, m', chunks[1..]);
    }
  }

  const LETTER := Letter(0x61, WordChar)

  lemma OneLetter()
    ensures Words([LETTER]) == 1 && Trim([LETTER]) == [LETTER]
  {
    var t := [LETTER];
    assert t[0] == LETTER && t[1..] == [];
    assert Scan(t[1..], true) == 0;
  }

  lemma OneProvider(step: Step, name: Text)
    requires step.algorithm == SemanticSummaryV1 && step.provider == Some(name) && Trim(name) != []
    ensures IsSemantic(step.algorithm) && ProvidersOf(step) != []
  {
    hide Trim;
    assert [name][0] == name && [name][1..] == [];
    assert TrimmedNonEmpty([name][1..]) == [];
  }

  lemma OneChunk(m: ModuleDefinition, c: Chunk)
    requires !IsProtected(m, c) && c.requiredTerms == {}
    ensures Protected(m, [c]) == [] && Elastic(m, [c]) == [c] && RequiredTerms(Elastic(m, [c])) == {}
    ensures ElasticText(m, [c]) == Render(c.content)
  {
    assert [c][0] == c && [c][1..] == [];
    assert Protected(m, [c][1..]) == [] && Elastic(m, [c][1..]) == [];
    assert Rendered([c]) == [Render(c.content)];
  }

  const PLAIN: Calibrated := Counter(None, WordEstimator, 1.0)

  function Truncating(): ModuleDefinition {
    ModuleDefinition(0, 0, 1, 1, 0, 1.0, false, false, false, [Step(BoundaryTruncateV1, None, [])])
  }

  function OneWord(): Chunk {
    Chunk(Named([LETTER]), Str([LETTER]), false, false, {}, [])
  }

  lemma OneWordIsOver()
    ensures PLAIN.CountText(ElasticText(Truncating(), [OneWord()])) == 1
    ensures TaskOf(Truncating(), [OneWord()], 0, PLAIN).target == 0
  {
    hide *;
    OneLetter();
    OneWordChunk();
    PlainCount([LETTER]);
    OneTarget();
  }

  lemma OneWordChunk()
    ensures ElasticText(Truncating(), [OneWord()]) == Render(OneWord().content)
  {
    OneChunk(Truncating(), OneWord());
  }

  lemma PlainCount(t: Text)
    ensures PLAIN.CountText(t) == Words(t)
  {
    hide Words;
    ScaledByOne(Words(t));
  }

  lemma OneTarget()
    ensures Render(OneWord().content) == [LETTER]
    ensures TaskOf(Truncating(), [OneWord()], 0, PLAIN).target == 0
  {
    OneChunk(Truncating(), OneWord());
    hide Protected, Elastic, RequiredTerms;
    assert CountChunks([], PLAIN) == 0;
  }

  lemma OneWordIsTruncated()
    ensures ReclaimModule(Truncating(), [OneWord()], 0, map[], PLAIN).Ok?
  {
    var m := Truncating();
    OneChunk(m, OneWord());
    hide Protected, Elastic, RequiredTerms, ReclaimModule;
    assert m.pipeline[0].algorithm == BoundaryTruncateV1;
    TruncatingPipelineSucceeds(m, [OneWord()], 0, map[], PLAIN);
  }

  /** One word, one token over: truncation saves the module, an unanswered request before it does not. */
  lemma UnansweredStepForfeits()
    ensures var m, semantic := Truncating(), Step(SemanticSummaryV1, Some([LETTER]), []);
            && ReclaimModule(m, [OneWord()], 0, map[], PLAIN).Ok?
            && ReclaimModule(m.(pipeline := [semantic] + m.pipeline), [OneWord()], 0, map[], PLAIN)
               == Err(SemanticResultMissingOrInvalid)
  {
    hide *;
    var semantic := Step(SemanticSummaryV1, Some([LETTER]), []);
    OneLetter();
    OneProvider(semantic, [LETTER]);
    OneWordIsOver();
    OneWordIsTruncated();
    LaterStepsWouldHaveSaved(Truncating(), semantic, [OneWord()], 0, PLAIN);
  }

  // ----- Accepted over the target -----

  /** Normalising any over-target text is accepted, and still over the target, under the word estimator. */
  lemma AcceptedOverTarget(step: Step, text: Text, task: Task, results: SemanticResults)
    requires step.algorithm == NormalizeWhitespaceV1 && task.counts.CountsWords() && task.required == {}
    requires task.counts.CountText(text) > task.target
    ensures !StepFails(step, text, task, results)
    ensures task.counts.CountText(Accepted(step, text, task, results)) > task.target
  {
    hide NormalizeWhitespace;
    NormalizeKeepsWords(text);
  }

  /** Such an accepted result can be a real change: a word and a blank lose the blank. */
  lemma AcceptedChangesText()
    ensures NormalizeWhitespace([LETTER, SPACE]) == [LETTER]
  {
    FieldThenGap([LETTER], [SPACE]);
    assert [LETTER] + [SPACE] == [LETTER, SPACE];
    assert [SPACE][1..] == [];
    assert Fields([SPACE]) == [];
    assert Fields([LETTER, SPACE]) == [[LETTER]];
  }

  /**
   A result accepted at the last step ends the pipeline: the module is reclaimed to it exactly when
   it fits the target, and otherwise fails with the target unmet.
   */
  lemma LastStepDecides(m: ModuleDefinition, chunks: seq<Chunk>, allocation: int, results: SemanticResults,
                        counts: Calibrated, text: Text)
    requires m.pipeline != [] && Elastic(m, chunks) != []
    requires var task := TaskOf(m, chunks, allocation, counts);
             var last := |m.pipeline| - 1;
             && task.target >= 0 && counts.CountText(text) > task.target
             && RunFrom(m.pipeline, 0, ElasticText(m, chunks), task, results)
                == RunFrom(m.pipeline, last, text, task, results)
             && !StepFails(m.pipeline[last], text, task, results)
    ensures var task := TaskOf(m, chunks, allocation, counts);
            var accepted := Accepted(m.pipeline[|m.pipeline| - 1], text, task, results);
            ReclaimedText(m, chunks, allocation, results, counts)
            == if counts.CountText(accepted) <= task.target then Ok(accepted) else Err(TargetUnmet)
  {
    hide Protected, Elastic, RequiredTerms, ElasticText, CompressText, Candidates, RequestsForStep, Smallest;
    var task, last := TaskOf(m, chunks, allocation, counts), |m.pipeline| - 1;
    var accepted := Accepted(m.pipeline[last], text, task, results);
    assert RunFrom(m.pipeline, last + 1, accepted, task, results) == Ok(accepted);
    LastRun(m.pipeline, text, task, results);
  }

  lemma LastRun(steps: seq<Step>, text: Text, task: Task, results: SemanticResults)
    requires steps != [] && task.counts.CountText(text) > task.target
    requires !StepFails(steps[|steps| - 1], text, task, results)
    ensures RunFrom(steps, |steps| - 1, text, task, results) == Ok(Accepted(steps[|steps| - 1], text, task, results))
  {
    hide CompressText, Candidates, RequestsForStep, Smallest, ContainsAll;
  }

  // ----- Stopping early -----

  /** A deterministic pipeline without the early exit. */
  function RunAll(steps: seq<Step>, i: nat, text: Text, task: Task): Text
    decreases |steps| - i
  {
    if i >= |steps| then text else RunAll(steps, i + 1, StepResult(steps[i], text, task), task)
  }

  lemma {:induction false} RunAllNeverGrows(steps: seq<Step>, i: nat, text: Text, task: Task)
    ensures task.counts.CountText(RunAll(steps, i, text, task)) <= task.counts.CountText(text)
    decreases |steps| - i
  {
    if i < |steps| {
      hide CompressText, ContainsAll;
      RunAllNeverGrows(steps, i + 1, StepResult(steps[i], text, task), task);
    }
  }

  /** Stopping at the first text that fits reaches the target exactly when running every step would. */
  lemma {:induction false} StoppingEarlyIsHarmless(steps: seq<Step>, i: nat, text: Text, task: Task,
                                                   results: SemanticResults)
    requires NoSemanticFrom(steps, i)
    ensures var end := RunFrom(steps, i, text, task, results);
            && end.Ok?
            && (task.counts.CountText(end.value) <= task.target
                <==> task.counts.CountText(RunAll(steps, i, text, task)) <= task.target)
    decreases |steps| - i
  {
    hide StepResult;
    if task.counts.CountText(text) <= task.target {
      RunAllNeverGrows(steps, i, text, task);
    } else if i < |steps| {
      StoppingEarlyIsHarmless(steps, i + 1, StepResult(steps[i], text, task), task, results);
    }
  }

  // ----- Which algorithms' accepted results fit -----

  /** Whatever the text, target and results, what a step of this algorithm is accepted with fits. */
  ghost predicate AcceptedAlwaysFits(a: Algorithm, counts: Calibrated) {
    forall step: Step, text: Text, task: Task, results: SemanticResults
      | step.algorithm == a && OverTarget(text, task, counts) && !StepFails(step, text, task, results) ::
      counts.CountText(Accepted(step, text, task, results)) <= task.target
  }

  /** The situation in which a step runs: the text is over a target that the allocation leaves. */
  ghost predicate OverTarget(text: Text, task: Task, counts: Calibrated) {
    task.counts == counts && 0 <= task.target < counts.CountText(text)
  }

  predicate CutsToTarget(a: Algorithm) {
    a == ExtractiveSentenceRankV1 || a == BoundaryTruncateV1
  }

  lemma SelectedMeetTarget(t: Text, target: int, counts: Calibrated)
    requires TruncatesToTarget(counts) && target >= 0
    ensures counts.CountText(SelectedSentences(t, target, counts)) <= target
  {
    EmptyCountsNothing(counts);
    TruncationMeetsTarget(t, target, counts);
    SelectedSentencesMeetTarget(t, target, counts);
  }

  lemma EmptyCountsNothing(counts: Calibrated)
    requires TruncatesToTarget(counts)
    ensures counts.CountText([]) == 0
  {
    if counts.CountsCharacters() {
      CountOfEmpty(counts);
    }
  }

  lemma CutsFit(a: Algorithm, counts: Calibrated)
    requires CutsToTarget(a) && TruncatesToTarget(counts)
    ensures AcceptedAlwaysFits(a, counts)
  {
    hide Truncated, SelectedSentences, TruncatesToTarget, StepFails, OverTarget;
    forall step: Step, text: Text, task: Task, results: SemanticResults
      | step.algorithm == a && OverTarget(text, task, counts) && !StepFails(step, text, task, results)
      ensures counts.CountText(Accepted(step, text, task, results)) <= task.target
    {
      OverTargetMeans(text, task, counts);
      SelectedMeetTarget(text, task.target, counts);
      TruncationMeetsTarget(text, task.target, counts);
    }
  }

  lemma OverTargetMeans(text: Text, task: Task, counts: Calibrated)
    requires OverTarget(text, task, counts)
    ensures task.counts == counts && 0 <= task.target < counts.CountText(text)
  {
  }

  lemma OneLetterPasses()
    ensures NormalizeWhitespace([LETTER]) == [LETTER] && DeduplicateBlocks([LETTER]) == [LETTER]
  {
    var t := [LETTER];
    FieldThenGap(t, []);
    assert t + [] == t && Fields([]) == [];
    assert Fields(t) == [t];
    assert NextBreak(t, 0) == 1;
    assert Blocks(t) == [t] && [t][1..] == [];
    assert KeepFirst(Blocks(t), {}) == [t];
  }

  lemma LetterHasOneOther()
    ensures Cjk([LETTER]) == 0 && Other([LETTER]) == 1
  {
    var t := [LETTER];
    assert t[0] == LETTER && t[1..] == [];
    assert Cjk(t[1..]) == 0 && Other(t[1..]) == 0;
  }

  lemma EstimateOfLetter(estimator: Estimator)
    ensures Estimate([LETTER], estimator) == 1
  {
    hide Words, Cjk, Other;
    assert Words([LETTER]) == 1 by {
      OneLetter();
    }
    LetterHasOneOther();
  }

  lemma CountIsAtLeastEstimate(t: Text, counts: Calibrated)
    requires counts.external.None?
    ensures counts.CountText(t) >= Estimate(t, counts.estimator)
  {
    hide Words, CharTokens;
  }

  /** One letter counts something under either built-in estimator. */
  lemma OneLetterCounts(counts: Calibrated)
    requires counts.external.None?
    ensures counts.CountText([LETTER]) > 0
  {
    hide *;
    EstimateOfLetter(counts.estimator);
    CountIsAtLeastEstimate([LETTER], counts);
  }

  function OneLetterTask(counts: Calibrated): Task {
    Task(0, 0, {}, counts)
  }

  function StepOf(a: Algorithm): Step {
    Step(a, Some([LETTER]), [[LETTER]])
  }

  /** What answers a semantic step's only request with the text itself. */
  function Echo(a: Algorithm, counts: Calibrated): SemanticResults {
    map[RequestId(0, a, [LETTER], 0, {}, [LETTER]) := [LETTER]]
  }

  lemma NamedProvider(a: Algorithm)
    requires IsSemantic(a)
    ensures ProvidersOf(StepOf(a)) == [[LETTER]]
  {
    OneLetter();
    hide Trim;
    var names := [[LETTER]];
    assert names[0] == [LETTER] && names[1..] == [];
    assert TrimmedNonEmpty(names[1..]) == [];
    assert TrimmedNonEmpty(names) == [[LETTER]];
  }

  lemma OneRequest(a: Algorithm, task: Task)
    requires IsSemantic(a) && task.owner == 0 && task.target == 0 && task.required == {}
    ensures RequestsForStep(StepOf(a), [LETTER], task)
            == Ok([SemanticRequest(RequestId(0, a, [LETTER], 0, {}, [LETTER]), StepOf(a))])
  {
    hide ProvidersOf;
    NamedProvider(a);
    var request := SemanticRequest(RequestId(0, a, [LETTER], 0, {}, [LETTER]), StepOf(a));
    var requests := RequestsForStep(StepOf(a), [LETTER], task).value;
    assert |requests| == 1 && requests[0] == request;
    assert requests == [request];
  }

  lemma OneCandidate(request: SemanticRequest, results: SemanticResults, text: Text, task: Task)
    requires request.id in results && results[request.id] == text && Acceptable(text, text, task)
    ensures Candidates([request], results, text, task) == [text]
  {
    hide Acceptable;
    assert [request][0] == request && [request][1..] == [];
    assert Candidates([request][1..], results, text, task) == [];
  }

  lemma LetterIsAcceptable(task: Task)
    requires task.required == {}
    ensures Acceptable([LETTER], [LETTER], task)
  {
    hide Trim, Words, Counter.CountText;
    OneLetter();
  }

  lemma EchoIsAccepted(a: Algorithm, counts: Calibrated)
    requires IsSemantic(a)
    ensures var task := OneLetterTask(counts);
            && !StepFails(StepOf(a), [LETTER], task, Echo(a, counts))
            && Accepted(StepOf(a), [LETTER], task, Echo(a, counts)) == [LETTER]
  {
    hide ProvidersOf, CompressText, RequestsForStep, Candidates, Acceptable, Smallest, ContainsAll;
    var task, results := OneLetterTask(counts), Echo(a, counts);
    OneRequest(a, task);
    LetterIsAcceptable(task);
    var request := RequestsForStep(StepOf(a), [LETTER], task).value[0];
    OneCandidate(request, results, [LETTER], task);
    SmallestOfOne([LETTER], counts);
  }

  lemma SmallestOfOne(t: Text, counts: Calibrated)
    ensures Smallest([t], counts) == t
  {
    assert [t][0] == t;
  }

  /** One letter that counts, at target zero: every algorithm that does not cut is accepted, over the target. */
  lemma OneLetterStaysOver(a: Algorithm, counts: Calibrated)
    requires !CutsToTarget(a) && counts.CountText([LETTER]) > 0
    ensures var task, results := OneLetterTask(counts), Echo(a, counts);
            && OverTarget([LETTER], task, counts) && !StepFails(StepOf(a), [LETTER], task, results)
            && counts.CountText(Accepted(StepOf(a), [LETTER], task, results)) > task.target
  {
    if IsSemantic(a) {
      EchoIsAccepted(a, counts);
    } else {
      OneLetterPasses();
      hide NormalizeWhitespace, DeduplicateBlocks, SelectedSentences, Truncated, Candidates, RequestsForStep;
      assert CompressText(a, [LETTER], 0, counts) == [LETTER];
    }
  }

  lemma NotAlways(a: Algorithm, counts: Calibrated, step: Step, text: Text, task: Task, results: SemanticResults)
    requires step.algorithm == a && OverTarget(text, task, counts) && !StepFails(step, text, task, results)
    requires counts.CountText(Accepted(step, text, task, results)) > task.target
    ensures !AcceptedAlwaysFits(a, counts)
  {
    hide StepFails, Accepted, OverTarget;
  }

  /** One ideograph at target one, above multiplier one: cut to itself, accepted, and over. */
  lemma OneIdeographStaysOver(a: Algorithm, counts: Calibrated)
    requires CutsToTarget(a) && counts.CountsCharacters() && counts.multiplier > 1.0
    ensures var t, task := Ideographs(1), Task(0, 1, {}, counts);
            && OverTarget(t, task, counts) && !StepFails(StepOf(a), t, task, map[])
            && counts.CountText(Accepted(StepOf(a), t, task, map[])) > task.target
  {
    hide Ideographs, Truncated, SelectedSentences, Candidates, RequestsForStep, Counter.CountText;
    var t := Ideographs(1);
    IdeographsMissTarget(1, counts);
    IdeographIsCutToItself(counts);
    assert CompressText(a, t, 1, counts) == t;
  }

  lemma IdeographIsCutToItself(counts: Calibrated)
    requires counts.CountsCharacters() && counts.multiplier > 1.0
    ensures var t := Ideographs(1);
            && Truncated(t, 1, counts) == t && SelectedSentences(t, 1, counts) == t
            && counts.CountText(t) > 1
  {
    hide Ideographs, CharTruncated, RecountTruncated, Sentences, Trim, Counter.CountText;
    var t := Ideographs(1);
    IdeographsKept(1);
    IdeographsMissTarget(1, counts);
    IdeographIsOneSentence();
    assert Truncated(t, 1, counts) == t;
    NothingSelected(t, 1, counts);
  }

  lemma NothingSelected(t: Text, target: int, counts: Calibrated)
    requires Trim(t) == t && counts.CountText(t) > target
    ensures SelectFrom([t], [], target, counts) == []
  {
    hide Trim, Counter.CountText;
    assert [t][0] == t;
  }

  lemma IdeographIsOneSentence()
    ensures Sentences(Ideographs(1)) == [Ideographs(1)] && Trim(Ideographs(1)) == Ideographs(1)
  {
    var t := Ideographs(1);
    assert Ideographs(0) == [];
    assert t == [Letter(0x4E00, WordChar)];
    assert SentenceLength(t) == 1 && t[..1] == t && t[1..] == [];
    assert Sentences(t[1..]) == [];
  }

  /** Nothing at all, where a host counts it as something, is cut to itself, accepted, and over. */
  lemma NothingStaysOver(a: Algorithm, counts: Calibrated)
    requires CutsToTarget(a) && !counts.CountsCharacters() && counts.CountText([]) > 0
    ensures var task := OneLetterTask(counts);
            && OverTarget([], task, counts) && !StepFails(StepOf(a), [], task, map[])
            && counts.CountText(Accepted(StepOf(a), [], task, map[])) > task.target
  {
    hide Counter.CountText, Candidates, RequestsForStep;
    assert Truncated([], 0, counts) == [];
    assert SelectFrom(Sentences([]), [], 0, counts) == [];
    assert CompressText(a, [], 0, counts) == [];
  }

  /**
   Under any counter that counts a letter as something, an accepted result is sure to fit the target
   exactly for the two algorithms that cut to it, and where truncation meets its target: under the
   character estimator at multiplier one, under any other counter if it counts nothing as nothing.
   */
  lemma AlwaysFitsIff(a: Algorithm, counts: Calibrated)
    requires counts.CountText([LETTER]) > 0
    ensures AcceptedAlwaysFits(a, counts) <==> CutsToTarget(a) && TruncatesToTarget(counts)
  {
    hide AcceptedAlwaysFits, StepFails, Accepted, OverTarget, Ideographs, Counter.CountText;
    if CutsToTarget(a) && TruncatesToTarget(counts) {
      CutsFit(a, counts);
    } else if !CutsToTarget(a) {
      OneLetterStaysOver(a, counts);
      NotAlways(a, counts, StepOf(a), [LETTER], OneLetterTask(counts), Echo(a, counts));
    } else if counts.CountsCharacters() {
      OneIdeographStaysOver(a, counts);
      NotAlways(a, counts, StepOf(a), Ideographs(1), Task(0, 1, {}, counts), map[]);
    } else {
      NothingStaysOver(a, counts);
      NotAlways(a, counts, StepOf(a), [], OneLetterTask(counts), map[]);
    }
  }

  /** Under the built-in estimators: by words at any calibration, by characters at multiplier one. */
  lemma BuiltInAlwaysFitsIff(a: Algorithm, counts: Calibrated)
    requires counts.external.None?
    ensures AcceptedAlwaysFits(a, counts)
            <==> CutsToTarget(a) && (counts.CountsWords() || counts.multiplier == 1.0)
  {
    hide AcceptedAlwaysFits, Counter.CountText;
    OneLetterCounts(counts);
    CountOfEmpty(counts);
    AlwaysFitsIff(a, counts);
  }
}
