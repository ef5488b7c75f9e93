/**
 What a semantic request says, in its own fields, and what an answer to it does: the host is told
 who asks, how much room there is, what must survive and which text to summarise, and an answer
 that keeps to that reclaims the module.
 */
module Requests {
  import opened Basics
  import opened Texts
  import opened Counting
  import opened Layout
  import opened Leasing
  import opened Reclaim
  import opened TwoPhase
  import opened Preparing

  // ----- Providers -----

  /** `inner` is `outer` without the blanks around it, and says something. */
  ghost predicate IsTrimmed(inner: Text, outer: Text) {
    && inner != [] && !IsBlank(inner[0]) && !IsBlank(inner[|inner| - 1])
    && exists left: Text, right: Text :: AllBlank(left) && AllBlank(right) && outer == left + inner + right
  }

  lemma BlankAround(left: Text, right: Text)
    requires AllBlank(left) && AllBlank(right)
    ensures AllBlank(left + right)
  {
  }

  lemma TrimLeaves(t: Text) returns (left: Text, right: Text)
    ensures AllBlank(left) && AllBlank(right) && t == left + Trim(t) + right
    ensures Trim(t) != [] ==> !IsBlank(Trim(t)[0]) && !IsBlank(Trim(t)[|Trim(t)| - 1])
  {
    hide TrimStart, TrimEnd, AllBlank;
    var start := TrimStart(t);
    left, right := t[..|t| - |start|], start[|Trim(t)|..];
    assert t == left + start && start == Trim(t) + right;
  }

  /** Trimming removes exactly the blanks around a text, or everything when there is nothing else. */
  lemma TrimMeans(t: Text)
    ensures if AllBlank(t) then Trim(t) == [] else IsTrimmed(Trim(t), t)
  {
    var left, right := TrimLeaves(t);
    var inner := Trim(t);
    hide Trim;
    if inner == [] {
      BlankAround(left, right);
      assert t == left + right;
    } else {
      assert t[|left|] == inner[0];
    }
  }

  /** The names a semantic step is configured with. */
  predicate Configures(step: Step, name: Text) {
    || (step.algorithm == SemanticSummaryV1 && step.provider == Some(name))
    || (step.algorithm == SemanticPortfolioV1 && name in step.providers)
  }

  lemma {:induction false} TrimmedNames(names: seq<Text>)
    ensures forall p | p in TrimmedNonEmpty(names) :: exists name :: name in names && IsTrimmed(p, name)
    ensures forall name | name in names && !AllBlank(name) :: Trim(name) in TrimmedNonEmpty(names)
  {
    if names != [] {
      TrimMeans(names[0]);
      TrimmedNames(names[1..]);
      hide Trim, AllBlank, IsTrimmed;
      var mine: seq<Text> := if Trim(names[0]) == [] then [] else [Trim(names[0])];
      assert TrimmedNonEmpty(names) == mine + TrimmedNonEmpty(names[1..]);
      forall p | p in TrimmedNonEmpty(names) ensures exists name :: name in names && IsTrimmed(p, name) {
        if p in TrimmedNonEmpty(names[1..]) {
          var name :| name in names[1..] && IsTrimmed(p, name);
          assert name in names;
        } else {
          assert p in mine && names[0] in names;
        }
      }
      forall name | name in names && !AllBlank(name) ensures Trim(name) in TrimmedNonEmpty(names) {
        if name in names[1..] {
        } else {
          assert name == names[0];
          TrimMeans(name);
          TrimmedSaysSomething(Trim(name), name);
        }
      }
    }
  }

  lemma TrimmedSaysSomething(inner: Text, outer: Text)
    requires IsTrimmed(inner, outer)
    ensures inner != []
  {
  }

  /** Requests go to the configured names, trimmed: all that say something, and no others. */
  lemma ProvidersAreConfigured(step: Step)
    requires IsSemantic(step.algorithm)
    ensures forall p | p in ProvidersOf(step) :: exists name :: Configures(step, name) && IsTrimmed(p, name)
    ensures forall name | Configures(step, name) && !AllBlank(name) ::
              exists p :: p in ProvidersOf(step) && IsTrimmed(p, name)
  {
    var names := if step.algorithm == SemanticPortfolioV1 then step.providers
                 else if step.provider.Some? then [step.provider.value] else [];
    TrimmedNames(names);
    assert forall name :: Configures(step, name) <==> name in names;
    forall name | Configures(step, name) && !AllBlank(name)
      ensures exists p :: p in ProvidersOf(step) && IsTrimmed(p, name)
    {
      TrimMeans(name);
      assert Trim(name) in TrimmedNonEmpty(names);
    }
  }

  // ----- What a request says -----

  /** The request comes from one of the module's steps, for a provider that step is configured with. */
  ghost predicate FromStep(m: ModuleDefinition, r: SemanticRequest) {
    && r.options in m.pipeline && r.id.algorithm == r.options.algorithm
    && exists name :: Configures(r.options, name) && IsTrimmed(r.id.provider, name)
  }

  /**
   A request of this module, over its grant: it leaves the grant less what must be kept, names
   every term of the chunks to be cut and no other, and carries a text that is still too long.
   */
  ghost predicate Says(m: ModuleDefinition, chunks: seq<Chunk>, granted: int, counts: Calibrated,
                       r: SemanticRequest, kept: seq<Chunk>, cut: seq<Chunk>) {
    && IsPick(kept, chunks, Flagged(m)) && IsPick(cut, chunks, Unflagged(m)) && cut != []
    && CountChunks(chunks, counts) > granted
    && r.id.owner == m.id && FromStep(m, r)
    && 0 <= r.id.target == granted - CountChunks(kept, counts)
    && (forall t :: t in r.id.required <==> exists c | c in cut :: t in c.requiredTerms)
    && r.id.target < counts.CountText(r.id.source) <= counts.CountText(Join(Rendered(cut), BREAK))
    && (r.id.source == Join(Rendered(cut), BREAK) || forall t | t in r.id.required :: Holds(r.id.source, t))
  }

  /** The deterministic steps in front of a semantic one only shrink the text, and keep its terms. */
  lemma {:induction false} SeekKeepsContract(steps: seq<Step>, i: nat, text: Text, task: Task)
    requires SeekFrom(steps, i, text, task).Ok?
    ensures forall r | r in SeekFrom(steps, i, text, task).value ::
              && r.options in steps && IsSemantic(r.options.algorithm) && r.id.algorithm == r.options.algorithm
              && r.id.provider in ProvidersOf(r.options)
              && r.id.owner == task.owner && r.id.target == task.target && r.id.required == task.required
              && task.target < task.counts.CountText(r.id.source) <= task.counts.CountText(text)
              && (r.id.source == text || ContainsAll(r.id.source, task.required))
    decreases |steps| - i
  {
    hide ProvidersOf, CompressText, ContainsAll, Counter.CountText;
    if i < |steps| && task.counts.CountText(text) > task.target && !IsSemantic(steps[i].algorithm) {
      SeekKeepsContract(steps, i + 1, StepResult(steps[i], text, task), task);
    }
  }

  /** Every request of a module says what it should. */
  lemma RequestsSay(m: ModuleDefinition, chunks: seq<Chunk>, granted: int, counts: Calibrated, r: SemanticRequest)
    returns (kept: seq<Chunk>, cut: seq<Chunk>)
    requires CountChunks(chunks, counts) > granted
    requires var plan := PlannedRequests(m, chunks, granted, counts); plan.Ok? && r in plan.value
    ensures Says(m, chunks, granted, counts, r, kept, cut)
  {
    kept, cut := Protected(m, chunks), Elastic(m, chunks);
    PartitionIsPick(m, chunks);
    var task := TaskOf(m, chunks, granted, counts);
    SeekKeepsContract(m.pipeline, 0, ElasticText(m, chunks), task);
    ProvidersAreConfigured(r.options);
    hide IsPick, Contains, SeekFrom, Protected, Elastic, ProvidersOf, IsTrimmed, Join, Rendered;
    if ContainsAll(r.id.source, task.required) {
      forall t | t in task.required ensures Holds(r.id.source, t) {
        ContainsHolds(r.id.source, t);
      }
    }
  }

  /** A module with nothing to cut is never asked about: it plans nothing, or fails for what it must keep. */
  lemma ProtectedModulesDoNotAsk(m: ModuleDefinition, chunks: seq<Chunk>, granted: int, counts: Calibrated)
    requires forall c | c in chunks :: c.fixed || c.pinned || m.pinned
    ensures PlannedRequests(m, chunks, granted, counts)
            == if CountChunks(chunks, counts) <= granted then Ok([]) else Err(ProtectedExceedsAllocation)
  {
    AllProtected(m, chunks);
    hide CountChunks;
  }

  lemma {:induction false} AllProtected(m: ModuleDefinition, chunks: seq<Chunk>)
    requires forall c | c in chunks :: c.fixed || c.pinned || m.pinned
    ensures Protected(m, chunks) == chunks && Elastic(m, chunks) == []
  {
    if chunks != [] {
      AllProtected(m, chunks[1..]);
      assert chunks[0] in chunks && chunks == [chunks[0]] + chunks[1..];
    }
  }

  /** And no configured provider is left out: those of one step are all asked, or none is. */
  lemma {:induction false} EveryProviderIsAsked(steps: seq<Step>, i: nat, text: Text, task: Task)
    returns (step: Step)
    requires var plan := SeekFrom(steps, i, text, task); plan.Ok? && plan.value != []
    ensures step in steps
    ensures forall name | Configures(step, name) && !AllBlank(name) ::
              exists r :: r in SeekFrom(steps, i, text, task).value && IsTrimmed(r.id.provider, name)
    decreases |steps| - i
  {
    hide ProvidersOf, StepResult, IsTrimmed, AllBlank;
    if IsSemantic(steps[i].algorithm) {
      step := steps[i];
      ProvidersAreConfigured(step);
      var requests := RequestsForStep(step, text, task).value;
      forall name | Configures(step, name) && !AllBlank(name)
        ensures exists r :: r in requests && IsTrimmed(r.id.provider, name)
      {
        var p :| p in ProvidersOf(step) && IsTrimmed(p, name);
        var k :| 0 <= k < |ProvidersOf(step)| && ProvidersOf(step)[k] == p;
        assert requests[k] in requests && requests[k].id.provider == p;
      }
    } else {
      step := EveryProviderIsAsked(steps, i + 1, StepResult(steps[i], text, task), task);
    }
  }

  // ----- A whole plan -----

  /** The grant of a module, as the published rows give it. */
  ghost predicate Grants(rows: seq<ModuleAllocation>, id: ModuleId, granted: int) {
    exists row | row in rows :: row.id == id && row.granted == granted
  }

  /** A request in a plan is that of a module of the arena over what it was granted. */
  ghost predicate SaysForArena(d: ArenaDefinition, contributions: Contributions, rows: seq<ModuleAllocation>,
                               counts: Calibrated, r: SemanticRequest) {
    exists m, granted: int, kept, cut | m in d.modules && m.id in contributions ::
      && Grants(rows, m.id, granted)
      && Says(m, contributions[m.id].chunks, granted, counts, r, kept, cut)
  }

  lemma {:induction false} GrantedByGrants(rows: seq<ModuleAllocation>, id: ModuleId)
    requires exists row | row in rows :: row.id == id
    ensures Grants(rows, id, GrantedBy(rows, id))
  {
    if rows[0].id == id {
      assert rows[0] in rows;
    } else {
      var row :| row in rows && row.id == id;
      assert row in rows[1..];
      GrantedByGrants(rows[1..], id);
      var found :| found in rows[1..] && found.id == id && found.granted == GrantedBy(rows[1..], id);
      assert found in rows;
    }
  }

  lemma {:induction false} RequestsFromSay(order: seq<ModuleDefinition>, i: nat, contributions: Contributions,
                                           rows: seq<ModuleAllocation>, counts: Calibrated, r: SemanticRequest)
    returns (m: ModuleDefinition, kept: seq<Chunk>, cut: seq<Chunk>)
    requires var plan := RequestsFrom(order, i, contributions, rows, counts); plan.Ok? && r in plan.value
    ensures m in order && m.id in contributions
    ensures Says(m, contributions[m.id].chunks, GrantedBy(rows, m.id), counts, r, kept, cut)
    decreases |order| - i
  {
    hide PlannedRequests, CountChunks, GrantedBy, Says;
    var mine, chunks := order[i], ChunksOf(contributions, order[i].id);
    var granted := GrantedBy(rows, mine.id);
    if CountChunks(chunks, counts) > granted && r in PlannedRequests(mine, chunks, granted, counts).value {
      m := mine;
      kept, cut := RequestsSay(m, chunks, granted, counts, r);
      SayingNeedsChunks(m, chunks, granted, counts, r, kept, cut);
    } else {
      m, kept, cut := RequestsFromSay(order, i + 1, contributions, rows, counts, r);
    }
  }

  lemma SayingNeedsChunks(m: ModuleDefinition, chunks: seq<Chunk>, granted: int, counts: Calibrated,
                          r: SemanticRequest, kept: seq<Chunk>, cut: seq<Chunk>)
    requires Says(m, chunks, granted, counts, r, kept, cut)
    ensures chunks != []
  {
  }

  /** Every request of a plan says what it should, for a module of the arena and its grant. */
  lemma PlansSay(d: ArenaDefinition, contributions: Contributions, inputBudget: int, counts: Calibrated,
                 r: SemanticRequest)
    requires ValidModules(d.modules)
    requires var plan := PlanSemanticRequests(d, contributions, inputBudget, counts); plan.Ok? && r in plan.value
    ensures var stage := AllocationStage(d, contributions, inputBudget, counts);
            stage.Ok? && SaysForArena(d, contributions, stage.value.rows, counts, r)
  {
    var order := Sort(d.modules, ByLayout);
    SortPermutes(d.modules, ByLayout);
    SameMembers(order, d.modules);
    var rows := AllocationStage(d, contributions, inputBudget, counts).value.rows;
    RowsHaveIds(d, contributions, inputBudget, counts);
    hide AllocationStage, RequestsFrom, Sort, Says, Grants, ValidModules;
    var m, kept, cut := RequestsFromSay(order, 0, contributions, rows, counts, r);
    GrantedByGrants(rows, m.id);
  }

  lemma RowsHaveIds(d: ArenaDefinition, contributions: Contributions, inputBudget: int, counts: Calibrated)
    requires ValidModules(d.modules)
    ensures var stage := AllocationStage(d, contributions, inputBudget, counts);
            stage.Ok? ==> forall m | m in d.modules :: exists row | row in stage.value.rows :: row.id == m.id
  {
    hide Settled, Demands, SeparatorTokens, DemandCapped, Total, BudgetFitsFloors, Sort, ValidModules;
    var stage := AllocationStage(d, contributions, inputBudget, counts);
    var sorted := Sort(d.modules, ByLayout);
    SortPermutes(d.modules, ByLayout);
    SameMembers(sorted, d.modules);
    if stage.Ok? {
      forall m | m in d.modules ensures exists row | row in stage.value.rows :: row.id == m.id {
        var i :| 0 <= i < |sorted| && sorted[i] == m;
        assert stage.value.rows[i].id == m.id && stage.value.rows[i] in stage.value.rows;
      }
    }
  }

  // ----- What an answer does -----

  /** An answer that keeps to its request: not blank, within the target, and holding every term. */
  ghost predicate KeepsTo(answer: Text, r: SemanticRequest, counts: Calibrated) {
    !AllBlank(answer) && counts.CountText(answer) <= r.id.target && forall t | t in r.id.required :: Holds(answer, t)
  }

  lemma {:induction false} CandidateOf(requests: seq<SemanticRequest>, results: SemanticResults, text: Text, task: Task,
                                       r: SemanticRequest)
    requires r in requests && r.id in results && Acceptable(results[r.id], text, task)
    ensures results[r.id] in Candidates(requests, results, text, task)
  {
    hide Acceptable;
    if r != requests[0] {
      CandidateOf(requests[1..], results, text, task, r);
    }
  }

  lemma {:induction false} CandidatesAreAnswers(requests: seq<SemanticRequest>, results: SemanticResults, text: Text,
                                                task: Task)
    ensures forall c | c in Candidates(requests, results, text, task) ::
              exists r :: r in requests && r.id in results && results[r.id] == c && Acceptable(c, text, task)
  {
    hide Acceptable;
    if requests != [] {
      CandidatesAreAnswers(requests[1..], results, text, task);
      forall c | c in Candidates(requests, results, text, task)
        ensures exists r :: r in requests && r.id in results && results[r.id] == c && Acceptable(c, text, task)
      {
        if c in Candidates(requests[1..], results, text, task) {
          var r :| r in requests[1..] && r.id in results && results[r.id] == c && Acceptable(c, text, task);
          assert r in requests;
        } else {
          assert requests[0] in requests;
        }
      }
    }
  }

  /** Acceptable, told without trimming or searching. */
  lemma AcceptableMeans(answer: Text, text: Text, task: Task)
    ensures Acceptable(answer, text, task)
            <==> && !AllBlank(answer) && task.counts.CountText(answer) <= task.counts.CountText(text)
                 && forall t | t in task.required :: Holds(answer, t)
  {
    hide Trim, AllBlank, Contains, Holds, Counter.CountText;
    TrimMeans(answer);
    if !AllBlank(answer) {
      TrimmedSaysSomething(Trim(answer), answer);
    }
    forall t | t in task.required ensures Contains(answer, t) <==> Holds(answer, t) {
      ContainsHolds(answer, t);
    }
  }

  /** Where a module's requests come from: one step, reached by the commit with the requests' own text. */
  lemma AskedAt(m: ModuleDefinition, chunks: seq<Chunk>, granted: int, counts: Calibrated,
                requests: seq<SemanticRequest>)
    returns (k: nat, t: Text)
    requires PlannedRequests(m, chunks, granted, counts) == Ok(requests) && requests != []
    ensures var task := TaskOf(m, chunks, granted, counts);
            && task.target >= 0 && Elastic(m, chunks) != []
            && Arrives(m.pipeline, 0, ElasticText(m, chunks), task, k, t)
            && IsSemantic(m.pipeline[k].algorithm) && counts.CountText(t) > task.target
            && RequestsForStep(m.pipeline[k], t, task) == Ok(requests)
            && forall r | r in requests ::
                 r.id.source == t && r.id.target == task.target && r.id.required == task.required
  {
    hide Protected, Elastic, RequiredTerms, ElasticText, SeekFrom, RunFrom, Arrives, ProvidersOf;
    var task := TaskOf(m, chunks, granted, counts);
    k, t := SeekFindsTheStep(m.pipeline, 0, ElasticText(m, chunks), task);
  }

  /**
   Any answer that keeps to one of the planned requests reclaims the module, whatever else was or
   was not answered, to an answer that counts no more.
   */
  lemma AnswerReclaims(m: ModuleDefinition, chunks: seq<Chunk>, granted: int, counts: Calibrated,
                       requests: seq<SemanticRequest>, r: SemanticRequest, results: SemanticResults)
    returns (used: SemanticRequest)
    requires PlannedRequests(m, chunks, granted, counts) == Ok(requests) && r in requests
    requires r.id in results && KeepsTo(results[r.id], r, counts)
    ensures used in requests && used.id in results
    ensures counts.CountText(results[used.id]) <= counts.CountText(results[r.id])
    ensures ReclaimedText(m, chunks, granted, results, counts) == Ok(results[used.id])
  {
    hide PlannedRequests, Protected, Elastic, RequiredTerms, ElasticText, ProvidersOf, Holds, AllBlank,
         Counter.CountText,
         Acceptable, Candidates;
    var k, t := AskedAt(m, chunks, granted, counts, requests);
    var task := TaskOf(m, chunks, granted, counts);
    AcceptableMeans(results[r.id], t, task);
    CandidateOf(requests, results, t, task, r);
    CandidatesAreAnswers(requests, results, t, task);
    var chosen := Smallest(Candidates(requests, results, t, task), counts);
    used :| used in requests && used.id in results && results[used.id] == chosen && Acceptable(chosen, t, task);
    hide RequestsForStep, StepResult, Smallest;
    assert RunFrom(m.pipeline, k + 1, chosen, task, results) == Ok(chosen);
    assert RunFrom(m.pipeline, k, t, task, results) == Ok(chosen);
    assert RunFrom(m.pipeline, 0, ElasticText(m, chunks), task, results) == Ok(chosen);
  }

  /** An answer fails its request when it is blank, longer than the text it was given, or drops a term. */
  ghost predicate Unusable(answer: Text, r: SemanticRequest, counts: Calibrated) {
    || AllBlank(answer)
    || counts.CountText(answer) > counts.CountText(r.id.source)
    || exists t | t in r.id.required :: !Holds(answer, t)
  }

  /** A module fails for want of an answer exactly when every answer it got is unusable. */
  lemma AskingFailsIff(m: ModuleDefinition, chunks: seq<Chunk>, granted: int, counts: Calibrated,
                       requests: seq<SemanticRequest>, results: SemanticResults)
    requires AtMostOneSemantic(m.pipeline)
    requires PlannedRequests(m, chunks, granted, counts) == Ok(requests) && requests != []
    ensures ReclaimedText(m, chunks, granted, results, counts) == Err(SemanticResultMissingOrInvalid)
            <==> forall r | r in requests && r.id in results :: Unusable(results[r.id], r, counts)
  {
    hide PlannedRequests, Protected, Elastic, RequiredTerms, ElasticText, ProvidersOf, Holds, AllBlank,
         Counter.CountText,
         Acceptable, Candidates, AtMostOneSemantic, NoSemanticFrom, RunFrom;
    var k, t := AskedAt(m, chunks, granted, counts, requests);
    var task := TaskOf(m, chunks, granted, counts);
    OnlyOneSemantic(m.pipeline, k);
    AgreesWithItself(requests, results);
    SemanticStepConsults(m.pipeline, k, t, task, requests, results, results);
    CandidatesAreAnswers(requests, results, t, task);
    forall r | r in requests && r.id in results
      ensures Acceptable(results[r.id], t, task) <==> !Unusable(results[r.id], r, counts)
    {
      AcceptableMeans(results[r.id], t, task);
    }
    var candidates := Candidates(requests, results, t, task);
    if candidates != [] {
      assert candidates[0] in candidates;
    } else {
      forall r | r in requests && r.id in results ensures Unusable(results[r.id], r, counts) {
        if Acceptable(results[r.id], t, task) {
          CandidateOf(requests, results, t, task, r);
        }
      }
    }
  }

  lemma AgreesWithItself(requests: seq<SemanticRequest>, results: SemanticResults)
    ensures AgreeOn(requests, results, results)
  {
  }
}
