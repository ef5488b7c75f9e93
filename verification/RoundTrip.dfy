/** The two-phase round trip: a host that answers every request it was handed, each once. */
module RoundTrip {
  import opened Basics
  import opened Texts
  import opened Counting
  import opened Layout
  import opened Leasing
  import opened Reclaim
  import opened TwoPhase
  import StepOutcomes
  import opened Preparing
  import opened Allocations
  import opened Admission

  /** One result per request, in order. */
  predicate Answers(results: seq<SemanticResult>, requests: seq<SemanticRequest>) {
    |results| == |requests| && forall i | 0 <= i < |results| :: results[i].id == requests[i].id
  }

  predicate DistinctRequests(requests: seq<SemanticRequest>) {
    forall i, j | 0 <= i < j < |requests| :: requests[i].id != requests[j].id
  }

  predicate NoRepeats(names: seq<Text>) {
    forall i, j | 0 <= i < j < |names| :: names[i] != names[j]
  }

  /** The providers of a pipeline's semantic step, trimmed; none if it has no such step. */
  function AskedProviders(steps: seq<Step>): seq<Text> {
    if steps == [] then []
    else if IsSemantic(steps[0].algorithm) then ProvidersOf(steps[0])
    else AskedProviders(steps[1..])
  }

  lemma {:induction false} AskedByStep(steps: seq<Step>, k: nat)
    requires AtMostOneSemantic(steps) && k < |steps| && IsSemantic(steps[k].algorithm)
    ensures AskedProviders(steps) == ProvidersOf(steps[k])
  {
    if k > 0 {
      var rest := steps[1..];
      assert AtMostOneSemantic(rest) by {
        forall i, j | 0 <= i < j < |rest|
          ensures !(IsSemantic(rest[i].algorithm) && IsSemantic(rest[j].algorithm))
        {
          assert rest[i] == steps[i + 1] && rest[j] == steps[j + 1];
        }
      }
      AskedByStep(rest, k - 1);
    }
  }

  lemma StepRequestsDistinctIff(step: Step, source: Text, task: Task)
    ensures var requests := RequestsForStep(step, source, task);
            requests.Ok? ==>
              && requests.value != []
              && (forall i | 0 <= i < |requests.value| :: requests.value[i].id.owner == task.owner)
              && (DistinctRequests(requests.value) <==> NoRepeats(ProvidersOf(step)))
  {
    hide ProvidersOf;
    var requests, providers := RequestsForStep(step, source, task), ProvidersOf(step);
    if requests.Ok? {
      assert forall i | 0 <= i < |providers| :: requests.value[i].id.provider == providers[i];
      if NoRepeats(providers) {
        forall i, j | 0 <= i < j < |providers| ensures requests.value[i].id != requests.value[j].id {
          assert providers[i] != providers[j];
        }
      } else {
        var i, j :| 0 <= i < j < |providers| && providers[i] == providers[j];
        assert requests.value[i].id == requests.value[j].id;
      }
    }
  }

  predicate OwnedBy(requests: seq<SemanticRequest>, id: ModuleId) {
    forall i | 0 <= i < |requests| :: requests[i].id.owner == id
  }

  /** A module's planned ids are distinct exactly when its semantic step repeats no provider. */
  lemma ModuleRequestsDistinctIff(m: ModuleDefinition, chunks: seq<Chunk>, allocation: int, counts: Calibrated)
    requires AtMostOneSemantic(m.pipeline)
    ensures var plan := PlannedRequests(m, chunks, allocation, counts);
            plan.Ok? && plan.value != [] ==>
              OwnedBy(plan.value, m.id) && (DistinctRequests(plan.value) <==> NoRepeats(AskedProviders(m.pipeline)))
  {
    hide Protected, Elastic, RequiredTerms, ElasticText, CountChunks, RequestsForStep, StepResult, AtMostOneSemantic;
    var plan := PlannedRequests(m, chunks, allocation, counts);
    if plan.Ok? && plan.value != [] {
      var task := TaskOf(m, chunks, allocation, counts);
      var k, t := SeekFindsTheStep(m.pipeline, 0, ElasticText(m, chunks), task);
      StepRequestsDistinctIff(m.pipeline[k], t, task);
      AskedByStep(m.pipeline, k);
    }
  }

  predicate AsksFor(requests: seq<SemanticRequest>, id: ModuleId) {
    exists i | 0 <= i < |requests| :: requests[i].id.owner == id
  }

  /** Whoever asks has a semantic step that names each provider once. */
  predicate AskersDoNotRepeat(order: seq<ModuleDefinition>, requests: seq<SemanticRequest>) {
    forall m | m in order && AsksFor(requests, m.id) :: NoRepeats(AskedProviders(m.pipeline))
  }

  /** The requests of one module, empty if it is within its allocation. */
  function RequestsOf(m: ModuleDefinition, contributions: Contributions, rows: seq<ModuleAllocation>,
                      counts: Calibrated)
    : Result<seq<SemanticRequest>, ReclaimError>
  {
    var chunks := ChunksOf(contributions, m.id);
    if CountChunks(chunks, counts) > GrantedBy(rows, m.id) then PlannedRequests(m, chunks, GrantedBy(rows, m.id),
                                                                                counts)
    else Ok([])
  }

  lemma RequestsSplit(order: seq<ModuleDefinition>, contributions: Contributions, rows: seq<ModuleAllocation>,
                      counts: Calibrated, i: nat)
    requires i < |order| && RequestsFrom(order, i, contributions, rows, counts).Ok?
    ensures var mine, rest := RequestsOf(order[i], contributions, rows, counts),
            RequestsFrom(order, i + 1, contributions, rows, counts);
            && mine.Ok? && rest.Ok?
            && RequestsFrom(order, i, contributions, rows, counts).value == mine.value + rest.value
  {
    hide PlannedRequests, CountChunks, GrantedBy, ChunksOf;
  }

  lemma RequestsOfModule(m: ModuleDefinition, contributions: Contributions, rows: seq<ModuleAllocation>,
                         counts: Calibrated)
    requires AtMostOneSemantic(m.pipeline)
    ensures var mine := RequestsOf(m, contributions, rows, counts);
            mine.Ok? ==> OwnedBy(mine.value, m.id)
                         && (mine.value != [] ==> (DistinctRequests(mine.value)
                                                   <==> NoRepeats(AskedProviders(m.pipeline))))
  {
    hide PlannedRequests, CountChunks, GrantedBy, ChunksOf, AskedProviders, NoRepeats;
    ModuleRequestsDistinctIff(m, ChunksOf(contributions, m.id), GrantedBy(rows, m.id), counts);
  }

  /** Requests of different modules never clash. */
  lemma DistinctTogetherIff(mine: seq<SemanticRequest>, rest: seq<SemanticRequest>, id: ModuleId)
    requires OwnedBy(mine, id) && !AsksFor(rest, id)
    ensures DistinctRequests(mine + rest) <==> DistinctRequests(mine) && DistinctRequests(rest)
  {
    var all := mine + rest;
    if DistinctRequests(all) {
      forall i, j | 0 <= i < j < |mine| ensures mine[i].id != mine[j].id {
        assert all[i].id != all[j].id;
      }
      forall i, j | 0 <= i < j < |rest| ensures rest[i].id != rest[j].id {
        assert all[|mine| + i].id != all[|mine| + j].id;
      }
    }
    if DistinctRequests(mine) && DistinctRequests(rest) {
      forall i, j | 0 <= i < j < |all| ensures all[i].id != all[j].id {
        if i < |mine| <= j {
          assert all[j] == rest[j - |mine|];
        }
      }
    }
  }

  lemma AsksForConcat(mine: seq<SemanticRequest>, rest: seq<SemanticRequest>, id: ModuleId)
    ensures AsksFor(mine + rest, id) <==> AsksFor(mine, id) || AsksFor(rest, id)
  {
    var all := mine + rest;
    if AsksFor(mine, id) {
      var i :| 0 <= i < |mine| && mine[i].id.owner == id;
      assert all[i] == mine[i];
    }
    if AsksFor(rest, id) {
      var i :| 0 <= i < |rest| && rest[i].id.owner == id;
      assert all[|mine| + i] == rest[i];
    }
  }

  lemma {:induction false} PlanDistinctIff(order: seq<ModuleDefinition>, i: nat, contributions: Contributions,
                                           rows: seq<ModuleAllocation>, counts: Calibrated)
    requires i <= |order| && DistinctIds(order) && AllAtMostOneSemantic(order)
    requires RequestsFrom(order, i, contributions, rows, counts).Ok?
    ensures var requests := RequestsFrom(order, i, contributions, rows, counts).value;
            && (forall id | AsksFor(requests, id) :: exists j | i <= j < |order| :: order[j].id == id)
            && (DistinctRequests(requests) <==> AskersDoNotRepeat(order[i..], requests))
    decreases |order| - i
  {
    hide RequestsFrom, RequestsOf, DistinctRequests, AskedProviders, NoRepeats, AtMostOneSemantic;
    var requests := RequestsFrom(order, i, contributions, rows, counts).value;
    if i == |order| {
      NothingAsked(order, contributions, rows, counts);
    } else {
      var m := order[i];
      assert m in order;
      RequestsSplit(order, contributions, rows, counts, i);
      RequestsOfModule(m, contributions, rows, counts);
      PlanDistinctIff(order, i + 1, contributions, rows, counts);
      var mine := RequestsOf(m, contributions, rows, counts).value;
      var rest := RequestsFrom(order, i + 1, contributions, rows, counts).value;
      assert !AsksFor(rest, m.id);
      DistinctTogetherIff(mine, rest, m.id);
      MineAndRest(order, i, mine, rest);
      if mine == [] {
        NothingIsDistinct();
      }
      forall id | AsksFor(requests, id) ensures exists j | i <= j < |order| :: order[j].id == id {
        AsksForConcat(mine, rest, id);
        if AsksFor(mine, id) {
          assert order[i].id == id;
        }
      }
    }
  }

  lemma NothingIsDistinct()
    ensures DistinctRequests([])
  {
  }

  lemma NothingAsked(order: seq<ModuleDefinition>, contributions: Contributions, rows: seq<ModuleAllocation>,
                     counts: Calibrated)
    ensures RequestsFrom(order, |order|, contributions, rows, counts) == Ok([]) && DistinctRequests([])
  {
  }

  lemma MineAndRest(order: seq<ModuleDefinition>, i: nat, mine: seq<SemanticRequest>, rest: seq<SemanticRequest>)
    requires i < |order| && DistinctIds(order)
    requires OwnedBy(mine, order[i].id) && !AsksFor(rest, order[i].id)
    ensures AskersDoNotRepeat(order[i..], mine + rest)
            <==> (mine != [] ==> NoRepeats(AskedProviders(order[i].pipeline)))
                 && AskersDoNotRepeat(order[i + 1..], rest)
  {
    hide AskedProviders, NoRepeats;
    var m, later := order[i], order[i + 1..];
    assert order[i..] == [m] + later;
    assert AsksFor(mine, m.id) <==> mine != [] by {
      if mine != [] {
        assert mine[0].id.owner == m.id;
      }
    }
    forall x | x in order[i..] ensures AsksFor(mine + rest, x.id)
      <==> (if x == m then mine != [] else AsksFor(rest, x.id)) {
      AsksForConcat(mine, rest, x.id);
      if x != m {
        var j :| 0 <= j < |later| && later[j] == x;
        assert order[i + 1 + j] == x && x.id != m.id;
      }
    }
    assert forall x | x in later :: x in order[i..];
    assert m in order[i..];
    forall x | x in later ensures x != m {
      var j :| 0 <= j < |later| && later[j] == x;
      assert order[i + 1 + j].id != order[i].id;
    }
  }

  /**
   A host that answers everything it was asked, each request once, is accepted exactly when no
   module that asks lists one provider twice; otherwise it is refused for a duplicate it could
   not avoid.
   */
  lemma AnsweringEverything(d: ArenaDefinition, contributions: Contributions, inputBudget: int, counts: Calibrated,
                            results: seq<SemanticResult>)
    requires ValidDefinition(d)
    requires var plan := PlanSemanticRequests(d, contributions, inputBudget, counts);
             plan.Ok? && Answers(results, plan.value)
    ensures var requests := PlanSemanticRequests(d, contributions, inputBudget, counts).value;
            FirstRefusal(results, 0, requests)
            == if AskersDoNotRepeat(d.modules, requests) then None else Some(DuplicateResult)
  {
    hide *;
    WholePlanDistinctIff(d, contributions, inputBudget, counts);
    var requests := PlanSemanticRequests(d, contributions, inputBudget, counts).value;
    AnsweredRefusals(results, requests, 0);
    AnsweredIff(results, requests);
    OneOfTwo(FirstRefusal(results, 0, requests));
  }

  lemma OneOfTwo(refusal: Option<CommitError>)
    requires refusal != Some(UnexpectedResult)
    ensures refusal == None || refusal == Some(DuplicateResult)
  {
    match refusal
    case None =>
    case Some(e) => assert e == DuplicateResult || e == UnexpectedResult;
  }

  lemma LayoutOrderIsValid(d: ArenaDefinition)
    requires ValidDefinition(d)
    ensures var order := Sort(d.modules, ByLayout);
            ValidModules(d.modules) && DistinctIds(order) && AllAtMostOneSemantic(order)
            && forall m :: m in order <==> m in d.modules
  {
    LayoutOrder(d.modules);
    hide AtMostOneSemantic;
    forall m | m in Sort(d.modules, ByLayout) ensures AtMostOneSemantic(m.pipeline) {
      assert ValidModule(m);
    }
  }

  /** The ids of a whole plan are distinct exactly when no module that asks repeats a provider. */
  lemma WholePlanDistinctIff(d: ArenaDefinition, contributions: Contributions, inputBudget: int, counts: Calibrated)
    requires ValidDefinition(d)
    ensures ValidModules(d.modules)
    ensures var plan := PlanSemanticRequests(d, contributions, inputBudget, counts);
            plan.Ok? ==> (DistinctRequests(plan.value) <==> AskersDoNotRepeat(d.modules, plan.value))
  {
    hide AllocationStage, RequestsFrom, AskersDoNotRepeat, DistinctRequests, Sort, ValidModules, AllAtMostOneSemantic,
         DistinctIds, ValidDefinition;
    LayoutOrderIsValid(d);
    var order := Sort(d.modules, ByLayout);
    var plan := PlanSemanticRequests(d, contributions, inputBudget, counts);
    if plan.Ok? {
      var stage := AllocationStage(d, contributions, inputBudget, counts);
      PlanDistinctIff(order, 0, contributions, stage.value.rows, counts);
      assert order[0..] == order;
      SameAskers(order, d.modules, plan.value);
    }
  }

  lemma SameAskers(a: seq<ModuleDefinition>, b: seq<ModuleDefinition>, requests: seq<SemanticRequest>)
    requires forall m :: m in a <==> m in b
    ensures AskersDoNotRepeat(a, requests) <==> AskersDoNotRepeat(b, requests)
  {
    hide AskedProviders, NoRepeats, AsksFor;
  }

  lemma AnsweredIff(results: seq<SemanticResult>, requests: seq<SemanticRequest>)
    requires Answers(results, requests)
    ensures FirstRefusal(results, 0, requests) == None <==> DistinctRequests(requests)
  {
    AcceptedResults(results, 0, requests);
    hide FirstRefusal;
    forall i | 0 <= i < |results| ensures AsksAbout(requests, results[i].id) {
      assert requests[i] in requests;
    }
  }

  lemma {:induction false} AnsweredRefusals(results: seq<SemanticResult>, requests: seq<SemanticRequest>, k: nat)
    requires Answers(results, requests)
    ensures FirstRefusal(results, k, requests) != Some(UnexpectedResult)
    decreases |results| - k
  {
    if k < |results| {
      assert requests[k] in requests;
      assert AsksAbout(requests, results[k].id);
      AnsweredRefusals(results, requests, k + 1);
    }
  }

  // ----- A refused round trip -----

  const NAME: Text := [StepOutcomes.LETTER]

  /** A module with nothing to spend, whose portfolio lists one provider twice. */
  function Doubled(): ModuleDefinition {
    ModuleDefinition(0, 0, 0, 0, 0, 1.0, false, false, false, [Step(SemanticPortfolioV1, None, [NAME, NAME])])
  }

  function DoubledArena(): ArenaDefinition {
    ArenaDefinition([Doubled()], 0)
  }

  function NameChunk(): Chunk {
    Chunk(Named(NAME), Str(NAME), false, false, {}, [])
  }

  function DoubledContributions(): Contributions {
    map[0 := Contribution([NameChunk()], None)]
  }

  lemma NameIsOneWord()
    ensures Words(NAME) == 1 && Trim(NAME) == NAME && StepOutcomes.PLAIN.CountText(NAME) == 1
  {
    StepOutcomes.OneLetter();
    StepOutcomes.PlainCount(NAME);
  }

  lemma DoubledIsValid()
    ensures ValidDefinition(DoubledArena()) && ValidContributions(DoubledArena(), DoubledContributions())
  {
    var d := DoubledArena();
    assert d.modules == [Doubled()] && d.modules[0] == Doubled();
    assert HasId(d.modules, 0) by {
      assert Doubled() in d.modules;
    }
    assert !IsBlank(NAME[0]);
  }

  /** The module gets nothing, and so is over its allocation. */
  lemma DoubledGetsNothing() returns (a: Allocated)
    ensures ValidModules(DoubledArena().modules)
    ensures AllocationStage(DoubledArena(), DoubledContributions(), 1, StepOutcomes.PLAIN) == Ok(a)
            && GrantedBy(a.rows, 0) == 0
  {
    DoubledIsValid();
    var d, contributions := DoubledArena(), DoubledContributions();
    var demands := Demands(d.modules, contributions, StepOutcomes.PLAIN);
    assert d.modules == [Doubled()] && d.modules[0] == Doubled() && d.modules[1..] == [];
    assert FloorTotal(d.modules[1..]) == 0 && FloorTotal(d.modules) == 0;
    assert RenderingModules(d.modules[1..], contributions) == 0;
    assert SeparatorTokens(d.modules, contributions, StepOutcomes.PLAIN) == 0;
    hide Demands, Allocation, RowBalances;
    BudgetCheckSuffices(d, demands, 1);
    GrantsWithinBudget(d, contributions, 1, StepOutcomes.PLAIN);
    forall m | m in d.modules ensures Of(demands, m.id) >= 0 {
      DemandNonNegative(d.modules, contributions, StepOutcomes.PLAIN, m.id);
    }
    DoubleEntry(d, demands, 1);
    a := AllocationStage(d, contributions, 1, StepOutcomes.PLAIN).value;
    RowsAreZero(d, demands, a);
    GrantsNonNegative(a.rows, 0);
    NothingGranted(a.rows);
  }

  lemma RowsAreZero(d: ArenaDefinition, demands: Amounts, a: Allocated)
    requires d == DoubledArena() && ValidModules(d.modules) && Allocation(d, demands, 1) == Ok(a)
    requires forall r | r in a.rows :: RowBalances(r, a.leases)
    ensures forall r | r in a.rows :: r.granted <= 0
  {
    hide Settled, Rows, RowBalances, ValidModules, DemandCapped, Total;
    var s := Settled(d.modules, demands, 1);
    RowsCoverModules(d.modules, demands, s);
    forall r | r in a.rows ensures r.granted <= 0 {
      var m :| m in d.modules && r == Row(m, demands, s);
      WithinMaximum(r, a.leases);
    }
  }

  lemma WithinMaximum(r: ModuleAllocation, leases: seq<Lease>)
    requires RowBalances(r, leases)
    ensures r.granted <= r.max
  {
  }

  lemma {:induction false} NothingGranted(rows: seq<ModuleAllocation>)
    requires forall r | r in rows :: r.granted <= 0
    ensures GrantedBy(rows, 0) <= 0
  {
    if rows != [] {
      assert rows[0] in rows;
      NothingGranted(rows[1..]);
    }
  }

  lemma NameTwiceTrimmed()
    ensures TrimmedNonEmpty([NAME, NAME]) == [NAME, NAME]
  {
    hide Words, Trim, StepOutcomes.PLAIN;
    NameIsOneWord();
    var names := [NAME, NAME];
    assert names[0] == NAME && names[1..] == [NAME] && [NAME][0] == NAME && [NAME][1..] == [];
    assert TrimmedNonEmpty([NAME][1..]) == [];
    assert TrimmedNonEmpty([NAME]) == [NAME];
  }

  lemma DoubledAsksTwice() returns (requests: seq<SemanticRequest>)
    ensures RequestsForStep(Doubled().pipeline[0], NAME, TaskOf(Doubled(), [NameChunk()], 0, StepOutcomes.PLAIN))
            == Ok(requests)
    ensures |requests| == 2 && requests[0].id == requests[1].id
  {
    NameTwiceTrimmed();
    hide TaskOf, TrimmedNonEmpty;
    assert ProvidersOf(Doubled().pipeline[0]) == [NAME, NAME];
    requests := RequestsForStep(Doubled().pipeline[0], NAME,
                                TaskOf(Doubled(), [NameChunk()], 0, StepOutcomes.PLAIN)).value;
  }

  lemma DoubledModuleAsks() returns (requests: seq<SemanticRequest>)
    ensures PlannedRequests(Doubled(), [NameChunk()], 0, StepOutcomes.PLAIN) == Ok(requests)
    ensures |requests| == 2 && requests[0].id == requests[1].id
    ensures CountChunks([NameChunk()], StepOutcomes.PLAIN) == 1
  {
    hide *;
    NameIsOneWord();
    OneNameCounts();
    DoubledFacts();
    requests := DoubledAsksTwice();
    AsksAtOnce(Doubled(), [NameChunk()], 0, StepOutcomes.PLAIN, requests);
  }

  lemma DoubledFacts()
    ensures var m, chunks := Doubled(), [NameChunk()];
            && m.pipeline != [] && IsSemantic(m.pipeline[0].algorithm) && Elastic(m, chunks) != []
            && ElasticText(m, chunks) == NAME && TaskOf(m, chunks, 0, StepOutcomes.PLAIN).target == 0
  {
    hide CountChunks, Words;
    StepOutcomes.OneChunk(Doubled(), NameChunk());
    NothingCounted();
  }

  /** A pipeline that starts with a semantic step asks for exactly that step. */
  lemma AsksAtOnce(m: ModuleDefinition, chunks: seq<Chunk>, granted: int, counts: Calibrated,
                   requests: seq<SemanticRequest>)
    requires m.pipeline != [] && IsSemantic(m.pipeline[0].algorithm) && Elastic(m, chunks) != []
    requires 0 <= TaskOf(m, chunks, granted, counts).target < counts.CountText(ElasticText(m, chunks))
    requires RequestsForStep(m.pipeline[0], ElasticText(m, chunks), TaskOf(m, chunks, granted, counts)) == Ok(requests)
    ensures PlannedRequests(m, chunks, granted, counts) == Ok(requests)
  {
    hide RequestsForStep, Protected, Elastic, CountChunks, RequiredTerms, ElasticText;
  }

  lemma OneNameCounts()
    ensures CountChunks([NameChunk()], StepOutcomes.PLAIN) == 1
  {
    NameIsOneWord();
    NothingCounted();
    hide Counter.CountText, Words, Trim;
    var chunks := [NameChunk()];
    assert chunks[0] == NameChunk() && chunks[1..] == [];
  }

  lemma NothingCounted()
    ensures CountChunks([], StepOutcomes.PLAIN) == 0
  {
  }

  lemma DoubledPlan() returns (requests: seq<SemanticRequest>)
    ensures ValidDefinition(DoubledArena())
    ensures PlanSemanticRequests(DoubledArena(), DoubledContributions(), 1, StepOutcomes.PLAIN) == Ok(requests)
    ensures |requests| == 2 && requests[0].id == requests[1].id
  {
    DoubledIsValid();
    var a := DoubledGetsNothing();
    requests := DoubledModuleAsks();
    hide AllocationStage, PlannedRequests, CountChunks, GrantedBy, NameChunk, Doubled;
    var ms := DoubledArena().modules;
    var m := Doubled();
    assert ms == [m] && ms[1..] == [] && Sort(ms[1..], ByLayout) == [];
    var order := Sort(ms, ByLayout);
    assert order == [m] && order[0] == m;
    assert m.id == 0 by {
      DoubledId();
    }
    assert ChunksOf(DoubledContributions(), 0) == [NameChunk()];
    assert RequestsFrom(order, 1, DoubledContributions(), a.rows, StepOutcomes.PLAIN) == Ok([]);
    assert requests + [] == requests;
    assert RequestsFrom(order, 0, DoubledContributions(), a.rows, StepOutcomes.PLAIN) == Ok(requests);
  }

  lemma DoubledId()
    ensures Doubled().id == 0
  {
  }

  /** Two answers to two equal ids: the host did all it could, and is refused. */
  lemma RepeatedProviderIsRefused(results: seq<SemanticResult>)
    ensures ValidDefinition(DoubledArena()) && ValidContributions(DoubledArena(), DoubledContributions())
    ensures var plan := PlanSemanticRequests(DoubledArena(), DoubledContributions(), 1, StepOutcomes.PLAIN);
            && plan.Ok? && |plan.value| == 2
            && (Answers(results, plan.value) ==> FirstRefusal(results, 0, plan.value) == Some(DuplicateResult))
  {
    DoubledIsValid();
    var requests := DoubledPlan();
    hide PlanSemanticRequests, ValidDefinition, ValidContributions;
    if Answers(results, requests) {
      AnsweredIff(results, requests);
      AnsweredRefusals(results, requests, 0);
      assert !DistinctRequests(requests);
      OneOfTwo(FirstRefusal(results, 0, requests));
    }
  }
}
