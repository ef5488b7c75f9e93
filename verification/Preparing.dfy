/**
 One prepare, from contributions to rendered context: measure, allocate, reclaim every module
 over its allocation, render in layout order, and admit the result.
 */
module Preparing {
  import opened Basics
  import opened Texts
  import opened Counting
  import opened Layout
  import opened Leasing
  import opened Reclaim
  import opened TwoPhase
  import opened Usage

  datatype Contribution = Contribution(chunks: seq<Chunk>, observedDemand: Option<nat>)

  /** Contributions by module, as validation leaves them: known modules, each at most once. */
  type Contributions = map<ModuleId, Contribution>

  /** Chunk ids are visible, and no two of a module are the same. */
  predicate WellFormedChunks(chunks: seq<Chunk>) {
    && (forall i | 0 <= i < |chunks| :: chunks[i].id.Named? && !AllBlank(chunks[i].id.name))
    && forall i, j | 0 <= i < j < |chunks| :: chunks[i].id != chunks[j].id
  }

  predicate WellFormed(contributions: Contributions) {
    forall id | id in contributions :: WellFormedChunks(contributions[id].chunks)
  }

  /** What validation lets through: well-formed chunks, for known modules only. */
  predicate ValidContributions(d: ArenaDefinition, contributions: Contributions) {
    WellFormed(contributions) && forall id | id in contributions :: HasId(d.modules, id)
  }

  datatype PrepareError =
    | FloorsDoNotFit
    | AllocationFailed
    | ReclaimFailed(why: ReclaimError)
    | RenderedExceedsBudget
    | TokenizerFailed

  function ChunksOf(contributions: Contributions, id: ModuleId): seq<Chunk> {
    if id in contributions then contributions[id].chunks else []
  }

  /** What a module asks for: the host's observed demand if it gave one, else the count. */
  function DemandOf(contributions: Contributions, id: ModuleId, counts: Calibrated): nat {
    if id in contributions && contributions[id].observedDemand.Some? then contributions[id].observedDemand.value
    else CountChunks(ChunksOf(contributions, id), counts)
  }

  function Demands(ms: seq<ModuleDefinition>, contributions: Contributions, counts: Calibrated): Amounts {
    if ms == [] then map[]
    else Demands(ms[1..], contributions, counts)[ms[0].id := DemandOf(contributions, ms[0].id, counts)]
  }

  predicate RendersSomething(chunks: seq<Chunk>) {
    exists c | c in chunks :: Render(c.content) != []
  }

  function RenderingModules(ms: seq<ModuleDefinition>, contributions: Contributions): nat {
    if ms == [] then 0
    else
      (if RendersSomething(ChunksOf(contributions, ms[0].id)) then 1 else 0)
      + RenderingModules(ms[1..], contributions)
  }

  function Breaks(n: nat): Text {
    if n == 0 then [] else BREAK + Breaks(n - 1)
  }

  /** Tokens set aside for the separators between rendered modules. */
  function SeparatorTokens(ms: seq<ModuleDefinition>, contributions: Contributions, counts: Calibrated): nat {
    var n := RenderingModules(ms, contributions);
    if n <= 1 then 0 else counts.CountText(Breaks(n - 1))
  }

  /** The allocated tokens of a module, read off the published rows. */
  function GrantedBy(rows: seq<ModuleAllocation>, id: ModuleId): int {
    if rows == [] then 0 else if rows[0].id == id then rows[0].granted else GrantedBy(rows[1..], id)
  }

  datatype Outcome = Outcome(id: ModuleId, chunks: seq<Chunk>, before: int, used: int)

  /** A module within its allocation passes through; one over it is reclaimed. */
  function OutcomeOf(m: ModuleDefinition, chunks: seq<Chunk>, granted: int,
                     results: SemanticResults, counts: Calibrated): Result<Outcome, ReclaimError> {
    var before := CountChunks(chunks, counts);
    if before > granted then
      match ReclaimModule(m, chunks, granted, results, counts)
      case Err(e) => Err(e)
      case Ok(r) => Ok(Outcome(m.id, r.chunks, before, r.tokens))
    else Ok(Outcome(m.id, chunks, before, before))
  }

  function OutcomesFrom(order: seq<ModuleDefinition>, i: nat, contributions: Contributions,
                        rows: seq<ModuleAllocation>, results: SemanticResults, counts: Calibrated)
    : Result<seq<Outcome>, ReclaimError>
    decreases |order| - i
  {
    if i >= |order| then Ok([])
    else
      var m := order[i];
      match OutcomeOf(m, ChunksOf(contributions, m.id), GrantedBy(rows, m.id), results, counts)
      case Err(e) => Err(e)
      case Ok(o) =>
        match OutcomesFrom(order, i + 1, contributions, rows, results, counts)
        case Err(e) => Err(e)
        case Ok(rest) => Ok([o] + rest)
  }

  method ReclaimModules(order: seq<ModuleDefinition>, contributions: Contributions, rows: seq<ModuleAllocation>,
                        results: SemanticResults, counts: Calibrated)
    returns (r: Result<seq<Outcome>, ReclaimError>)
    ensures r == OutcomesFrom(order, 0, contributions, rows, results, counts)
  {
    hide ReclaimModule, CountChunks, GrantedBy, ChunksOf;
    var done: seq<Outcome> := [];
    PrefixedNil(OutcomesFrom(order, 0, contributions, rows, results, counts));
    for i := 0 to |order|
      invariant OutcomesFrom(order, 0, contributions, rows, results, counts)
                == Prefixed(done, OutcomesFrom(order, i, contributions, rows, results, counts))
    {
      var m := order[i];
      var chunks := ChunksOf(contributions, m.id);
      var granted := GrantedBy(rows, m.id);
      var before := CountChunks(chunks, counts);
      var outcome := Outcome(m.id, chunks, before, before);
      if before > granted {
        var reclaimed := CompressModule(m, chunks, granted, results, counts);
        if reclaimed.Err? {
          return Err(reclaimed.error);
        }
        outcome := Outcome(m.id, reclaimed.value.chunks, before, reclaimed.value.tokens);
      }
      PrefixedSnoc(done, outcome, OutcomesFrom(order, i + 1, contributions, rows, results, counts));
      done := done + [outcome];
    }
    assert done + [] == done;
    r := Ok(done);
  }

  function Prefixed(done: seq<Outcome>, rest: Result<seq<Outcome>, ReclaimError>): Result<seq<Outcome>, ReclaimError> {
    match rest
    case Err(e) => Err(e)
    case Ok(os) => Ok(done + os)
  }

  lemma PrefixedNil(rest: Result<seq<Outcome>, ReclaimError>)
    ensures Prefixed([], rest) == rest
  {
    if rest.Ok? {
      assert [] + rest.value == rest.value;
    }
  }

  lemma PrefixedSnoc(done: seq<Outcome>, o: Outcome, rest: Result<seq<Outcome>, ReclaimError>)
    ensures Prefixed(done + [o], rest) == Prefixed(done, Prefixed([o], rest))
  {
    if rest.Ok? {
      assert done + [o] + rest.value == done + ([o] + rest.value);
    }
  }

  function NonEmpty(parts: seq<Text>): seq<Text> {
    if parts == [] then []
    else (if parts[0] == [] then [] else [parts[0]]) + NonEmpty(parts[1..])
  }

  function RenderChunks(chunks: seq<Chunk>): Text {
    Join(NonEmpty(Rendered(chunks)), BREAK)
  }

  function ModuleTexts(outcomes: seq<Outcome>): seq<Text> {
    seq(|outcomes|, i requires 0 <= i < |outcomes| => RenderChunks(outcomes[i].chunks))
  }

  function RenderContext(outcomes: seq<Outcome>): Text {
    Join(NonEmpty(ModuleTexts(outcomes)), BREAK)
  }

  datatype Plan = Plan(allocation: Allocated, outcomes: seq<Outcome>, usage: seq<ModuleUsage>, rendered: Text,
                       promptTokens: nat, usable: int)

  /** One usage row per module, in layout order; rows and outcomes follow the same order. */
  function UsageRows(order: seq<ModuleDefinition>, rows: seq<ModuleAllocation>, outcomes: seq<Outcome>,
                     counts: Calibrated)
    : seq<ModuleUsage>
  {
    if order == [] || rows == [] || outcomes == [] then []
    else
      [UsageOf(order[0], rows[0], outcomes[0].chunks, outcomes[0].before, outcomes[0].used, counts)]
      + UsageRows(order[1..], rows[1..], outcomes[1..], counts)
  }

  function AllocationStage(d: ArenaDefinition, contributions: Contributions, inputBudget: int, counts: Calibrated)
    : Result<Allocated, PrepareError>
    requires ValidModules(d.modules)
  {
    var budget := inputBudget - SeparatorTokens(d.modules, contributions, counts);
    if !BudgetFitsFloors(d, budget) then Err(FloorsDoNotFit)
    else
      match Allocation(d, Demands(d.modules, contributions, counts), budget)
      case Err(_) => Err(AllocationFailed)
      case Ok(a) => Ok(a)
  }

  /** Rendering and the final admission check. */
  function Admit(d: ArenaDefinition, a: Allocated, outcomes: seq<Outcome>, inputBudget: int, counts: Calibrated)
    : Result<Plan, PrepareError>
  {
    var rendered := RenderContext(outcomes);
    var usable := inputBudget - d.frameworkReserve;
    if counts.CountText(rendered) > usable then Err(RenderedExceedsBudget)
    else
      var usage := UsageRows(Sort(d.modules, ByLayout), a.rows, outcomes, counts);
      Ok(Plan(a, outcomes, usage, rendered, counts.CountText(rendered), usable))
  }

  function RenderStage(d: ArenaDefinition, a: Allocated, contributions: Contributions, inputBudget: int,
                       results: SemanticResults, counts: Calibrated): Result<Plan, PrepareError> {
    match OutcomesFrom(Sort(d.modules, ByLayout), 0, contributions, a.rows, results, counts)
    case Err(e) => Err(ReclaimFailed(e))
    case Ok(outcomes) => Admit(d, a, outcomes, inputBudget, counts)
  }

  /** Everything a prepare computes before it touches the arena's state. */
  function PlanContext(d: ArenaDefinition, contributions: Contributions, inputBudget: int,
                       results: SemanticResults, counts: Calibrated): Result<Plan, PrepareError>
    requires ValidModules(d.modules)
  {
    match AllocationStage(d, contributions, inputBudget, counts)
    case Err(e) => Err(e)
    case Ok(a) => RenderStage(d, a, contributions, inputBudget, results, counts)
  }

  method AllocateContext(d: ArenaDefinition, contributions: Contributions, inputBudget: int, counts: Calibrated)
    returns (r: Result<Allocated, PrepareError>)
    requires ValidModules(d.modules)
    ensures r == AllocationStage(d, contributions, inputBudget, counts)
  {
    hide SeparatorTokens, Demands, Allocation;
    var budget := inputBudget - SeparatorTokens(d.modules, contributions, counts);
    if !BudgetFitsFloors(d, budget) {
      return Err(FloorsDoNotFit);
    }
    var allocation := AllocateBudget(d, Demands(d.modules, contributions, counts), budget);
    match allocation
    case Err(_) => r := Err(AllocationFailed);
    case Ok(a) => r := Ok(a);
  }

  method RenderAllocated(d: ArenaDefinition, a: Allocated, contributions: Contributions, inputBudget: int,
                         results: SemanticResults, counts: Calibrated) returns (r: Result<Plan, PrepareError>)
    ensures r == RenderStage(d, a, contributions, inputBudget, results, counts)
  {
    hide OutcomesFrom, RenderContext, UsageRows;
    var outcomes := ReclaimModules(Sort(d.modules, ByLayout), contributions, a.rows, results, counts);
    if outcomes.Err? {
      return Err(ReclaimFailed(outcomes.error));
    }
    var rendered := RenderContext(outcomes.value);
    var promptTokens := counts.CountText(rendered);
    var usable := inputBudget - d.frameworkReserve;
    if promptTokens > usable {
      return Err(RenderedExceedsBudget);
    }
    var usage := UsageRows(Sort(d.modules, ByLayout), a.rows, outcomes.value, counts);
    r := Ok(Plan(a, outcomes.value, usage, rendered, promptTokens, usable));
  }

  // ----- The planning half of the two-phase transaction -----

  function RequestsFrom(order: seq<ModuleDefinition>, i: nat, contributions: Contributions,
                        rows: seq<ModuleAllocation>, counts: Calibrated): Result<seq<SemanticRequest>, ReclaimError>
    decreases |order| - i
  {
    if i >= |order| then Ok([])
    else
      var m := order[i];
      var chunks := ChunksOf(contributions, m.id);
      match (if CountChunks(chunks, counts) > GrantedBy(rows, m.id)
             then PlannedRequests(m, chunks, GrantedBy(rows, m.id), counts) else Ok([]))
      case Err(e) => Err(e)
      case Ok(requests) =>
        match RequestsFrom(order, i + 1, contributions, rows, counts)
        case Err(e) => Err(e)
        case Ok(rest) => Ok(requests + rest)
  }

  function PlanSemanticRequests(d: ArenaDefinition, contributions: Contributions, inputBudget: int, counts: Calibrated)
    : Result<seq<SemanticRequest>, PrepareError>
    requires ValidModules(d.modules)
  {
    match AllocationStage(d, contributions, inputBudget, counts)
    case Err(e) => Err(e)
    case Ok(a) =>
      match RequestsFrom(Sort(d.modules, ByLayout), 0, contributions, a.rows, counts)
      case Err(e) => Err(ReclaimFailed(e))
      case Ok(requests) => Ok(requests)
  }

  method CollectRequests(order: seq<ModuleDefinition>, contributions: Contributions, rows: seq<ModuleAllocation>,
                         counts: Calibrated) returns (r: Result<seq<SemanticRequest>, ReclaimError>)
    ensures r == RequestsFrom(order, 0, contributions, rows, counts)
  {
    hide PlannedRequests, CountChunks, GrantedBy, ChunksOf;
    var requests: seq<SemanticRequest> := [];
    AppendedNil(RequestsFrom(order, 0, contributions, rows, counts));
    for i := 0 to |order|
      invariant RequestsFrom(order, 0, contributions, rows, counts)
                == Appended(requests, RequestsFrom(order, i, contributions, rows, counts))
    {
      var m := order[i];
      var chunks, granted := ChunksOf(contributions, m.id), GrantedBy(rows, m.id);
      var before := CountChunks(chunks, counts);
      if before > granted {
        var planned := CollectSemanticRequests(m, chunks, granted, counts);
        if planned.Err? {
          return Err(planned.error);
        }
        AppendedMore(requests, planned.value, RequestsFrom(order, i + 1, contributions, rows, counts));
        requests := requests + planned.value;
      } else {
        AppendedNil(RequestsFrom(order, i + 1, contributions, rows, counts));
      }
    }
    assert requests + [] == requests;
    r := Ok(requests);
  }

  function Appended(requests: seq<SemanticRequest>, rest: Result<seq<SemanticRequest>, ReclaimError>)
    : Result<seq<SemanticRequest>, ReclaimError>
  {
    match rest
    case Err(e) => Err(e)
    case Ok(more) => Ok(requests + more)
  }

  lemma AppendedNil(rest: Result<seq<SemanticRequest>, ReclaimError>)
    ensures Appended([], rest) == rest
  {
    if rest.Ok? {
      assert [] + rest.value == rest.value;
    }
  }

  lemma AppendedMore(p: seq<SemanticRequest>, q: seq<SemanticRequest>, rest: Result<seq<SemanticRequest>, ReclaimError>)
    ensures Appended(p + q, rest) == Appended(p, Appended(q, rest))
  {
    if rest.Ok? {
      assert p + q + rest.value == p + (q + rest.value);
    }
  }

  method PlanRequests(d: ArenaDefinition, contributions: Contributions, inputBudget: int, counts: Calibrated)
    returns (r: Result<seq<SemanticRequest>, PrepareError>)
    requires ValidModules(d.modules)
    ensures r == PlanSemanticRequests(d, contributions, inputBudget, counts)
  {
    hide AllocationStage, RequestsFrom;
    var a := AllocateContext(d, contributions, inputBudget, counts);
    if a.Err? {
      return Err(a.error);
    }
    var requests := CollectRequests(Sort(d.modules, ByLayout), contributions, a.value.rows, counts);
    match requests
    case Err(e) => r := Err(ReclaimFailed(e));
    case Ok(found) => r := Ok(found);
  }

  predicate AllAtMostOneSemantic(ms: seq<ModuleDefinition>) {
    forall m | m in ms :: AtMostOneSemantic(m.pipeline)
  }

  lemma OutcomeAgrees(m: ModuleDefinition, chunks: seq<Chunk>, granted: int, counts: Calibrated,
                      a: SemanticResults, b: SemanticResults)
    requires AtMostOneSemantic(m.pipeline)
    requires CountChunks(chunks, counts) > granted ==>
               var plan := PlannedRequests(m, chunks, granted, counts); plan.Ok? && AgreeOn(plan.value, a, b)
    ensures OutcomeOf(m, chunks, granted, a, counts) == OutcomeOf(m, chunks, granted, b, counts)
  {
    hide ReclaimModule, PlannedRequests, AgreeOn;
    if CountChunks(chunks, counts) > granted {
      PlanAndCommitAgree(m, chunks, granted, counts, a, b);
    }
  }

  lemma AgreeOnConcat(p: seq<SemanticRequest>, q: seq<SemanticRequest>, a: SemanticResults, b: SemanticResults)
    requires AgreeOn(p + q, a, b)
    ensures AgreeOn(p, a, b) && AgreeOn(q, a, b)
  {
    assert forall r | r in p :: r in p + q;
    assert forall r | r in q :: r in p + q;
  }

  lemma {:induction false} OutcomesAgree(order: seq<ModuleDefinition>, i: nat, contributions: Contributions,
                                         rows: seq<ModuleAllocation>, counts: Calibrated,
                                         a: SemanticResults, b: SemanticResults)
    requires AllAtMostOneSemantic(order)
    requires var plan := RequestsFrom(order, i, contributions, rows, counts); plan.Ok? && AgreeOn(plan.value, a, b)
    ensures OutcomesFrom(order, i, contributions, rows, a, counts)
            == OutcomesFrom(order, i, contributions, rows, b, counts)
    decreases |order| - i
  {
    hide AgreeOn, PlannedRequests, OutcomeOf, CountChunks, AtMostOneSemantic, ChunksOf, GrantedBy;
    if i < |order| {
      var m := order[i];
      assert m in order;
      var chunks, granted := ChunksOf(contributions, m.id), GrantedBy(rows, m.id);
      var first := if CountChunks(chunks, counts) > granted then PlannedRequests(m, chunks, granted, counts)
        else Ok([]);
      AgreeOnConcat(first.value, RequestsFrom(order, i + 1, contributions, rows, counts).value, a, b);
      OutcomeAgrees(m, chunks, granted, counts, a, b);
      OutcomesAgree(order, i + 1, contributions, rows, counts, a, b);
    }
  }

  /**
   A whole prepare depends on semantic results only through the ids its planning phase asked for.
   In particular, when planning asks for nothing, preparing with no results is preparing.
   */
  lemma PrepareDependsOnPlannedIds(d: ArenaDefinition, contributions: Contributions, inputBudget: int,
                                   counts: Calibrated, a: SemanticResults, b: SemanticResults)
    requires ValidModules(d.modules)
    requires var plan := PlanSemanticRequests(d, contributions, inputBudget, counts);
             plan.Ok? && AgreeOn(plan.value, a, b)
    ensures PlanContext(d, contributions, inputBudget, a, counts)
            == PlanContext(d, contributions, inputBudget, b, counts)
  {
    hide AllocationStage, OutcomesFrom, AgreeOn, Admit;
    var order := Sort(d.modules, ByLayout);
    SortPermutes(d.modules, ByLayout);
    SameMembers(order, d.modules);
    var stage := AllocationStage(d, contributions, inputBudget, counts);
    OutcomesAgree(order, 0, contributions, stage.value.rows, counts, a, b);
  }

  // ----- Validating the host's results -----

  datatype SemanticResult = SemanticResult(id: RequestId, content: Text)

  datatype CommitError = DuplicateResult | UnexpectedResult

  function ResultMap(results: seq<SemanticResult>): SemanticResults {
    if results == [] then map[]
    else ResultMap(results[..|results| - 1])[results[|results| - 1].id := results[|results| - 1].content]
  }

  predicate NamedBefore(results: seq<SemanticResult>, k: nat)
    requires k < |results|
  {
    exists i | 0 <= i < k :: results[i].id == results[k].id
  }

  /** The first objection to the results, if any: a repeated id is noticed before a foreign one. */
  function FirstRefusal(results: seq<SemanticResult>, k: nat, expected: seq<SemanticRequest>): Option<CommitError>
    decreases |results| - k
  {
    if k >= |results| then None
    else if NamedBefore(results, k) then Some(DuplicateResult)
    else if !AsksAbout(expected, results[k].id) then Some(UnexpectedResult)
    else FirstRefusal(results, k + 1, expected)
  }

  method CheckResults(results: seq<SemanticResult>, expected: seq<SemanticRequest>) returns (r: Option<CommitError>)
    ensures r == FirstRefusal(results, 0, expected)
  {
    var seen: set<RequestId> := {};
    for k := 0 to |results|
      invariant FirstRefusal(results, 0, expected) == FirstRefusal(results, k, expected)
      invariant forall id :: id in seen <==> exists i | 0 <= i < k :: results[i].id == id
    {
      if results[k].id in seen {
        return Some(DuplicateResult);
      }
      seen := seen + {results[k].id};
      if !AsksAbout(expected, results[k].id) {
        return Some(UnexpectedResult);
      }
    }
    r := None;
  }

  predicate RepeatedAt(results: seq<SemanticResult>, k: nat)
    requires k < |results|
  {
    exists i | 0 <= i < k :: results[i].id == results[k].id
  }

  /** The objection is to the first repeated or unplanned result, and to the repetition if it is both. */
  lemma {:induction false} RefusalIsFirst(results: seq<SemanticResult>, k: nat, expected: seq<SemanticRequest>)
    returns (at: nat)
    requires FirstRefusal(results, k, expected) != None
    ensures k <= at < |results|
    ensures forall j | k <= j < at ::
              !RepeatedAt(results, j) && exists r | r in expected :: r.id == results[j].id
    ensures if RepeatedAt(results, at) then FirstRefusal(results, k, expected) == Some(DuplicateResult)
            else && FirstRefusal(results, k, expected) == Some(UnexpectedResult)
                 && forall r | r in expected :: r.id != results[at].id
    decreases |results| - k
  {
    if NamedBefore(results, k) || !AsksAbout(expected, results[k].id) {
      at := k;
    } else {
      at := RefusalIsFirst(results, k + 1, expected);
    }
  }

  /** Results pass the check exactly when each names a planned request and none is named twice. */
  lemma {:induction false} AcceptedResults(results: seq<SemanticResult>, k: nat, expected: seq<SemanticRequest>)
    ensures FirstRefusal(results, k, expected) == None
            <==> && (forall i | k <= i < |results| :: AsksAbout(expected, results[i].id))
                 && (forall i, j | 0 <= i < j < |results| && k <= j :: results[i].id != results[j].id)
    decreases |results| - k
  {
    if k < |results| && !NamedBefore(results, k) {
      AcceptedResults(results, k + 1, expected);
    }
  }

  /** Without repeats, looking an id up in the results finds the one result that names it. */
  lemma {:induction false} ResultMapFinds(results: seq<SemanticResult>, i: nat)
    requires i < |results|
    requires forall j, k | 0 <= j < k < |results| :: results[j].id != results[k].id
    ensures results[i].id in ResultMap(results) && ResultMap(results)[results[i].id] == results[i].content
  {
    if i < |results| - 1 {
      ResultMapFinds(results[..|results| - 1], i);
    }
  }
}
