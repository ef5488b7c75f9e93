/**
 What a successful prepare hands back, told in the fields of the definition, the request and the
 plan: the window it fits, the count it reports, and what became of every module's chunks.
 */
module Plans {
  import opened Basics
  import opened Texts
  import opened Counting
  import opened Layout
  import opened Leasing
  import opened Allocations
  import opened Reclaim
  import opened Usage
  import opened Preparing
  import opened HostFailures
  import opened Admission
  import opened AdmissionBoundaries
  import opened Rendering
  import opened Arenas

  // ----- Counts -----

  /**
   The number is the text's count: the host's own answer, or the built-in estimate times the
   multiplier, rounded up. The word estimate is the number of the pattern's tokens.
   */
  ghost predicate IsCount(request: Request, multiplier: real, text: Text, n: int) {
    match request.external
    case Some(count) => 0 <= n == count(text)
    case None =>
      var raw := (match request.model.estimator
                  case WordEstimator => |Tokens(text)|
                  case CharEstimator => CharTokens(text)) as real;
      (n - 1) as real < raw * multiplier <= n as real
  }

  lemma CountIsCount(request: Request, multiplier: real, text: Text)
    requires multiplier >= 1.0
    requires request.external.Some? ==> request.external.value(text) >= 0
    ensures IsCount(request, multiplier, text,
                    Counter(request.external, request.model.estimator, multiplier).CountText(text))
  {
    hide Words, Tokens, CharTokens;
    WordsCountsTokens(text);
    var counts := Counter(request.external, request.model.estimator, multiplier);
    if request.external.None? {
      CeilBounds(counts.RawCount(text) as real * multiplier);
    }
  }

  // ----- Modules -----

  /** The order in which modules are published and rendered. */
  ghost predicate IsLayout(order: seq<ModuleDefinition>, ms: seq<ModuleDefinition>) {
    && |order| == |ms| && (forall m :: m in order <==> m in ms)
    && forall i, j | 0 <= i < j < |order| ::
         order[i].order < order[j].order || (order[i].order == order[j].order && order[i].id < order[j].id)
  }

  /** The row's columns are the module's, and its demand is the host's, or what its chunks count. */
  ghost predicate Describes(row: ModuleAllocation, m: ModuleDefinition, contributions: Contributions,
                            counts: Calibrated) {
    && row.id == m.id && row.floor == m.floor && row.target == m.target && row.max == m.max
    && row.demanded == if m.id !in contributions then 0
                       else if contributions[m.id].observedDemand.Some? then contributions[m.id].observedDemand.value
                       else CountChunks(contributions[m.id].chunks, counts)
  }

  /** What became of a module's chunks: nothing if they were within the grant, else a reclaim. */
  ghost predicate Delivers(o: Outcome, m: ModuleDefinition, chunks: seq<Chunk>, granted: int, counts: Calibrated) {
    && o.id == m.id && o.before == CountChunks(chunks, counts)
    && (o.before <= granted ==> o.chunks == chunks && o.used == o.before)
    && (o.before > granted ==>
          exists kept, cut :: Accounts(m, chunks, granted, counts, Reclaimed(o.chunks, o.used), kept, cut))
  }

  lemma OutcomeDelivers(m: ModuleDefinition, chunks: seq<Chunk>, granted: int, results: SemanticResults,
                        counts: Calibrated)
    requires OutcomeOf(m, chunks, granted, results, counts).Ok?
    ensures Delivers(OutcomeOf(m, chunks, granted, results, counts).value, m, chunks, granted, counts)
  {
    hide ReclaimModule, Accounts, CountChunks;
    if CountChunks(chunks, counts) > granted {
      var kept, cut := ReclaimAccounts(m, chunks, granted, results, counts);
      var r := ReclaimModule(m, chunks, granted, results, counts).value;
      assert Reclaimed(r.chunks, r.tokens) == r;
    }
  }

  // ----- Usage rows -----

  /** Where a share of a budget stands, by tenths of the budget. */
  predicate Stands(p: Pressure, used: int, budget: int) {
    var share := used as real / Max(budget, 1) as real;
    && (p == Overflow <==> share > 1.0)
    && (p == Critical <==> 0.9 <= share <= 1.0)
    && (p == Elevated <==> 0.7 <= share < 0.9)
    && (p == Normal <==> share < 0.7)
  }

  lemma AtLeast(share: real, whole: real, level: real)
    requires whole > 0.0
    ensures share >= level <==> share * whole >= level * whole
    ensures share > level <==> share * whole > level * whole
  {
    var gap := share - level;
    assert gap * whole == share * whole - level * whole;
    SignOfProduct(gap, whole);
  }

  lemma SignOfProduct(gap: real, whole: real)
    requires whole > 0.0
    ensures gap > 0.0 <==> gap * whole > 0.0
    ensures gap >= 0.0 <==> gap * whole >= 0.0
  {
  }

  lemma AtLeastIff(a: real, whole: real, level: real)
    requires whole > 0.0
    ensures a / whole >= level <==> a >= level * whole
    ensures a / whole > level <==> a > level * whole
  {
    AtLeast(a / whole, whole, level);
    assert a / whole * whole == a;
  }

  lemma TenthsIff(used: int, whole: int, tenths: int, level: real)
    requires whole > 0 && 10.0 * level == tenths as real
    ensures used as real / whole as real >= level <==> 10 * used >= tenths * whole
  {
    var w := whole as real;
    AtLeastIff(used as real, w, level);
    assert 10.0 * (level * w) == 10.0 * level * w == tenths as real * w == (tenths * whole) as real;
    assert (10 * used) as real == 10.0 * used as real;
  }

  lemma PressureStands(used: int, budget: int)
    ensures Stands(PressureOf(used, budget), used, budget)
  {
    var whole := Max(budget, 1);
    TenthsIff(used, whole, 9, 0.9);
    TenthsIff(used, whole, 7, 0.7);
    AtLeastIff(used as real, whole as real, 1.0);
  }

  function Fixed(): Chunk -> bool {
    (c: Chunk) => c.fixed
  }

  function Pinned(m: ModuleDefinition): Chunk -> bool {
    (c: Chunk) => c.pinned || m.pinned
  }

  /** A usage row against what the module was given and left with. */
  ghost predicate Reports(u: ModuleUsage, m: ModuleDefinition, row: ModuleAllocation, o: Outcome, counts: Calibrated,
                          fixed: seq<Chunk>, pinned: seq<Chunk>) {
    && u.allocation == row && u.used == o.used
    && IsPick(fixed, o.chunks, Fixed()) && u.fixed == CountChunks(fixed, counts) && u.fixed + u.variable == u.used
    && IsPick(pinned, o.chunks, Pinned(m)) && u.pinned == CountChunks(pinned, counts)
    && u.pinned + u.elastic == u.used && u.minimumRetained == u.pinned && u.reclaimable == u.elastic
    && u.compressedFrom == o.before && u.compressedTo == o.used
    && (if o.before == 0 then u.compressionRatio == 1.0 else u.compressionRatio * o.before as real == o.used as real)
    && Stands(u.pressure, o.used, row.granted)
  }

  ghost predicate IsReported(u: ModuleUsage, m: ModuleDefinition, row: ModuleAllocation, o: Outcome,
                             counts: Calibrated) {
    exists fixed, pinned :: Reports(u, m, row, o, counts, fixed, pinned)
  }

  lemma CountOfCons(c: Chunk, rest: seq<Chunk>, counts: Calibrated)
    ensures CountChunks([c] + rest, counts) == CountContent(c.content, counts) + CountChunks(rest, counts)
  {
    assert ([c] + rest)[1..] == rest;
  }

  lemma {:induction false} ColumnsArePicks(m: ModuleDefinition, chunks: seq<Chunk>, counts: Calibrated)
    returns (fixed: seq<Chunk>, pinned: seq<Chunk>)
    ensures IsPick(fixed, chunks, Fixed()) && FixedTokens(chunks, counts) == CountChunks(fixed, counts)
    ensures IsPick(pinned, chunks, Pinned(m)) && PinnedTokens(m, chunks, counts) == CountChunks(pinned, counts)
  {
    hide CountContent, IsPick;
    if chunks == [] {
      fixed, pinned := [], [];
      NothingToPick(Fixed());
      NothingToPick(Pinned(m));
    } else {
      var c := chunks[0];
      fixed, pinned := ColumnsArePicks(m, chunks[1..], counts);
      assert chunks == [c] + chunks[1..];
      PickCons(fixed, c, chunks[1..], Fixed());
      PickCons(pinned, c, chunks[1..], Pinned(m));
      CountOfCons(c, fixed, counts);
      CountOfCons(c, pinned, counts);
      hide CountChunks;
      fixed := if c.fixed then [c] + fixed else fixed;
      pinned := if c.pinned || m.pinned then [c] + pinned else pinned;
    }
  }

  lemma UsageReports(m: ModuleDefinition, row: ModuleAllocation, o: Outcome, counts: Calibrated)
    returns (fixed: seq<Chunk>, pinned: seq<Chunk>)
    requires o.used == CountChunks(o.chunks, counts)
    ensures Reports(UsageOf(m, row, o.chunks, o.before, o.used, counts), m, row, o, counts, fixed, pinned)
  {
    fixed, pinned := ColumnsArePicks(m, o.chunks, counts);
    PartsWithinWhole(m, o.chunks, counts);
    PressureStands(o.used, row.granted);
    hide IsPick, CountChunks, FixedTokens, PinnedTokens, PressureOf, Stands;
    if o.before != 0 {
      var b := o.before as real;
      assert o.used as real / b * b == o.used as real;
    }
  }

  lemma {:induction false} UsageRowAt(order: seq<ModuleDefinition>, rows: seq<ModuleAllocation>,
                                      outcomes: seq<Outcome>, counts: Calibrated, i: nat)
    requires |order| == |rows| == |outcomes| && i < |order|
    ensures |UsageRows(order, rows, outcomes, counts)| == |order|
    ensures UsageRows(order, rows, outcomes, counts)[i]
            == UsageOf(order[i], rows[i], outcomes[i].chunks, outcomes[i].before, outcomes[i].used, counts)
    decreases order
  {
    hide UsageOf;
    if |order| > 1 {
      UsageRowAt(order[1..], rows[1..], outcomes[1..], counts, if i > 0 then i - 1 else 0);
    }
  }

  // ----- The whole plan -----

  /** The prompt, what is kept for the answer and what the arena reserves fit the model's window. */
  ghost predicate Windowed(d: ArenaDefinition, request: Request, multiplier: real, plan: Plan) {
    && plan.usable == request.model.contextLimit - request.model.reservedOutput - d.frameworkReserve
    && 0 <= plan.promptTokens
    && plan.promptTokens + request.model.reservedOutput + d.frameworkReserve <= request.model.contextLimit
    && IsCount(request, multiplier, plan.rendered, plan.promptTokens)
  }

  /** Row, outcome and usage of every module, in layout order, and the texts they render. */
  ghost predicate Accounted(order: seq<ModuleDefinition>, contributions: Contributions, counts: Calibrated,
                            plan: Plan) {
    var rows, outcomes := plan.allocation.rows, plan.outcomes;
    && |rows| == |outcomes| == |plan.usage| == |order|
    && (forall i | 0 <= i < |order| :: Describes(rows[i], order[i], contributions, counts))
    && (forall i | 0 <= i < |order| ::
          Delivers(outcomes[i], order[i], ChunksOf(contributions, order[i].id), rows[i].granted, counts))
    && (forall i | 0 <= i < |order| ::
          IsReported(plan.usage[i], order[i], rows[i], outcomes[i], counts))
    && plan.rendered == Join(ChunkTexts(outcomes), BREAK)
  }

  /** Heavier modules first; among equals the earlier in the layout, and then the smaller id. */
  predicate GoesFirst(a: ModuleDefinition, b: ModuleDefinition) {
    || a.weight > b.weight
    || (a.weight == b.weight && a.order < b.order)
    || (a.weight == b.weight && a.order == b.order && a.id < b.id)
  }

  /** The books of the leases: rows reconcile with them, and nobody borrows before those who go first are served. */
  ghost predicate LendsFairly(order: seq<ModuleDefinition>, plan: Plan) {
    var rows := plan.allocation.rows;
    && |rows| == |order| && (forall r | r in rows :: RowBalances(r, plan.allocation.leases))
    && forall i, j | 0 <= i < |order| && 0 <= j < |order| && GoesFirst(order[i], order[j])
         && order[i].canBorrow && rows[i].demanded > order[i].target && rows[j].borrowed > 0 ::
         rows[i].granted == Min(rows[i].demanded, order[i].max)
  }

  /** What no pipeline may touch is in the prompt, letter for letter. */
  ghost predicate KeepsProtected(d: ArenaDefinition, contributions: Contributions, plan: Plan) {
    forall m, c | m in d.modules && m.id in contributions && c in contributions[m.id].chunks
      && (c.fixed || c.pinned || m.pinned) :: Holds(plan.rendered, Render(c.content))
  }

  ghost predicate Speaks(m: ModuleDefinition, contributions: Contributions) {
    m.id in contributions && exists c | c in contributions[m.id].chunks :: Render(c.content) != []
  }

  /** The modules that have something to render. */
  ghost function Speaking(ms: seq<ModuleDefinition>, contributions: Contributions): set<ModuleDefinition> {
    set m | m in ms && Speaks(m, contributions)
  }

  /** What is set aside: the count of a blank line between each two modules that render something. */
  ghost predicate SetsAside(ms: seq<ModuleDefinition>, contributions: Contributions, counts: Calibrated, tokens: int) {
    var n := |Speaking(ms, contributions)|;
    if n <= 1 then tokens == 0
    else exists gap: Text :: |gap| == 2 * (n - 1) && (forall i | 0 <= i < |gap| :: gap[i] == NEWLINE)
                             && tokens == counts.CountText(gap)
  }

  /** Together the modules are granted what they ask for, or all that the separators leave. */
  ghost predicate SharesOut(d: ArenaDefinition, contributions: Contributions, counts: Calibrated, plan: Plan) {
    exists tokens: int :: SetsAside(d.modules, contributions, counts, tokens)
      && GrantedTotal(plan.allocation.rows)
         == Min(plan.usable - tokens, AskedTotal(d.modules, contributions, counts))
  }

  lemma HeadIsNew(ms: seq<ModuleDefinition>)
    requires DistinctIds(ms) && ms != []
    ensures ms[0] !in ms[1..]
  {
    assert forall k | 0 <= k < |ms| - 1 :: ms[1..][k] == ms[k + 1] && ms[k + 1].id != ms[0].id;
  }

  lemma SpeakingOfCons(ms: seq<ModuleDefinition>, contributions: Contributions)
    requires DistinctIds(ms) && ms != []
    ensures |Speaking(ms, contributions)|
            == |Speaking(ms[1..], contributions)| + (if Speaks(ms[0], contributions) then 1 else 0)
  {
    HeadIsNew(ms);
    hide Speaks;
    var m, rest := ms[0], Speaking(ms[1..], contributions);
    if Speaks(m, contributions) {
      assert Speaking(ms, contributions) == rest + {m};
    } else {
      assert Speaking(ms, contributions) == rest;
    }
  }

  lemma {:induction false} SpeakingIsCounted(ms: seq<ModuleDefinition>, contributions: Contributions)
    requires DistinctIds(ms)
    ensures RenderingModules(ms, contributions) == |Speaking(ms, contributions)|
  {
    if ms == [] {
      assert Speaking(ms, contributions) == {};
    } else {
      TailIsDistinct(ms);
      SpeakingIsCounted(ms[1..], contributions);
      SpeakingOfCons(ms, contributions);
      hide Speaking;
    }
  }

  lemma {:induction false} BreaksAreNewlines(n: nat)
    ensures |Breaks(n)| == 2 * n && forall i | 0 <= i < |Breaks(n)| :: Breaks(n)[i] == NEWLINE
  {
    if n > 0 {
      BreaksAreNewlines(n - 1);
    }
  }

  lemma SeparatorsAreSetAside(ms: seq<ModuleDefinition>, contributions: Contributions, counts: Calibrated)
    requires DistinctIds(ms)
    ensures SetsAside(ms, contributions, counts, SeparatorTokens(ms, contributions, counts))
  {
    SpeakingIsCounted(ms, contributions);
    var n := RenderingModules(ms, contributions);
    hide RenderingModules, Speaking, Counter.CountText;
    if n > 1 {
      BreaksAreNewlines(n - 1);
      var gap := Breaks(n - 1);
      assert |gap| == 2 * (n - 1);
    }
  }

  lemma StageSharesOut(d: ArenaDefinition, contributions: Contributions, inputBudget: int, counts: Calibrated,
                       a: Allocated)
    requires ValidModules(d.modules) && AllocationStage(d, contributions, inputBudget, counts) == Ok(a)
    ensures var left := inputBudget - SeparatorTokens(d.modules, contributions, counts) - d.frameworkReserve;
            GrantedTotal(a.rows) == Min(left, AskedTotal(d.modules, contributions, counts))
  {
    hide *;
    StageIsAllocation(d, contributions, inputBudget, counts, a);
    var ms, demands := d.modules, Demands(d.modules, contributions, counts);
    WorkConservation(d, demands, inputBudget - SeparatorTokens(ms, contributions, counts));
    EligibleIsAskedTotal(d, contributions, counts);
  }

  lemma EligibleIsAskedTotal(d: ArenaDefinition, contributions: Contributions, counts: Calibrated)
    requires ValidModules(d.modules)
    ensures EligibleTotal(d.modules, Demands(d.modules, contributions, counts))
            == AskedTotal(d.modules, contributions, counts)
  {
    ModulesAreDistinct(d.modules);
    var ms, demands := d.modules, Demands(d.modules, contributions, counts);
    DemandsFollow(ms, contributions, counts);
    hide Demands, DemandOf, EligibleTotal, AskedTotal, ValidModules, DistinctIds;
    forall m | m in ms ensures Eligible(m, demands) == AskedBy(contributions, m, counts) {
    }
    EligibleIsAsked(ms, demands, contributions, counts);
  }

  lemma PlanSharesOut(d: ArenaDefinition, contributions: Contributions, inputBudget: int,
                      results: SemanticResults, counts: Calibrated, plan: Plan)
    requires ValidModules(d.modules) && PlanContext(d, contributions, inputBudget, results, counts) == Ok(plan)
    ensures SharesOut(d, contributions, counts, plan)
  {
    ModulesAreDistinct(d.modules);
    hide PlanContext, AllocationStage, SeparatorTokens, ValidModules, SetsAside, DistinctIds, GrantedTotal, AskedTotal,
         OutcomesFrom, UsageRows, RenderContext, Sort, Counter.CountText;
    SeparatorsAreSetAside(d.modules, contributions, counts);
    PlanParts(d, contributions, inputBudget, results, counts, plan);
    PlanIsAdmitted(d, contributions, inputBudget, results, counts, plan);
    StageSharesOut(d, contributions, inputBudget, counts, plan.allocation);
  }

  /** Everything a successful prepare promises about the plan it hands back. */
  ghost predicate Promised(d: ArenaDefinition, request: Request, multiplier: real, plan: Plan) {
    && multiplier >= 1.0 && Windowed(d, request, multiplier, plan)
    && (exists order :: IsLayout(order, d.modules) && LendsFairly(order, plan)
          && Accounted(order, request.contributions,
                       Counter(request.external, request.model.estimator, multiplier), plan))
    && KeepsProtected(d, request.contributions, plan)
    && SharesOut(d, request.contributions, Counter(request.external, request.model.estimator, multiplier), plan)
  }

  lemma LayoutIsLayout(ms: seq<ModuleDefinition>)
    requires DistinctIds(ms)
    ensures IsLayout(Sort(ms, ByLayout), ms) && DistinctIds(Sort(ms, ByLayout))
  {
    LayoutOrder(ms);
    SortSorts(ms, ByLayout);
    SortPermutes(ms, ByLayout);
    SameMembers(Sort(ms, ByLayout), ms);
    var order := Sort(ms, ByLayout);
    assert forall i, j | 0 <= i < j < |order| :: Before(ByLayout, order[i], order[j]);
  }

  lemma {:induction false} GrantedAt(order: seq<ModuleDefinition>, rows: seq<ModuleAllocation>, i: nat)
    requires DistinctIds(order) && |rows| == |order| && i < |order|
    requires forall j | 0 <= j < |rows| :: rows[j].id == order[j].id
    ensures GrantedBy(rows, order[i].id) == rows[i].granted
  {
    if i > 0 {
      TailIsDistinct(order);
      assert order[0].id != order[i].id;
      GrantedAt(order[1..], rows[1..], i - 1);
    }
  }

  lemma {:induction false} OutcomeAt(order: seq<ModuleDefinition>, i: nat, contributions: Contributions,
                                     rows: seq<ModuleAllocation>, results: SemanticResults, counts: Calibrated, k: nat)
    requires i <= k < |order| && OutcomesFrom(order, i, contributions, rows, results, counts).Ok?
    ensures var outcomes := OutcomesFrom(order, i, contributions, rows, results, counts).value;
            var m := order[k];
            && |outcomes| == |order| - i
            && OutcomeOf(m, ChunksOf(contributions, m.id), GrantedBy(rows, m.id), results, counts)
               == Ok(outcomes[k - i])
    decreases |order| - i
  {
    hide OutcomeOf, GrantedBy, ChunksOf;
    OneOutcomeEach(order, i, contributions, rows, results, counts);
    if i < k {
      OutcomeAt(order, i + 1, contributions, rows, results, counts, k);
    }
  }

  lemma RowsDescribe(d: ArenaDefinition, contributions: Contributions, inputBudget: int, counts: Calibrated)
    requires ValidModules(d.modules)
    ensures var stage, order := AllocationStage(d, contributions, inputBudget, counts), Sort(d.modules, ByLayout);
            stage.Ok? ==>
              && |stage.value.rows| == |order|
              && forall i | 0 <= i < |order| :: Describes(stage.value.rows[i], order[i], contributions, counts)
  {
    hide Settled, Demands, SeparatorTokens, DemandCapped, Total, BudgetFitsFloors, Sort, CountChunks;
    DemandsFollow(d.modules, contributions, counts);
    LayoutIsLayout(d.modules);
    var stage, order := AllocationStage(d, contributions, inputBudget, counts), Sort(d.modules, ByLayout);
    if stage.Ok? {
      forall i | 0 <= i < |order| ensures Describes(stage.value.rows[i], order[i], contributions, counts) {
        assert order[i] in order;
        NothingContributed(contributions, order[i].id, counts);
      }
    }
  }

  lemma NothingContributed(contributions: Contributions, id: ModuleId, counts: Calibrated)
    ensures id !in contributions ==> DemandOf(contributions, id, counts) == 0
  {
  }

  lemma ModuleIsAccounted(order: seq<ModuleDefinition>, contributions: Contributions, rows: seq<ModuleAllocation>,
                          results: SemanticResults, counts: Calibrated, outcomes: seq<Outcome>, i: nat)
    requires DistinctIds(order) && |rows| == |order| && i < |order|
    requires forall j | 0 <= j < |rows| :: rows[j].id == order[j].id
    requires OutcomesFrom(order, 0, contributions, rows, results, counts) == Ok(outcomes)
    ensures |outcomes| == |UsageRows(order, rows, outcomes, counts)| == |order|
    ensures Delivers(outcomes[i], order[i], ChunksOf(contributions, order[i].id), rows[i].granted, counts)
    ensures IsReported(UsageRows(order, rows, outcomes, counts)[i], order[i], rows[i], outcomes[i], counts)
  {
    hide OutcomesFrom, OutcomeOf, Delivers, Reports, UsageOf, UsageRows, GrantedBy, ChunksOf, DistinctIds;
    var m := order[i];
    GrantedAt(order, rows, i);
    OutcomeAt(order, 0, contributions, rows, results, counts, i);
    OutcomeDelivers(m, ChunksOf(contributions, m.id), rows[i].granted, results, counts);
    OutcomeSpends(m, ChunksOf(contributions, m.id), rows[i].granted, results, counts);
    UsageRowsCover(order, rows, outcomes, counts);
    UsageRowAt(order, rows, outcomes, counts, i);
    var fixed, pinned := UsageReports(m, rows[i], outcomes[i], counts);
  }

  lemma PlanParts(d: ArenaDefinition, contributions: Contributions, inputBudget: int,
                  results: SemanticResults, counts: Calibrated, plan: Plan)
    requires ValidModules(d.modules) && PlanContext(d, contributions, inputBudget, results, counts) == Ok(plan)
    ensures AllocationStage(d, contributions, inputBudget, counts) == Ok(plan.allocation)
    ensures var order, rows := Sort(d.modules, ByLayout), plan.allocation.rows;
            && OutcomesFrom(order, 0, contributions, rows, results, counts) == Ok(plan.outcomes)
            && plan.usage == UsageRows(order, rows, plan.outcomes, counts)
            && plan.rendered == RenderContext(plan.outcomes)
  {
    hide AllocationStage, OutcomesFrom, RenderContext, UsageRows, Sort;
  }

  lemma PlanIsAccounted(d: ArenaDefinition, contributions: Contributions, inputBudget: int,
                        results: SemanticResults, counts: Calibrated, plan: Plan)
    requires ValidModules(d.modules) && PlanContext(d, contributions, inputBudget, results, counts) == Ok(plan)
    ensures Accounted(Sort(d.modules, ByLayout), contributions, counts, plan)
  {
    hide PlanContext, AllocationStage, OutcomesFrom, RenderContext, UsageRows, Sort, Delivers, IsReported, Join,
         ChunkTexts,
         ValidModules, DistinctIds, IsLayout, ChunksOf;
    PlanParts(d, contributions, inputBudget, results, counts, plan);
    RowsDescribe(d, contributions, inputBudget, counts);
    ModulesAreDistinct(d.modules);
    LayoutIsLayout(d.modules);
    ContextIsOneJoin(plan.outcomes);
    var order, rows := Sort(d.modules, ByLayout), plan.allocation.rows;
    RowsFollowOrder(order, rows, contributions, counts);
    OneOutcomeEach(order, 0, contributions, rows, results, counts);
    UsageRowsCover(order, rows, plan.outcomes, counts);
    hide Describes;
    forall i | 0 <= i < |order|
      ensures Delivers(plan.outcomes[i], order[i], ChunksOf(contributions, order[i].id), rows[i].granted, counts)
      ensures IsReported(plan.usage[i], order[i], rows[i], plan.outcomes[i], counts)
    {
      ModuleIsAccounted(order, contributions, rows, results, counts, plan.outcomes, i);
    }
  }

  lemma ModulesAreDistinct(ms: seq<ModuleDefinition>)
    requires ValidModules(ms)
    ensures DistinctIds(ms)
  {
  }

  lemma RowsFollowOrder(order: seq<ModuleDefinition>, rows: seq<ModuleAllocation>, contributions: Contributions,
                        counts: Calibrated)
    requires |rows| == |order|
    requires forall i | 0 <= i < |order| :: Describes(rows[i], order[i], contributions, counts)
    ensures forall i | 0 <= i < |order| :: rows[i].id == order[i].id
  {
    hide CountChunks;
  }

  lemma {:induction false} UsageRowsCover(order: seq<ModuleDefinition>, rows: seq<ModuleAllocation>,
                                          outcomes: seq<Outcome>, counts: Calibrated)
    requires |order| == |rows| == |outcomes|
    ensures |UsageRows(order, rows, outcomes, counts)| == |order|
  {
    if order != [] {
      UsageRowAt(order, rows, outcomes, counts, 0);
    }
  }

  lemma FirstIsServed(d: ArenaDefinition, demands: Amounts, inputBudget: int, out: Allocated,
                      a: ModuleDefinition, b: ModuleDefinition, mine: ModuleAllocation, theirs: ModuleAllocation)
    requires ValidModules(d.modules) && NonNegative(d.modules, demands) && a in d.modules && b in d.modules
    requires a.canBorrow && Of(demands, a.id) > a.target && GoesFirst(a, b)
    requires Allocation(d, demands, inputBudget) == Ok(out) && mine in out.rows && theirs in out.rows
    requires mine.id == a.id && theirs.id == b.id && theirs.borrowed > 0
    ensures mine.granted == Min(Of(demands, a.id), a.max)
  {
    hide Allocation, ValidModules, NonNegative;
    RowsArePrioritised(d, demands, inputBudget, a, b);
    assert Borrows(out.rows, b.id);
  }

  lemma StageLendsFairly(d: ArenaDefinition, contributions: Contributions, inputBudget: int, counts: Calibrated,
                         a: Allocated, i: nat, j: nat)
    requires ValidModules(d.modules) && AllocationStage(d, contributions, inputBudget, counts) == Ok(a)
    requires var order := Sort(d.modules, ByLayout);
             && |a.rows| == |order| && i < |order| && j < |order| && GoesFirst(order[i], order[j])
             && order[i].canBorrow && a.rows[i].demanded > order[i].target && a.rows[j].borrowed > 0
             && a.rows[i].id == order[i].id && a.rows[j].id == order[j].id
             && a.rows[i].demanded == DemandOf(contributions, order[i].id, counts)
    ensures a.rows[i].granted == Min(a.rows[i].demanded, Sort(d.modules, ByLayout)[i].max)
  {
    hide *;
    ModulesAreDistinct(d.modules);
    var order, demands := Sort(d.modules, ByLayout), Demands(d.modules, contributions, counts);
    LayoutOrder(d.modules);
    assert order[i] in order && order[j] in order;
    StageIsAllocation(d, contributions, inputBudget, counts, a);
    DemandsFollow(d.modules, contributions, counts);
    FirstIsServed(d, demands, inputBudget - SeparatorTokens(d.modules, contributions, counts), a, order[i], order[j],
                  a.rows[i], a.rows[j]);
  }

  lemma StageIsAllocation(d: ArenaDefinition, contributions: Contributions, inputBudget: int, counts: Calibrated,
                          a: Allocated)
    requires ValidModules(d.modules) && AllocationStage(d, contributions, inputBudget, counts) == Ok(a)
    ensures var demands := Demands(d.modules, contributions, counts);
            && NonNegative(d.modules, demands)
            && Allocation(d, demands, inputBudget - SeparatorTokens(d.modules, contributions, counts)) == Ok(a)
  {
    hide Demands, Allocation, SeparatorTokens, BudgetFitsFloors, ValidModules;
    forall m | m in d.modules ensures Of(Demands(d.modules, contributions, counts), m.id) >= 0 {
      DemandNonNegative(d.modules, contributions, counts, m.id);
    }
  }

  lemma StageBalances(d: ArenaDefinition, contributions: Contributions, inputBudget: int, counts: Calibrated,
                      a: Allocated)
    requires ValidModules(d.modules) && AllocationStage(d, contributions, inputBudget, counts) == Ok(a)
    ensures forall r | r in a.rows :: RowBalances(r, a.leases)
  {
    hide *;
    StageIsAllocation(d, contributions, inputBudget, counts, a);
    DoubleEntry(d, Demands(d.modules, contributions, counts),
                inputBudget - SeparatorTokens(d.modules, contributions, counts));
  }

  lemma PlanLendsFairly(d: ArenaDefinition, contributions: Contributions, inputBudget: int,
                        results: SemanticResults, counts: Calibrated, plan: Plan)
    requires ValidModules(d.modules) && PlanContext(d, contributions, inputBudget, results, counts) == Ok(plan)
    ensures LendsFairly(Sort(d.modules, ByLayout), plan)
  {
    hide PlanContext, AllocationStage, ValidModules, RowBalances, GoesFirst, OutcomesFrom, UsageRows, RenderContext,
         Sort;
    PlanParts(d, contributions, inputBudget, results, counts, plan);
    StageBalances(d, contributions, inputBudget, counts, plan.allocation);
    RowsDescribe(d, contributions, inputBudget, counts);
    var order, rows := Sort(d.modules, ByLayout), plan.allocation.rows;
    RowsFollowOrder(order, rows, contributions, counts);
    forall i, j | 0 <= i < |order| && 0 <= j < |order| && GoesFirst(order[i], order[j])
      && order[i].canBorrow && rows[i].demanded > order[i].target && rows[j].borrowed > 0
      ensures rows[i].granted == Min(rows[i].demanded, order[i].max)
    {
      DescribesDemand(rows[i], order[i], contributions, counts);
      StageLendsFairly(d, contributions, inputBudget, counts, plan.allocation, i, j);
    }
  }

  lemma DescribesDemand(row: ModuleAllocation, m: ModuleDefinition, contributions: Contributions, counts: Calibrated)
    requires Describes(row, m, contributions, counts)
    ensures row.demanded == DemandOf(contributions, m.id, counts)
  {
  }

  lemma PlanKeepsProtected(d: ArenaDefinition, contributions: Contributions, inputBudget: int,
                           results: SemanticResults, counts: Calibrated, plan: Plan)
    requires ValidModules(d.modules) && PlanContext(d, contributions, inputBudget, results, counts) == Ok(plan)
    ensures KeepsProtected(d, contributions, plan)
  {
    hide PlanContext, Holds;
    forall m, c | m in d.modules && m.id in contributions && c in contributions[m.id].chunks
      && (c.fixed || c.pinned || m.pinned)
      ensures Holds(plan.rendered, Render(c.content))
    {
      ProtectedContentIsRendered(d, contributions, inputBudget, results, counts, m, c);
    }
  }

  lemma PlanIsAdmitted(d: ArenaDefinition, contributions: Contributions, inputBudget: int,
                       results: SemanticResults, counts: Calibrated, plan: Plan)
    requires ValidModules(d.modules) && PlanContext(d, contributions, inputBudget, results, counts) == Ok(plan)
    ensures plan.promptTokens == counts.CountText(plan.rendered) <= plan.usable == inputBudget - d.frameworkReserve
  {
    hide AllocationStage, OutcomesFrom, RenderContext, UsageRows;
  }

  /** Whatever the answer rests on, a successful answer keeps every promise. */
  lemma AnswersKeepPromises(d: ArenaDefinition, request: Request, results: SemanticResults, multiplier: real,
                            plan: Plan)
    requires ValidDefinition(d) && multiplier >= 1.0 && Answer(d, request, results, multiplier) == Ok(plan)
    ensures Promised(d, request, multiplier, plan)
  {
    hide PlanContext, Answer, Accounted, LendsFairly, KeepsProtected, SharesOut, IsCount, IsLayout, ValidDefinition,
         ValidModules,
         DistinctIds,
         Counter.CountText, Sort;
    var counts := Counter(request.external, request.model.estimator, multiplier);
    var budget := request.model.contextLimit - request.model.reservedOutput;
    AnswerIsPlan(d, request, results, multiplier, plan);
    PlanIsAccounted(d, request.contributions, budget, results, counts, plan);
    PlanLendsFairly(d, request.contributions, budget, results, counts, plan);
    ModulesAreDistinct(d.modules);
    LayoutIsLayout(d.modules);
    PlanKeepsProtected(d, request.contributions, budget, results, counts, plan);
    PlanSharesOut(d, request.contributions, budget, results, counts, plan);
    PlanIsAdmitted(d, request.contributions, budget, results, counts, plan);
    CountIsCount(request, multiplier, plan.rendered);
  }

  lemma AnswerIsPlan(d: ArenaDefinition, request: Request, results: SemanticResults, multiplier: real, plan: Plan)
    requires ValidDefinition(d) && multiplier >= 1.0 && Answer(d, request, results, multiplier) == Ok(plan)
    ensures ValidModules(d.modules)
    ensures PlanContext(d, request.contributions, request.model.contextLimit - request.model.reservedOutput, results,
                        Counter(request.external, request.model.estimator, multiplier)) == Ok(plan)
    ensures request.external.Some? ==> request.external.value(plan.rendered) >= 0
  {
    hide PlanContext, MeasuringFails, OutcomesFail;
  }

  // ----- What stops a prepare before it allocates -----

  lemma SetAsideIsUnique(ms: seq<ModuleDefinition>, contributions: Contributions, counts: Calibrated, tokens: int)
    requires DistinctIds(ms) && SetsAside(ms, contributions, counts, tokens)
    ensures tokens == SeparatorTokens(ms, contributions, counts)
  {
    SpeakingIsCounted(ms, contributions);
    var n := RenderingModules(ms, contributions);
    hide RenderingModules, Speaking, Counter.CountText;
    if n > 1 {
      BreaksAreNewlines(n - 1);
      var gap: Text :| |gap| == 2 * (n - 1) && (forall i | 0 <= i < |gap| :: gap[i] == NEWLINE)
                       && tokens == counts.CountText(gap);
      assert gap == Breaks(n - 1);
    }
  }

  lemma StageRefuses(d: ArenaDefinition, contributions: Contributions, inputBudget: int, counts: Calibrated)
    requires ValidModules(d.modules)
    ensures var stage := AllocationStage(d, contributions, inputBudget, counts);
            if BudgetFitsFloors(d, inputBudget - SeparatorTokens(d.modules, contributions, counts)) then stage.Ok?
            else stage == Err(FloorsDoNotFit)
  {
    hide SeparatorTokens, Demands, Allocation, FloorTotal, FloorsFit, ValidModule;
    var budget := inputBudget - SeparatorTokens(d.modules, contributions, counts);
    if BudgetFitsFloors(d, budget) {
      BudgetCheckSuffices(d, Demands(d.modules, contributions, counts), budget);
    }
  }

  lemma LaterRefusalsDiffer(d: ArenaDefinition, contributions: Contributions, inputBudget: int,
                            results: SemanticResults, counts: Calibrated)
    requires ValidModules(d.modules)
    ensures var stage := AllocationStage(d, contributions, inputBudget, counts);
            var plan := PlanContext(d, contributions, inputBudget, results, counts);
            if stage.Err? then plan == Err(stage.error)
            else plan.Ok? || plan.error.ReclaimFailed? || plan.error == RenderedExceedsBudget
  {
    hide AllocationStage, OutcomesFrom, RenderContext, UsageRows, Counter.CountText;
  }

  /**
   An exact profile without a tokenizer is turned away; otherwise floors that do not fit the window,
   less the separators, are; and the allocator itself never refuses.
   */
  lemma RefusalsMean(d: ArenaDefinition, request: Request, results: SemanticResults, multiplier: real, tokens: int)
    requires ValidDefinition(d) && multiplier >= 1.0
    requires SetsAside(d.modules, request.contributions,
                       Counter(request.external, request.model.estimator, multiplier), tokens)
    ensures var left := request.model.contextLimit - request.model.reservedOutput - d.frameworkReserve - tokens;
            var answer := Answer(d, request, results, multiplier);
            && (answer == Err(TokenizerUnavailable) <==> request.model.exact && request.external.None?)
            && (answer == Err(Failed(FloorsDoNotFit))
                <==> (request.model.exact ==> request.external.Some?) && (left <= 0 || FloorTotal(d.modules) > left))
            && answer != Err(Failed(AllocationFailed))
  {
    var counts := CounterFor(request, multiplier);
    ModulesAreDistinct(d.modules);
    SetAsideIsUnique(d.modules, request.contributions, counts, tokens);
    hide SeparatorTokens, PlanContext, AllocationStage, PrepareFails, SetsAside, FloorTotal, ValidModules, DistinctIds;
    StageRefuses(d, request.contributions, InputBudget(request), counts);
    LaterRefusalsDiffer(d, request.contributions, InputBudget(request), results, counts);
  }
}
