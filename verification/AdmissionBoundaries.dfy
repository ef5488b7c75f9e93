/**
 Where admission stops being safe: closed forms of the rendered count for both estimators, read
 off the contributions when nothing needs reclaiming, and the classes of contributions that are
 safe in every arena.
 */
module AdmissionBoundaries {
  import opened Basics
  import opened Texts
  import opened Counting
  import opened Layout
  import opened Leasing
  import opened Allocations
  import opened Reclaim
  import opened Preparing
  import opened Admission
  import opened CharAdmission

  // ----- The context is one join -----

  /** The texts of the chunks that render something, module by module. */
  function ChunkTexts(outcomes: seq<Outcome>): seq<Text> {
    if outcomes == [] then [] else NonEmpty(Rendered(outcomes[0].chunks)) + ChunkTexts(outcomes[1..])
  }

  predicate AllNonEmpty(parts: seq<Text>) {
    forall i | 0 <= i < |parts| :: parts[i] != []
  }

  lemma {:induction false} NonEmptyIsNonEmpty(parts: seq<Text>)
    ensures AllNonEmpty(NonEmpty(parts))
  {
    if parts != [] {
      NonEmptyIsNonEmpty(parts[1..]);
    }
  }

  lemma {:induction false} ChunkTextsNonEmpty(outcomes: seq<Outcome>)
    ensures AllNonEmpty(ChunkTexts(outcomes))
  {
    if outcomes != [] {
      NonEmptyIsNonEmpty(Rendered(outcomes[0].chunks));
      ChunkTextsNonEmpty(outcomes[1..]);
    }
  }

  lemma JoinIsEmptyIff(parts: seq<Text>)
    requires AllNonEmpty(parts)
    ensures Join(parts, BREAK) == [] <==> parts == []
  {
  }

  /** Joining the chunks of each module and then the modules is joining all the chunks. */
  lemma {:induction false} ContextIsOneJoin(outcomes: seq<Outcome>)
    ensures RenderContext(outcomes) == Join(ChunkTexts(outcomes), BREAK)
  {
    if outcomes == [] {
      assert ModuleTexts(outcomes) == [];
    } else {
      var mine, others := NonEmpty(Rendered(outcomes[0].chunks)), ChunkTexts(outcomes[1..]);
      var parts := NonEmpty(ModuleTexts(outcomes[1..]));
      var text := RenderChunks(outcomes[0].chunks);
      ContextIsOneJoin(outcomes[1..]);
      NonEmptyIsNonEmpty(Rendered(outcomes[0].chunks));
      NonEmptyIsNonEmpty(ModuleTexts(outcomes[1..]));
      ChunkTextsNonEmpty(outcomes[1..]);
      JoinIsEmptyIff(mine);
      JoinIsEmptyIff(parts);
      JoinIsEmptyIff(others);
      assert ModuleTexts(outcomes)[0] == text && ModuleTexts(outcomes)[1..] == ModuleTexts(outcomes[1..]);
      hide Join, Rendered, ModuleTexts;
      if mine == [] {
        assert mine + others == others && [] + parts == parts;
      } else if others == [] {
        JoinOfOne(text);
        assert [text] + parts == [text] && mine + others == mine;
      } else {
        JoinOfOne(text);
        JoinOfConcat([text], parts, BREAK);
        JoinOfConcat(mine, others, BREAK);
      }
    }
  }

  lemma JoinOfOne(text: Text)
    ensures Join([text], BREAK) == text
  {
  }

  // ----- The character estimator's closed form -----

  /** What joined texts cost: every part once, two units per separator, rounded up together. */
  function JoinedTokens(texts: seq<Text>): nat {
    if texts == [] then 0 else CjkTotal(texts) + (OtherTotal(texts) + 2 * (|texts| - 1) + 3) / 4
  }

  lemma CharTokensOfContext(outcomes: seq<Outcome>)
    ensures CharTokens(RenderContext(outcomes)) == JoinedTokens(ChunkTexts(outcomes))
  {
    ContextIsOneJoin(outcomes);
    if ChunkTexts(outcomes) != [] {
      CharsOfJoin(ChunkTexts(outcomes));
    }
  }

  /** Exactly when the character estimator admits a reclaimed prepare, at any calibration. */
  lemma CharAdmissionIff(d: ArenaDefinition, contributions: Contributions, inputBudget: int,
                         results: SemanticResults, counts: Calibrated, a: Allocated, outcomes: seq<Outcome>)
    requires ValidModules(d.modules) && counts.CountsCharacters()
    requires Reaches(d, contributions, inputBudget, results, counts, a, outcomes)
    ensures PlanContext(d, contributions, inputBudget, results, counts).Ok?
            <==> Scaled(JoinedTokens(ChunkTexts(outcomes)), counts.multiplier) <= inputBudget - d.frameworkReserve
    ensures PlanContext(d, contributions, inputBudget, results, counts).Err?
            ==> PlanContext(d, contributions, inputBudget, results, counts) == Err(RenderedExceedsBudget)
  {
    hide AllocationStage, OutcomesFrom, Sort, RenderContext, CharTokens, JoinedTokens, ChunkTexts;
    ReachedPlan(d, contributions, inputBudget, results, counts, a, outcomes);
    CharTokensOfContext(outcomes);
  }

  // ----- Contributions that fit as they are -----

  function CountOf(contributions: Contributions, m: ModuleDefinition, counts: Calibrated): nat {
    CountChunks(ChunksOf(contributions, m.id), counts)
  }

  /** What a module may be given: what it asks for, up to its maximum if it may borrow, else its target. */
  function AskedBy(contributions: Contributions, m: ModuleDefinition, counts: Calibrated): int {
    Min(DemandOf(contributions, m.id, counts), if m.canBorrow then m.max else m.target)
  }

  function AskedTotal(ms: seq<ModuleDefinition>, contributions: Contributions, counts: Calibrated): int {
    if ms == [] then 0 else AskedBy(contributions, ms[0], counts) + AskedTotal(ms[1..], contributions, counts)
  }

  /** Every module's content is within what it may be given, and all that is within the budget. */
  predicate FitsAsGiven(d: ArenaDefinition, contributions: Contributions, inputBudget: int, counts: Calibrated) {
    var budget := inputBudget - SeparatorTokens(d.modules, contributions, counts);
    && BudgetFitsFloors(d, budget)
    && (forall m | m in d.modules :: CountOf(contributions, m, counts) <= AskedBy(contributions, m, counts))
    && AskedTotal(d.modules, contributions, counts) <= budget - d.frameworkReserve
  }

  lemma {:induction false} DemandsFollow(ms: seq<ModuleDefinition>, contributions: Contributions, counts: Calibrated)
    requires DistinctIds(ms)
    ensures forall m | m in ms ::
              Of(Demands(ms, contributions, counts), m.id) == DemandOf(contributions, m.id, counts)
  {
    if ms != [] {
      TailIsDistinct(ms);
      DemandsFollow(ms[1..], contributions, counts);
      hide CountChunks, DemandOf;
      var rest := Demands(ms[1..], contributions, counts);
      forall m | m in ms
        ensures Of(Demands(ms, contributions, counts), m.id) == DemandOf(contributions, m.id, counts)
      {
        if m in ms[1..] {
          assert HasId(ms[1..], m.id);
          assert m.id != ms[0].id;
        }
      }
    }
  }

  lemma {:induction false} EligibleIsAsked(ms: seq<ModuleDefinition>, demands: Amounts, contributions: Contributions,
                                           counts: Calibrated)
    requires forall m | m in ms :: Eligible(m, demands) == AskedBy(contributions, m, counts)
    ensures EligibleTotal(ms, demands) == AskedTotal(ms, contributions, counts)
  {
    if ms != [] {
      assert ms[0] in ms;
      hide Eligible, AskedBy;
      EligibleIsAsked(ms[1..], demands, contributions, counts);
    }
  }

  lemma {:induction false} FullTotalsAreFull(ms: seq<ModuleDefinition>, demands: Amounts, a: Amounts,
                                             m: ModuleDefinition)
    requires forall x | x in ms :: Of(a, x.id) <= Eligible(x, demands)
    requires Total(ms, a) == EligibleTotal(ms, demands) && m in ms
    ensures Of(a, m.id) == Eligible(m, demands)
  {
    hide Eligible, Of;
    assert ms[0] in ms;
    TotalWithinEligible(ms[1..], demands, a);
    if m != ms[0] {
      FullTotalsAreFull(ms[1..], demands, a, m);
    }
  }

  /** When everyone's eligible amount is available, everyone gets it. */
  lemma EveryoneIsServed(ms: seq<ModuleDefinition>, demands: Amounts, available: int, m: ModuleDefinition)
    requires Allocatable(ms, demands, available) && EligibleTotal(ms, demands) <= available && m in ms
    ensures Of(Settled(ms, demands, available).current, m.id) == Eligible(m, demands)
  {
    hide Settled, Eligible, Of, Total, EligibleTotal, ValidModules, NonNegative, FloorsFit;
    var s := Settled(ms, demands, available);
    SettledConserves(ms, demands, available);
    forall x | x in ms ensures Of(s.current, x.id) <= Eligible(x, demands) {
      SettledReachesEligible(ms, demands, available, x);
    }
    FullTotalsAreFull(ms, demands, s.current, m);
  }

  lemma {:induction false} GrantedByRow(order: seq<ModuleDefinition>, demands: Amounts, s: Ledger,
                                        rows: seq<ModuleAllocation>, m: ModuleDefinition)
    requires DistinctIds(order) && m in order
    requires |rows| == |order| && forall i | 0 <= i < |rows| :: rows[i] == Row(order[i], demands, s)
    ensures GrantedBy(rows, m.id) == Of(s.current, m.id)
  {
    if m != order[0] {
      TailIsDistinct(order);
      assert HasId(order[1..], m.id);
      GrantedByRow(order[1..], demands, s, rows[1..], m);
    }
  }

  /** Fitting contributions are granted exactly what they ask for, up to their ceilings. */
  lemma GrantedInFull(d: ArenaDefinition, contributions: Contributions, inputBudget: int, counts: Calibrated,
                      m: ModuleDefinition)
    requires ValidModules(d.modules) && FitsAsGiven(d, contributions, inputBudget, counts) && m in d.modules
    ensures var a := AllocationStage(d, contributions, inputBudget, counts);
            a.Ok? && GrantedBy(a.value.rows, m.id) == AskedBy(contributions, m, counts)
  {
    hide SeparatorTokens, Settled, Demands, Sort, CountOf, DemandOf, DemandCapped, Total, BudgetFitsFloors;
    var ms, demands := d.modules, Demands(d.modules, contributions, counts);
    var budget := inputBudget - SeparatorTokens(ms, contributions, counts);
    var available := budget - d.frameworkReserve;
    DemandsFollow(ms, contributions, counts);
    BudgetCheckSuffices(d, demands, budget);
    forall x | x in ms ensures Eligible(x, demands) == AskedBy(contributions, x, counts) {
    }
    EligibleIsAsked(ms, demands, contributions, counts);
    EveryoneIsServed(ms, demands, available, m);
    LayoutOrder(ms);
    GrantedByRow(Sort(ms, ByLayout), demands, Settled(ms, demands, available),
                 Rows(ms, demands, Settled(ms, demands, available)), m);
  }

  function AsGiven(order: seq<ModuleDefinition>, contributions: Contributions, counts: Calibrated): seq<Outcome> {
    if order == [] then []
    else
      var n := CountOf(contributions, order[0], counts);
      [Outcome(order[0].id, ChunksOf(contributions, order[0].id), n, n)] + AsGiven(order[1..], contributions, counts)
  }

  lemma {:induction false} OutcomesAsGiven(order: seq<ModuleDefinition>, i: nat, contributions: Contributions,
                                           rows: seq<ModuleAllocation>, results: SemanticResults, counts: Calibrated)
    requires i <= |order|
    requires forall m | m in order :: GrantedBy(rows, m.id) >= CountOf(contributions, m, counts)
    ensures OutcomesFrom(order, i, contributions, rows, results, counts)
            == Ok(AsGiven(order[i..], contributions, counts))
    decreases |order| - i
  {
    hide ReclaimModule, GrantedBy, CountChunks, ChunksOf;
    if i < |order| {
      assert order[i] in order;
      assert order[i..][0] == order[i] && order[i..][1..] == order[i + 1..];
      OutcomesAsGiven(order, i + 1, contributions, rows, results, counts);
    }
  }

  lemma FitMeans(d: ArenaDefinition, contributions: Contributions, inputBudget: int, counts: Calibrated)
    requires FitsAsGiven(d, contributions, inputBudget, counts)
    ensures forall m | m in d.modules :: CountOf(contributions, m, counts) <= AskedBy(contributions, m, counts)
  {
  }

  /** Fitting contributions reach admission untouched, whatever the semantic results. */
  lemma ReachesAsGiven(d: ArenaDefinition, contributions: Contributions, inputBudget: int,
                       results: SemanticResults, counts: Calibrated)
    returns (a: Allocated)
    requires ValidModules(d.modules) && d.modules != [] && FitsAsGiven(d, contributions, inputBudget, counts)
    ensures Reaches(d, contributions, inputBudget, results, counts, a,
                    AsGiven(Sort(d.modules, ByLayout), contributions, counts))
  {
    var order := Sort(d.modules, ByLayout);
    LayoutOrder(d.modules);
    FitMeans(d, contributions, inputBudget, counts);
    hide AllocationStage, OutcomesFrom, Sort, CountOf, AskedBy, FitsAsGiven, AsGiven;
    assert d.modules[0] in d.modules;
    GrantedInFull(d, contributions, inputBudget, counts, d.modules[0]);
    a := AllocationStage(d, contributions, inputBudget, counts).value;
    forall m | m in order ensures GrantedBy(a.rows, m.id) >= CountOf(contributions, m, counts) {
      GrantedInFull(d, contributions, inputBudget, counts, m);
    }
    OutcomesAsGiven(order, 0, contributions, a.rows, results, counts);
    assert order[0..] == order;
  }

  // ----- Closed forms on the contributions -----

  function GivenTexts(order: seq<ModuleDefinition>, contributions: Contributions): seq<Text> {
    if order == [] then []
    else NonEmpty(Rendered(ChunksOf(contributions, order[0].id))) + GivenTexts(order[1..], contributions)
  }

  function GivenWords(order: seq<ModuleDefinition>, contributions: Contributions): nat {
    if order == [] then 0 else PlainWords(ChunksOf(contributions, order[0].id)) + GivenWords(order[1..], contributions)
  }

  function GivenNulls(order: seq<ModuleDefinition>, contributions: Contributions): nat {
    if order == [] then 0 else NullChunks(ChunksOf(contributions, order[0].id)) + GivenNulls(order[1..], contributions)
  }

  lemma {:induction false} AsGivenTotals(order: seq<ModuleDefinition>, contributions: Contributions, counts: Calibrated)
    ensures var outcomes := AsGiven(order, contributions, counts);
            && ChunkTexts(outcomes) == GivenTexts(order, contributions)
            && PlainTotal(outcomes) == GivenWords(order, contributions)
            && NullTotal(outcomes) == GivenNulls(order, contributions)
  {
    hide Rendered, NonEmpty, PlainWords, NullChunks, CountOf, ChunksOf;
    if order != [] {
      AsGivenTotals(order[1..], contributions, counts);
      var outcomes := AsGiven(order, contributions, counts);
      assert outcomes[0].chunks == ChunksOf(contributions, order[0].id);
      assert outcomes[1..] == AsGiven(order[1..], contributions, counts);
    }
  }

  /**
   Contributions that need no reclaiming, under the word estimator at any calibration: admitted
   exactly when their words, and one for each null chunk, fit once scaled.
   */
  lemma FittingWordsAdmittedIff(d: ArenaDefinition, contributions: Contributions, inputBudget: int,
                                results: SemanticResults, counts: Calibrated)
    requires ValidDefinition(d) && counts.CountsWords() && FitsAsGiven(d, contributions, inputBudget, counts)
    ensures var order := Sort(d.modules, ByLayout);
            var words := GivenWords(order, contributions) + GivenNulls(order, contributions);
            var plan := PlanContext(d, contributions, inputBudget, results, counts);
            && (plan.Ok? <==> Scaled(words, counts.multiplier) <= inputBudget - d.frameworkReserve)
            && (plan.Err? ==> plan == Err(RenderedExceedsBudget))
  {
    var order := Sort(d.modules, ByLayout);
    hide PlanContext, FitsAsGiven, AsGiven, Reaches, PlainTotal, NullTotal, GivenWords, GivenNulls, Sort, ValidModules;
    var a := ReachesAsGiven(d, contributions, inputBudget, results, counts);
    AsGivenTotals(order, contributions, counts);
    WordAdmissionIff(d, contributions, inputBudget, results, counts, a, AsGiven(order, contributions, counts));
    if Scaled(GivenWords(order, contributions) + GivenNulls(order, contributions), counts.multiplier)
       > inputBudget - d.frameworkReserve {
      WordsTooMany(d, contributions, inputBudget, results, counts, a, AsGiven(order, contributions, counts));
    }
  }

  /**
   The same under the character estimator: admitted exactly when all chunk texts, joined as one,
   fit once scaled. Chunks may be many, null or empty.
   */
  lemma FittingCharsAdmittedIff(d: ArenaDefinition, contributions: Contributions, inputBudget: int,
                                results: SemanticResults, counts: Calibrated)
    requires ValidDefinition(d) && counts.CountsCharacters() && FitsAsGiven(d, contributions, inputBudget, counts)
    ensures var tokens := JoinedTokens(GivenTexts(Sort(d.modules, ByLayout), contributions));
            var plan := PlanContext(d, contributions, inputBudget, results, counts);
            && (plan.Ok? <==> Scaled(tokens, counts.multiplier) <= inputBudget - d.frameworkReserve)
            && (plan.Err? ==> plan == Err(RenderedExceedsBudget))
  {
    var order := Sort(d.modules, ByLayout);
    hide PlanContext, FitsAsGiven, AsGiven, Reaches, JoinedTokens, GivenTexts, ChunkTexts, Sort, ValidModules;
    var a := ReachesAsGiven(d, contributions, inputBudget, results, counts);
    AsGivenTotals(order, contributions, counts);
    CharAdmissionIff(d, contributions, inputBudget, results, counts, a, AsGiven(order, contributions, counts));
  }

  // ----- Which contributions are safe in every arena: the word estimator -----

  /** An arena, a budget and a calibration to which the contributions are put. */
  datatype Setting = Setting(d: ArenaDefinition, inputBudget: int, results: SemanticResults, multiplier: real)

  predicate Admits(setting: Setting, contributions: Contributions, estimator: Estimator)
    requires ValidDefinition(setting.d) && setting.multiplier >= 1.0
  {
    PlanContext(setting.d, contributions, setting.inputBudget, setting.results,
                Counter(None, estimator, setting.multiplier)) != Err(RenderedExceedsBudget)
  }

  predicate Accepts(setting: Setting, contributions: Contributions) {
    ValidDefinition(setting.d) && setting.multiplier >= 1.0 && ValidContributions(setting.d, contributions)
  }

  /** No arena, budget, calibration or semantic result makes the admission check fail. */
  ghost predicate SafeEverywhere(contributions: Contributions, estimator: Estimator) {
    forall setting: Setting | Accepts(setting, contributions) :: Admits(setting, contributions, estimator)
  }

  /** A module with room for exactly the words contributed to it. */
  predicate MadeToMeasure(m: ModuleDefinition, contributions: Contributions) {
    m == SizedModule(m.id, PlainWords(ChunksOf(contributions, m.id)))
  }

  predicate AllMadeToMeasure(ms: seq<ModuleDefinition>, contributions: Contributions) {
    ms != [] && DistinctIds(ms) && forall m | m in ms :: MadeToMeasure(m, contributions)
  }

  /** One module made to measure for each id. */
  lemma {:induction false} ModulesFor(ids: set<ModuleId>, contributions: Contributions)
    returns (ms: seq<ModuleDefinition>)
    ensures DistinctIds(ms) && forall m | m in ms :: MadeToMeasure(m, contributions)
    ensures forall id :: HasId(ms, id) <==> id in ids
    decreases ids
  {
    hide PlainWords, ChunksOf;
    if ids == {} {
      ms := [];
    } else {
      SomeId(ids);
      var id :| id in ids;
      var rest := ModulesFor(ids - {id}, contributions);
      var m := SizedModule(id, PlainWords(ChunksOf(contributions, id)));
      ms := [m] + rest;
      assert !HasId(rest, id);
      ConsHasId(m, rest);
    }
  }

  lemma ConsHasId(m: ModuleDefinition, ms: seq<ModuleDefinition>)
    requires DistinctIds(ms) && !HasId(ms, m.id)
    ensures DistinctIds([m] + ms)
    ensures forall id :: HasId([m] + ms, id) <==> id == m.id || HasId(ms, id)
    ensures forall x :: x in [m] + ms <==> x == m || x in ms
  {
    var all := [m] + ms;
    assert forall k | 0 < k < |all| :: all[k] == ms[k - 1] && all[k] in ms;
    forall id ensures HasId(all, id) <==> id == m.id || HasId(ms, id) {
      if HasId(ms, id) {
        var x :| x in ms && x.id == id;
        assert x in all;
      }
      assert m in all;
    }
  }

  lemma {:induction false} NoFloors(ms: seq<ModuleDefinition>)
    requires forall m | m in ms :: m.floor == 0
    ensures FloorTotal(ms) == 0
  {
    if ms != [] {
      assert ms[0] in ms;
      NoFloors(ms[1..]);
    }
  }

  lemma {:induction false} BreaksAreBlank(n: nat)
    ensures AllBlank(Breaks(n))
  {
    if n > 0 {
      BreaksAreBlank(n - 1);
    }
  }

  lemma SeparatorsCostNoWords(ms: seq<ModuleDefinition>, contributions: Contributions, counts: Calibrated)
    requires counts.CountsWords()
    ensures SeparatorTokens(ms, contributions, counts) == 0
  {
    hide RenderingModules;
    var n := RenderingModules(ms, contributions);
    if n > 1 {
      BreaksAreBlank(n - 1);
      BlankScan(Breaks(n - 1), false);
      ScaledZero(counts.multiplier);
    }
  }

  lemma ScaledTwice(n: nat)
    ensures Scaled(n, 2.0) == 2 * n
  {
    assert n as real * 2.0 == (2 * n) as real;
  }

  /** Words count once at calibration one, twice at calibration two. */
  lemma {:induction false} CountsTimes(chunks: seq<Chunk>, counts: Calibrated)
    requires counts.CountsWords()
    ensures counts.multiplier == 1.0 ==> CountChunks(chunks, counts) == PlainWords(chunks)
    ensures counts.multiplier == 2.0 ==> CountChunks(chunks, counts) == 2 * PlainWords(chunks)
  {
    if chunks != [] {
      hide Words, Scaled;
      CountsTimes(chunks[1..], counts);
      ScaledTwice(Words(Render(chunks[0].content)));
      ScaledByOne(Words(Render(chunks[0].content)));
    }
  }

  lemma {:induction false} GivenWordsOfInsert(m: ModuleDefinition, ms: seq<ModuleDefinition>, key: Key,
                                              contributions: Contributions)
    ensures GivenWords(Insert(m, ms, key), contributions) == GivenWords([m] + ms, contributions)
  {
    hide PlainWords, ChunksOf, Before;
    assert ([m] + ms)[1..] == ms;
    if ms != [] && !Before(key, m, ms[0]) {
      GivenWordsOfInsert(m, ms[1..], key, contributions);
      assert ([m] + ms[1..])[1..] == ms[1..];
      assert Insert(m, ms, key)[1..] == Insert(m, ms[1..], key);
    }
  }

  lemma {:induction false} GivenWordsOfSort(ms: seq<ModuleDefinition>, key: Key, contributions: Contributions)
    ensures GivenWords(Sort(ms, key), contributions) == GivenWords(ms, contributions)
  {
    hide PlainWords, ChunksOf, Insert;
    if ms != [] {
      GivenWordsOfSort(ms[1..], key, contributions);
      GivenWordsOfInsert(ms[0], Sort(ms[1..], key), key, contributions);
      assert ([ms[0]] + Sort(ms[1..], key))[1..] == Sort(ms[1..], key);
    }
  }

  lemma {:induction false} NullIsSeen(chunks: seq<Chunk>)
    requires !NoNulls(chunks)
    ensures NullChunks(chunks) >= 1
  {
    if !chunks[0].content.Null? {
      assert !NoNulls(chunks[1..]);
      NullIsSeen(chunks[1..]);
    }
  }

  lemma {:induction false} NullModuleIsSeen(order: seq<ModuleDefinition>, contributions: Contributions,
                                            m: ModuleDefinition)
    requires m in order && !NoNulls(ChunksOf(contributions, m.id))
    ensures GivenNulls(order, contributions) >= 1
  {
    hide NoNulls, NullChunks, ChunksOf;
    if m == order[0] {
      NullIsSeen(ChunksOf(contributions, m.id));
    } else {
      NullModuleIsSeen(order[1..], contributions, m);
    }
  }

  lemma MeasuredArenaIsValid(ms: seq<ModuleDefinition>, contributions: Contributions)
    requires AllMadeToMeasure(ms, contributions)
    ensures ValidDefinition(ArenaDefinition(ms, 0)) && FloorTotal(ms) == 0
  {
    hide PlainWords, ChunksOf;
    NoFloors(ms);
  }

  /** The host's own measurements, where it gives any, are not below the words it contributes. */
  predicate DemandsCover(contributions: Contributions) {
    forall id | id in contributions && contributions[id].observedDemand.Some? ::
      contributions[id].observedDemand.value >= PlainWords(contributions[id].chunks)
  }

  lemma {:induction false} AskedIsWords(ms: seq<ModuleDefinition>, contributions: Contributions, counts: Calibrated)
    requires forall m | m in ms :: AskedBy(contributions, m, counts) == PlainWords(ChunksOf(contributions, m.id))
    ensures AskedTotal(ms, contributions, counts) == GivenWords(ms, contributions)
  {
    hide AskedBy, PlainWords, ChunksOf;
    if ms != [] {
      assert ms[0] in ms;
      AskedIsWords(ms[1..], contributions, counts);
    }
  }

  /** The calibration under which nulls show: one, unless there are no words at all. */
  function Telling(words: nat): Calibrated {
    Counter(None, WordEstimator, if words == 0 then 2.0 else 1.0)
  }

  lemma {:induction false} NoWordsAnywhere(ms: seq<ModuleDefinition>, contributions: Contributions)
    requires GivenWords(ms, contributions) == 0
    ensures forall m | m in ms :: PlainWords(ChunksOf(contributions, m.id)) == 0
  {
    hide PlainWords, ChunksOf;
    if ms != [] {
      NoWordsAnywhere(ms[1..], contributions);
    }
  }

  lemma MeasuredModuleFits(m: ModuleDefinition, contributions: Contributions, counts: Calibrated)
    requires MadeToMeasure(m, contributions) && DemandsCover(contributions)
    requires CountOf(contributions, m, counts) == PlainWords(ChunksOf(contributions, m.id))
    ensures AskedBy(contributions, m, counts) == CountOf(contributions, m, counts)
  {
    hide PlainWords, CountChunks;
  }

  /** An arena made to measure, with a budget of just the words, but at least one token. */
  lemma MeasuredArenaFits(ms: seq<ModuleDefinition>, contributions: Contributions)
    requires AllMadeToMeasure(ms, contributions) && DemandsCover(contributions)
    ensures var words := GivenWords(ms, contributions);
            FitsAsGiven(ArenaDefinition(ms, 0), contributions, Max(1, words), Telling(words))
  {
    var words := GivenWords(ms, contributions);
    var counts := Telling(words);
    if words == 0 {
      NoWordsAnywhere(ms, contributions);
    }
    hide CountChunks, PlainWords, GivenWords, ChunksOf, SeparatorTokens, DistinctIds, DemandsCover, AskedBy;
    forall m | m in ms
      ensures AskedBy(contributions, m, counts) == CountOf(contributions, m, counts)
              == PlainWords(ChunksOf(contributions, m.id))
    {
      CountsTimes(ChunksOf(contributions, m.id), counts);
      MeasuredModuleFits(m, contributions, counts);
    }
    AskedIsWords(ms, contributions, counts);
    SeparatorsCostNoWords(ms, contributions, counts);
    NoFloors(ms);
  }

  /** The words fill the budget, and nulls cost tokens that nobody counted. */
  lemma MeasuredArenaRefuses(ms: seq<ModuleDefinition>, contributions: Contributions, m: ModuleDefinition)
    requires AllMadeToMeasure(ms, contributions) && DemandsCover(contributions)
    requires m in ms && !NoNulls(ChunksOf(contributions, m.id))
    ensures var words := GivenWords(ms, contributions);
            && ValidDefinition(ArenaDefinition(ms, 0))
            && PlanContext(ArenaDefinition(ms, 0), contributions, Max(1, words), map[], Telling(words))
               == Err(RenderedExceedsBudget)
  {
    hide NoNulls, ChunksOf, PlanContext, Sort, GivenWords, GivenNulls, FitsAsGiven, Scaled, MadeToMeasure,
         ValidDefinition, DemandsCover;
    var words, order := GivenWords(ms, contributions), Sort(ms, ByLayout);
    MeasuredArenaIsValid(ms, contributions);
    MeasuredArenaFits(ms, contributions);
    LayoutOrder(ms);
    NullModuleIsSeen(order, contributions, m);
    GivenWordsOfSort(ms, ByLayout, contributions);
    ScaledTwice(words + GivenNulls(order, contributions));
    ScaledByOne(words + GivenNulls(order, contributions));
    FittingWordsAdmittedIff(ArenaDefinition(ms, 0), contributions, Max(1, words), map[], Telling(words));
  }

  /** Null content anywhere can be turned away. */
  lemma NullsCanBeTurnedAway(contributions: Contributions) returns (setting: Setting)
    requires WellFormed(contributions) && DemandsCover(contributions) && !NoNullContributions(contributions)
    ensures Accepts(setting, contributions) && !Admits(setting, contributions, WordEstimator)
  {
    hide NoNulls, WellFormed, PlanContext, MadeToMeasure, ValidDefinition, DemandsCover, DistinctIds, GivenWords;
    var id :| id in contributions && !NoNulls(contributions[id].chunks);
    var ms := ModulesFor(contributions.Keys, contributions);
    assert HasId(ms, id);
    var m :| m in ms && m.id == id;
    var words := GivenWords(ms, contributions);
    MeasuredArenaRefuses(ms, contributions, m);
    setting := Setting(ArenaDefinition(ms, 0), Max(1, words), map[], Telling(words).multiplier);
  }

  /**
   Under the word estimator, contributions whose observed demands, where there are any, cover their
   words are safe in every arena, at every budget and calibration, exactly when they hold no null.
   */
  lemma NullsDecideWordSafety(contributions: Contributions)
    requires WellFormed(contributions) && DemandsCover(contributions)
    ensures SafeEverywhere(contributions, WordEstimator) <==> NoNullContributions(contributions)
  {
    hide PlanContext, NoNullContributions, WellFormed, DemandsCover, ValidContributions;
    if NoNullContributions(contributions) {
      NoNullsAreSafe(contributions);
    } else {
      var setting := NullsCanBeTurnedAway(contributions);
    }
  }

  lemma NoNullsAreSafe(contributions: Contributions)
    requires NoNullContributions(contributions)
    ensures SafeEverywhere(contributions, WordEstimator)
  {
    hide PlanContext, NoNullContributions, ValidContributions;
    forall setting: Setting | Accepts(setting, contributions) ensures Admits(setting, contributions, WordEstimator) {
      WordAdmissionNeverFails(setting.d, contributions, setting.inputBudget, setting.results,
                              Counter(None, WordEstimator, setting.multiplier));
    }
  }

  predicate SameChunks(a: Contributions, b: Contributions) {
    a.Keys == b.Keys && forall id | id in a :: a[id].chunks == b[id].chunks
  }

  function WithoutDemands(contributions: Contributions): Contributions {
    map id | id in contributions :: Contribution(contributions[id].chunks, None)
  }

  /** Whatever is contributed: its chunks are safe under every observed demand exactly when none is null. */
  lemma NullsDecideAtAnyDemand(contributions: Contributions)
    requires WellFormed(contributions)
    ensures (forall other: Contributions | SameChunks(contributions, other) :: SafeEverywhere(other, WordEstimator))
            <==> NoNullContributions(contributions)
  {
    hide SafeEverywhere, WellFormedChunks, NoNulls;
    if NoNullContributions(contributions) {
      forall other: Contributions | SameChunks(contributions, other) ensures SafeEverywhere(other, WordEstimator) {
        NoNullsAreSafe(other);
      }
    } else {
      var plain := WithoutDemands(contributions);
      assert SameChunks(contributions, plain);
      NullsDecideWordSafety(plain);
    }
  }

  // ----- Which contributions are safe in every arena: the character estimator -----

  /** Every set of contributions with at most `k` chunks a module, null content only if allowed, is safe. */
  ghost predicate ClassIsSafe(k: nat, nulls: bool) {
    forall contributions: Contributions | AtMostChunks(contributions, k)
      && (nulls || NoNullContributions(contributions)) ::
      SafeEverywhere(contributions, CharEstimator)
  }

  lemma SingleChunksAreSafe(contributions: Contributions)
    requires AtMostChunks(contributions, 1) && NoNullContributions(contributions)
    ensures SafeEverywhere(contributions, CharEstimator)
  {
    hide PlanContext, NoNullContributions, AtMostChunks, ValidContributions;
    forall setting: Setting | Accepts(setting, contributions) ensures Admits(setting, contributions, CharEstimator) {
      CharAdmissionNeverFails(setting.d, contributions, setting.inputBudget, setting.results,
                              Counter(None, CharEstimator, setting.multiplier));
    }
  }

  lemma TwoChunksAreNotSafe()
    ensures AtMostChunks(QuadContributions(2), 2) && NoNullContributions(QuadContributions(2))
    ensures !SafeEverywhere(QuadContributions(2), CharEstimator)
  {
    hide PlanContext, ValidContributions, ValidDefinition, QuadContributions, QuadArena, AtMostChunks,
         NoNullContributions;
    QuadAdmissionIff(2);
    var setting := Setting(QuadArena(2), 2, map[], 1.0);
    assert Accepts(setting, QuadContributions(2)) && !Admits(setting, QuadContributions(2), CharEstimator);
  }

  lemma NullTokens()
    ensures Cjk(NULL_TEXT) == 0 && Other(NULL_TEXT) == 4
  {
    var t := NULL_TEXT;
    assert t[1..][1..][1..][1..] == [];
    assert Other(t[1..][1..][1..]) == 1;
    assert Other(t[1..][1..]) == 2;
    assert Other(t[1..]) == 3;
    assert Cjk(t[1..][1..][1..]) == 0;
    assert Cjk(t[1..][1..]) == 0;
    assert Cjk(t[1..]) == 0;
  }

  lemma OneNullRenders()
    ensures NullContent(1) == [Chunk(Named(Mark(1)), Null, false, false, {}, [])]
    ensures JoinedTokens(GivenTexts([SizedModule(0, 1)], NullContributions(0))) == 1
  {
    NullTokens();
    hide Cjk, Other, Mark;
    var c := Chunk(Named(Mark(1)), Null, false, false, {}, []);
    assert NullContent(0) == [] && [c] + [] == [c];
    var order, contributions := [SizedModule(0, 1)], NullContributions(0);
    assert order[0].id == 0 && order[1..] == [];
    assert ChunksOf(contributions, 0) == [c];
    var parts := Rendered([c]);
    assert parts == [NULL_TEXT] && parts[1..] == [];
    assert NonEmpty(parts[1..]) == [] && NonEmpty(parts) == [NULL_TEXT];
    assert GivenTexts(order[1..], contributions) == [];
    var texts := GivenTexts(order, contributions);
    assert texts == [NULL_TEXT] && texts[1..] == [];
    assert CjkTotal(texts) == Cjk(NULL_TEXT) + CjkTotal(texts[1..]);
    assert OtherTotal(texts) == Other(NULL_TEXT) + OtherTotal(texts[1..]);
  }

  lemma OneNullFits(counts: Calibrated)
    ensures FitsAsGiven(NullArena(1), NullContributions(0), 1, counts)
  {
    NullContentCounts(1, counts);
    hide NullContent;
    var d, contributions := NullArena(1), NullContributions(0);
    assert d.modules == [SizedModule(0, 1)] && d.modules[0] == SizedModule(0, 1) && d.modules[1..] == [];
    assert FloorTotal(d.modules[1..]) == 0 && FloorTotal(d.modules) == 0;
    assert RenderingModules(d.modules[1..], contributions) == 0;
    assert SeparatorTokens(d.modules, contributions, counts) == 0;
    assert ChunksOf(contributions, 0) == NullContent(1);
    assert AskedTotal(d.modules[1..], contributions, counts) == 0;
    assert AskedTotal(d.modules, contributions, counts) == 0;
  }

  lemma OneNullIsValid()
    ensures ValidDefinition(NullArena(1)) && ValidContributions(NullArena(1), NullContributions(0))
    ensures AtMostChunks(NullContributions(0), 1)
  {
    NullContentWellFormed(1);
    hide NullContent, WellFormedChunks;
    var d := NullArena(1);
    assert d.modules[0] in d.modules && HasId(d.modules, 0);
  }

  lemma OneNullIsNotSafe()
    ensures AtMostChunks(NullContributions(0), 1) && !SafeEverywhere(NullContributions(0), CharEstimator)
  {
    hide PlanContext, ValidContributions, ValidDefinition, NullContributions, AtMostChunks, FitsAsGiven, JoinedTokens,
         GivenTexts;
    var counts := Counter(None, CharEstimator, 2.0);
    OneNullIsValid();
    OneNullFits(counts);
    OneNullRenders();
    ScaledTwice(1);
    FittingCharsAdmittedIff(NullArena(1), NullContributions(0), 1, map[], counts);
    assert Sort(NullArena(1).modules, ByLayout) == [SizedModule(0, 1)] by {
      var ms := NullArena(1).modules;
      assert ms == [SizedModule(0, 1)] && ms[1..] == [];
    }
    var setting := Setting(NullArena(1), 1, map[], 2.0);
    assert Accepts(setting, NullContributions(0)) && !Admits(setting, NullContributions(0), CharEstimator);
  }

  /**
   Under the character estimator, what makes every set of contributions safe is a limit of one
   chunk per module and no null content: neither can be given up.
   */
  lemma ClassIsSafeIff(k: nat, nulls: bool)
    ensures ClassIsSafe(k, nulls) <==> k == 0 || (k == 1 && !nulls)
  {
    hide SafeEverywhere, NullContributions, QuadContributions;
    if k == 0 || (k == 1 && !nulls) {
      forall contributions: Contributions
        | AtMostChunks(contributions, k) && (nulls || NoNullContributions(contributions))
        ensures SafeEverywhere(contributions, CharEstimator)
      {
        SingleChunksAreSafe(contributions);
      }
    } else if k >= 2 {
      TwoChunksAreNotSafe();
      assert AtMostChunks(QuadContributions(2), k);
    } else {
      OneNullIsNotSafe();
    }
  }
}
