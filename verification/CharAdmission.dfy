/**
 Admission under the character estimator, where separators cost tokens and only those between
 modules are reserved: safe with at most one chunk per module, and not beyond.
 */
module CharAdmission {
  import opened Basics
  import opened Texts
  import opened Counting
  import opened Layout
  import opened Leasing
  import opened Allocations
  import opened Reclaim
  import opened Preparing
  import opened Admission

  // ----- Joining under the character estimator -----

  function CjkTotal(parts: seq<Text>): nat {
    if parts == [] then 0 else Cjk(parts[0]) + CjkTotal(parts[1..])
  }

  function OtherTotal(parts: seq<Text>): nat {
    if parts == [] then 0 else Other(parts[0]) + OtherTotal(parts[1..])
  }

  function CharTotal(parts: seq<Text>): nat {
    if parts == [] then 0 else CharTokens(parts[0]) + CharTotal(parts[1..])
  }

  lemma BreakChars()
    ensures Cjk(BREAK) == 0 && Other(BREAK) == 2
  {
    assert BREAK[1..] == [NEWLINE] && [NEWLINE][1..] == [];
    assert Cjk([NEWLINE]) == 0 && Other([NEWLINE]) == 1;
  }

  lemma {:induction false} CharsOfJoin(parts: seq<Text>)
    requires parts != []
    ensures Cjk(Join(parts, BREAK)) == CjkTotal(parts)
    ensures Other(Join(parts, BREAK)) == OtherTotal(parts) + 2 * (|parts| - 1)
  {
    if |parts| == 1 {
      assert parts[1..] == [];
    } else {
      BreakChars();
      CharsOfJoin(parts[1..]);
      CharsOfConcat(parts[0], BREAK);
      CharsOfConcat(parts[0] + BREAK, Join(parts[1..], BREAK));
    }
  }

  lemma {:induction false} CharsOfBreaks(n: nat)
    ensures Cjk(Breaks(n)) == 0 && Other(Breaks(n)) == 2 * n
  {
    if n > 0 {
      BreakChars();
      CharsOfBreaks(n - 1);
      CharsOfConcat(BREAK, Breaks(n - 1));
    }
  }

  lemma QuartersSubadditive(a: nat, b: nat)
    ensures (a + b + 3) / 4 <= (a + 3) / 4 + (b + 3) / 4
  {
  }

  lemma {:induction false} RoundingOnceIsLess(parts: seq<Text>)
    ensures CjkTotal(parts) + (OtherTotal(parts) + 3) / 4 <= CharTotal(parts)
  {
    if parts != [] {
      RoundingOnceIsLess(parts[1..]);
      QuartersSubadditive(Other(parts[0]), OtherTotal(parts[1..]));
    }
  }

  /** Joined texts cost at most their own tokens and the tokens of the separators taken together. */
  lemma CharTokensOfJoin(parts: seq<Text>)
    requires parts != []
    ensures CharTokens(Join(parts, BREAK)) <= CharTotal(parts) + CharTokens(Breaks(|parts| - 1))
  {
    CharsOfJoin(parts);
    CharsOfBreaks(|parts| - 1);
    RoundingOnceIsLess(parts);
    QuartersSubadditive(OtherTotal(parts), 2 * (|parts| - 1));
  }

  function CountTotal(parts: seq<Text>, counts: Calibrated): nat {
    if parts == [] then 0 else counts.CountText(parts[0]) + CountTotal(parts[1..], counts)
  }

  lemma {:induction false} ScaledCharTotal(parts: seq<Text>, counts: Calibrated)
    requires counts.CountsCharacters()
    ensures Scaled(CharTotal(parts), counts.multiplier) <= CountTotal(parts, counts)
  {
    hide Scaled, CharTokens;
    if parts == [] {
      ScaledZero(counts.multiplier);
    } else {
      ScaledCharTotal(parts[1..], counts);
      ScaledSubadditive(CharTokens(parts[0]), CharTotal(parts[1..]), counts.multiplier);
    }
  }

  lemma CountOfJoin(parts: seq<Text>, counts: Calibrated)
    requires counts.CountsCharacters() && parts != []
    ensures counts.CountText(Join(parts, BREAK)) <= CountTotal(parts, counts) + counts.CountText(Breaks(|parts| - 1))
  {
    hide Scaled, CharTokens, Join, Breaks, CharTotal;
    var m := counts.multiplier;
    CharTokensOfJoin(parts);
    ScaledMonotone(CharTokens(Join(parts, BREAK)), CharTotal(parts) + CharTokens(Breaks(|parts| - 1)), m);
    ScaledSubadditive(CharTotal(parts), CharTokens(Breaks(|parts| - 1)), m);
    ScaledCharTotal(parts, counts);
  }

  lemma {:induction false} BreaksGrow(j: nat, k: nat)
    requires j <= k
    ensures Breaks(j) <= Breaks(k)
  {
    if j > 0 {
      BreaksGrow(j - 1, k - 1);
    }
  }

  lemma CountOfBreaks(j: nat, k: nat, counts: Calibrated)
    requires counts.external.None? && j <= k
    ensures counts.CountText(Breaks(j)) <= counts.CountText(Breaks(k))
  {
    BreaksGrow(j, k);
    CountOfPrefix(Breaks(j), Breaks(k), counts);
  }

  // ----- One chunk per module -----

  predicate SingleChunks(outcomes: seq<Outcome>) {
    forall o | o in outcomes :: |o.chunks| <= 1
  }

  predicate AtMostChunks(contributions: Contributions, k: nat) {
    forall id | id in contributions :: |contributions[id].chunks| <= k
  }

  lemma SingleChunkCount(chunks: seq<Chunk>, counts: Calibrated)
    requires |chunks| <= 1 && NoNulls(chunks) && counts.external.None?
    ensures counts.CountText(RenderChunks(chunks)) == CountChunks(chunks, counts)
    ensures RenderChunks(chunks) != [] <==> RendersSomething(chunks)
  {
    CountOfEmpty(counts);
    if chunks != [] {
      var c := chunks[0];
      assert c in chunks && chunks == [c] && chunks[1..] == [];
      var parts := Rendered(chunks);
      assert parts == [Render(c.content)] && parts[1..] == [];
      assert NonEmpty(parts[1..]) == [];
    } else {
      assert Rendered(chunks) == [];
    }
  }

  function RenderedCount(outcomes: seq<Outcome>): nat {
    if outcomes == [] then 0
    else (if RendersSomething(outcomes[0].chunks) then 1 else 0) + RenderedCount(outcomes[1..])
  }

  /** With one chunk each, the module texts count what the modules used. */
  lemma {:induction false} ModuleTextsCount(outcomes: seq<Outcome>, counts: Calibrated)
    requires counts.external.None? && SingleChunks(outcomes) && NoNullOutcomes(outcomes) && AllSpend(outcomes, counts)
    ensures CountTotal(NonEmpty(ModuleTexts(outcomes)), counts) == UsedTotal(outcomes)
    ensures |NonEmpty(ModuleTexts(outcomes))| == RenderedCount(outcomes)
  {
    hide CountChunks, RenderChunks, RendersSomething, NoNulls;
    if outcomes != [] {
      var o := outcomes[0];
      assert o in outcomes;
      ModuleTextsCount(outcomes[1..], counts);
      SingleChunkCount(o.chunks, counts);
      CountOfEmpty(counts);
      var parts := ModuleTexts(outcomes);
      assert parts[0] == RenderChunks(o.chunks) && parts[1..] == ModuleTexts(outcomes[1..]);
      var rest := NonEmpty(parts[1..]);
      assert [] + rest == rest && ([parts[0]] + rest)[1..] == rest;
    }
  }

  lemma {:induction false} OutcomesStaySingle(order: seq<ModuleDefinition>, i: nat, contributions: Contributions,
                                              rows: seq<ModuleAllocation>, results: SemanticResults, counts: Calibrated)
    requires AtMostChunks(contributions, 1)
    ensures var os := OutcomesFrom(order, i, contributions, rows, results, counts);
            os.Ok? ==> SingleChunks(os.value)
    decreases |order| - i
  {
    hide OutcomeOf, GrantedBy;
    if i < |order| {
      var m := order[i];
      OutcomeShape(m, ChunksOf(contributions, m.id), GrantedBy(rows, m.id), results, counts);
      OutcomesStaySingle(order, i + 1, contributions, rows, results, counts);
    }
  }

  function RenderingFrom(order: seq<ModuleDefinition>, i: nat, contributions: Contributions): nat
    decreases |order| - i
  {
    if i >= |order| then 0
    else (if RendersSomething(ChunksOf(contributions, order[i].id)) then 1 else 0)
         + RenderingFrom(order, i + 1, contributions)
  }

  /** Reclaim never makes a silent module speak: no more modules render than separators reserve. */
  lemma {:induction false} RenderedWithinReserved(order: seq<ModuleDefinition>, i: nat, contributions: Contributions,
                                                  rows: seq<ModuleAllocation>, results: SemanticResults,
                                                  counts: Calibrated)
    requires counts.external.None? && forall m | m in order :: GrantedBy(rows, m.id) >= 0
    ensures var os := OutcomesFrom(order, i, contributions, rows, results, counts);
            os.Ok? ==> RenderedCount(os.value) <= RenderingFrom(order, i, contributions)
    decreases |order| - i
  {
    hide OutcomeOf, GrantedBy, RendersSomething, ChunksOf, AtMostOneSemantic;
    if i < |order| {
      var m := order[i];
      assert m in order;
      var chunks, granted := ChunksOf(contributions, m.id), GrantedBy(rows, m.id);
      if !RendersSomething(chunks) {
        BlankModuleStaysBlank(m, chunks, granted, results, counts);
      }
      RenderedWithinReserved(order, i + 1, contributions, rows, results, counts);
      var o := OutcomeOf(m, chunks, granted, results, counts);
      var rest := OutcomesFrom(order, i + 1, contributions, rows, results, counts);
      if o.Ok? && rest.Ok? {
        assert ([o.value] + rest.value)[1..] == rest.value;
      }
    }
  }

  lemma {:induction false} RenderingFromIs(order: seq<ModuleDefinition>, i: nat, contributions: Contributions)
    requires i <= |order|
    ensures RenderingFrom(order, i, contributions) == RenderingModules(order[i..], contributions)
    decreases |order| - i
  {
    if i < |order| {
      RenderingFromIs(order, i + 1, contributions);
      assert order[i..][1..] == order[i + 1..];
    }
  }

  lemma {:induction false} RenderingOfInsert(m: ModuleDefinition, ms: seq<ModuleDefinition>, key: Key,
                                             contributions: Contributions)
    ensures RenderingModules(Insert(m, ms, key), contributions) == RenderingModules([m] + ms, contributions)
  {
    hide RendersSomething;
    assert ([m] + ms)[1..] == ms;
    if ms != [] && !Before(key, m, ms[0]) {
      RenderingOfInsert(m, ms[1..], key, contributions);
      assert ([m] + ms[1..])[1..] == ms[1..];
      assert Insert(m, ms, key)[1..] == Insert(m, ms[1..], key);
    }
  }

  lemma {:induction false} RenderingOfSort(ms: seq<ModuleDefinition>, key: Key, contributions: Contributions)
    ensures RenderingModules(Sort(ms, key), contributions) == RenderingModules(ms, contributions)
  {
    hide RendersSomething, Insert;
    if ms != [] {
      RenderingOfSort(ms[1..], key, contributions);
      RenderingOfInsert(ms[0], Sort(ms[1..], key), key, contributions);
      assert ([ms[0]] + Sort(ms[1..], key))[1..] == Sort(ms[1..], key);
    }
  }

  /** The separators of what is rendered are covered by the separators reserved. */
  lemma SeparatorsCovered(d: ArenaDefinition, contributions: Contributions, inputBudget: int,
                          results: SemanticResults, counts: Calibrated, a: Allocated, outcomes: seq<Outcome>)
    requires ValidModules(d.modules) && counts.external.None?
    requires Reaches(d, contributions, inputBudget, results, counts, a, outcomes)
    requires RenderedCount(outcomes) >= 1
    ensures counts.CountText(Breaks(RenderedCount(outcomes) - 1)) <= SeparatorTokens(d.modules, contributions, counts)
  {
    hide AllocationStage, OutcomesFrom, RenderedCount, Sort, Breaks, RenderingModules, RenderingFrom;
    var order := Sort(d.modules, ByLayout);
    GrantsWithinBudget(d, contributions, inputBudget, counts);
    forall m | m in order ensures GrantedBy(a.rows, m.id) >= 0 {
      GrantsNonNegative(a.rows, m.id);
    }
    RenderedWithinReserved(order, 0, contributions, a.rows, results, counts);
    RenderingFromIs(order, 0, contributions);
    assert order[0..] == order;
    RenderingOfSort(d.modules, ByLayout, contributions);
    var n := RenderingModules(d.modules, contributions);
    CountOfBreaks(RenderedCount(outcomes) - 1, n - 1, counts);
    if n == 1 {
      NoBreaks(counts);
    }
  }

  lemma NoBreaks(counts: Calibrated)
    requires counts.external.None?
    ensures counts.CountText(Breaks(0)) == 0
  {
    CountOfEmpty(counts);
  }

  lemma ContextWithinBudget(d: ArenaDefinition, contributions: Contributions, inputBudget: int,
                            results: SemanticResults, counts: Calibrated, a: Allocated, outcomes: seq<Outcome>)
    requires ValidModules(d.modules) && counts.CountsCharacters()
    requires NoNullContributions(contributions) && AtMostChunks(contributions, 1)
    requires Reaches(d, contributions, inputBudget, results, counts, a, outcomes)
    ensures counts.CountText(RenderContext(outcomes)) <= inputBudget - d.frameworkReserve
  {
    hide AllocationStage, OutcomesFrom, AllSpend, NoNullOutcomes, SingleChunks, SeparatorTokens, Sort, Breaks,
         UsedTotal,
         RenderedCount, ModuleTexts, NonEmpty, CountTotal;
    var order := Sort(d.modules, ByLayout);
    UsedWithinUsable(d, contributions, inputBudget, results, counts, a, outcomes);
    OutcomesHaveNoNulls(order, 0, contributions, a.rows, results, counts);
    OutcomesStaySingle(order, 0, contributions, a.rows, results, counts);
    ModuleTextsCount(outcomes, counts);
    var parts := NonEmpty(ModuleTexts(outcomes));
    if parts == [] {
      CountOfEmpty(counts);
      EmptyTotal(counts);
    } else {
      CountOfJoin(parts, counts);
      SeparatorsCovered(d, contributions, inputBudget, results, counts, a, outcomes);
    }
  }

  lemma EmptyTotal(counts: Calibrated)
    ensures CountTotal([], counts) == 0
  {
  }

  /**
   With the character estimator, at any calibration, no null content and at most one chunk per
   module, the admission error cannot occur either: the reserved separators are enough.
   */
  lemma CharAdmissionNeverFails(d: ArenaDefinition, contributions: Contributions, inputBudget: int,
                                results: SemanticResults, counts: Calibrated)
    requires ValidModules(d.modules) && counts.CountsCharacters()
    requires NoNullContributions(contributions) && AtMostChunks(contributions, 1)
    ensures PlanContext(d, contributions, inputBudget, results, counts) != Err(RenderedExceedsBudget)
  {
    AllocationStageErrors(d, contributions, inputBudget, counts);
    hide AllocationStage, OutcomesFrom, Sort, RenderContext, NoNullContributions, AtMostChunks;
    var a := AllocationStage(d, contributions, inputBudget, counts);
    if a.Ok? {
      var outcomes := OutcomesFrom(Sort(d.modules, ByLayout), 0, contributions, a.value.rows, results, counts);
      if outcomes.Ok? {
        ContextWithinBudget(d, contributions, inputBudget, results, counts, a.value, outcomes.value);
      }
    }
  }

  // ----- More than one chunk -----

  const QUAD: Text := [Letter(0x61, WordChar), Letter(0x61, WordChar), Letter(0x61, WordChar), Letter(0x61, WordChar)]

  function QuadChunks(k: nat): seq<Chunk> {
    if k == 0 then [] else [Chunk(Named(Mark(k)), Str(QUAD), false, false, {}, [])] + QuadChunks(k - 1)
  }

  lemma {:induction false} QuadChunksWellFormed(k: nat)
    ensures |QuadChunks(k)| == k && forall i | 0 <= i < k :: QuadChunks(k)[i].id == Named(Mark(k - i))
    ensures WellFormedChunks(QuadChunks(k))
  {
    if k > 0 {
      QuadChunksWellFormed(k - 1);
      var chunks := QuadChunks(k);
      forall i | 0 <= i < k ensures chunks[i].id == Named(Mark(k - i)) && !AllBlank(chunks[i].id.name) {
        assert i > 0 ==> chunks[i] == QuadChunks(k - 1)[i - 1];
        MarkIsVisible(k - i);
      }
      forall i, j | 0 <= i < j < k ensures chunks[i].id != chunks[j].id {
        assert |chunks[i].id.name| == k - i && |chunks[j].id.name| == k - j;
      }
    }
  }

  lemma QuadIsOneToken()
    ensures Cjk(QUAD) == 0 && Other(QUAD) == 4
  {
    assert QUAD[1..][1..][1..][1..] == [];
    assert Other(QUAD[1..][1..][1..]) == 1;
    assert Other(QUAD[1..][1..]) == 2;
    assert Other(QUAD[1..]) == 3;
    assert Cjk(QUAD[1..][1..][1..]) == 0;
    assert Cjk(QUAD[1..][1..]) == 0;
    assert Cjk(QUAD[1..]) == 0;
  }

  lemma {:induction false} QuadChunksCost(k: nat)
    ensures CountChunks(QuadChunks(k), Counter(None, CharEstimator, 1.0)) == k && |QuadChunks(k)| == k
    ensures var parts := Rendered(QuadChunks(k));
            NonEmpty(parts) == parts && CjkTotal(parts) == 0 && OtherTotal(parts) == 4 * k
    ensures NoNulls(QuadChunks(k))
  {
    if k > 0 {
      QuadChunksCost(k - 1);
      QuadIsOneToken();
      ScaledByOne(1);
      var chunks := QuadChunks(k);
      assert chunks[1..] == QuadChunks(k - 1);
      assert Rendered(chunks)[1..] == Rendered(chunks[1..]);
      assert CountContent(chunks[0].content, Counter(None, CharEstimator, 1.0)) == 1;
    }
  }

  function QuadArena(k: nat): ArenaDefinition {
    ArenaDefinition([SizedModule(0, k)], 0)
  }

  function QuadContributions(k: nat): Contributions {
    map[0 := Contribution(QuadChunks(k), None)]
  }

  lemma QuadArenaIsValid(k: nat)
    ensures ValidContributions(QuadArena(k), QuadContributions(k))
  {
    QuadChunksWellFormed(k);
    hide QuadChunks, WellFormedChunks;
    var d := QuadArena(k);
    assert d.modules[0] in d.modules && HasId(d.modules, 0);
  }

  lemma QuadArenaGrants(k: nat)
    requires k > 0
    ensures ValidDefinition(QuadArena(k))
    ensures var a := AllocationStage(QuadArena(k), QuadContributions(k), k, Counter(None, CharEstimator, 1.0));
            a.Ok? && GrantedBy(a.value.rows, 0) == k
  {
    hide Settled, QuadChunks, DemandCapped;
    var d, contributions, counts := QuadArena(k), QuadContributions(k), Counter(None, CharEstimator, 1.0);
    QuadChunksCost(k);
    assert d.modules == [SizedModule(0, k)] && d.modules[1..] == [];
    assert FloorTotal(d.modules) == 0;
    assert RenderingModules(d.modules, contributions) <= 1;
    var demands := Demands(d.modules, contributions, counts);
    assert Of(demands, 0) == k;
    BudgetCheckSuffices(d, demands, k);
    WorkConservation(d, demands, k);
    assert EligibleTotal(d.modules, demands) == k;
    RowsWithinBudget(d, demands, k);
    var rows := Allocation(d, demands, k).value.rows;
    assert Sort(d.modules, ByLayout) == [SizedModule(0, k)];
    assert |rows| == 1 && rows[1..] == [];
    assert GrantedTotal(rows) == rows[0].granted;
  }

  lemma QuadModulePasses(k: nat, rows: seq<ModuleAllocation>)
    requires GrantedBy(rows, 0) == k
    ensures OutcomesFrom([SizedModule(0, k)], 0, QuadContributions(k), rows, map[], Counter(None, CharEstimator, 1.0))
            == Ok([Outcome(0, QuadChunks(k), k, k)])
  {
    hide QuadChunks, GrantedBy, ReclaimModule;
    var order, contributions, counts := [SizedModule(0, k)], QuadContributions(k), Counter(None, CharEstimator, 1.0);
    QuadChunksCost(k);
    assert ChunksOf(contributions, 0) == QuadChunks(k);
    assert OutcomesFrom(order, 1, contributions, rows, map[], counts) == Ok([]);
    var o := Outcome(0, QuadChunks(k), k, k);
    assert OutcomeOf(order[0], ChunksOf(contributions, 0), GrantedBy(rows, 0), map[], counts) == Ok(o);
    assert [o] + [] == [o];
  }

  lemma QuadContext(k: nat)
    requires k > 0
    ensures var context := RenderContext([Outcome(0, QuadChunks(k), k, k)]);
            Cjk(context) == 0 && Other(context) == 4 * k + 2 * (k - 1)
  {
    QuadChunksCost(k);
    var o := Outcome(0, QuadChunks(k), k, k);
    var parts := Rendered(o.chunks);
    CharsOfJoin(parts);
    var text := RenderChunks(o.chunks);
    assert text == Join(parts, BREAK);
    assert Other(text) > 0 && text != [];
    assert ModuleTexts([o]) == [text] && [text][1..] == [];
    assert NonEmpty([text][1..]) == [];
    assert NonEmpty([text]) == [text];
  }

  lemma QuadReaches(k: nat) returns (a: Allocated)
    requires k > 0
    ensures ValidDefinition(QuadArena(k))
    ensures Reaches(QuadArena(k), QuadContributions(k), k, map[], Counter(None, CharEstimator, 1.0), a,
                    [Outcome(0, QuadChunks(k), k, k)])
  {
    QuadArenaGrants(k);
    a := AllocationStage(QuadArena(k), QuadContributions(k), k, Counter(None, CharEstimator, 1.0)).value;
    hide AllocationStage, OutcomesFrom, QuadContributions;
    assert Sort([SizedModule(0, k)], ByLayout) == [SizedModule(0, k)] by {
      assert [SizedModule(0, k)][1..] == [];
    }
    QuadModulePasses(k, a.rows);
  }

  lemma QuadCount(k: nat)
    requires k > 0
    ensures Counter(None, CharEstimator, 1.0).CountText(RenderContext([Outcome(0, QuadChunks(k), k, k)]))
            == (6 * k + 1) / 4
  {
    QuadContext(k);
    hide RenderContext, QuadChunks, Cjk, Other;
    ScaledByOne(CharTokens(RenderContext([Outcome(0, QuadChunks(k), k, k)])));
  }

  /**
   The bound of one chunk is exact: a module whose budget is `k` one-token chunks prepares when
   `k` is one, and from two chunks on the unreserved separators push the render over.
   */
  lemma QuadAdmissionIff(k: nat)
    requires k > 0
    ensures ValidDefinition(QuadArena(k)) && ValidContributions(QuadArena(k), QuadContributions(k))
    ensures NoNullContributions(QuadContributions(k)) && AtMostChunks(QuadContributions(k), k)
    ensures var plan := PlanContext(QuadArena(k), QuadContributions(k), k, map[], Counter(None, CharEstimator, 1.0));
            plan == Err(RenderedExceedsBudget) <==> k >= 2
  {
    QuadChunksCost(k);
    QuadArenaIsValid(k);
    hide PlanContext, AllocationStage, ValidContributions, OutcomesFrom, QuadChunks, RenderContext, Reaches;
    var a := QuadReaches(k);
    var os := [Outcome(0, QuadChunks(k), k, k)];
    ReachedPlan(QuadArena(k), QuadContributions(k), k, map[], Counter(None, CharEstimator, 1.0), a, os);
    QuadCount(k);
  }
}
