/**
 What a host's observed demand can do when it understates: a module is never granted more than it
 asks for, so one whose protected content alone exceeds its stated demand fails every prepare.
 */
module UnderstatedDemands {
  import opened Basics
  import opened Texts
  import opened Counting
  import opened Layout
  import opened Leasing
  import opened Allocations
  import opened Reclaim
  import opened Preparing
  import opened Admission
  import opened AdmissionBoundaries

  /** No allocation grants a module more than it asks for. */
  lemma GrantsStayWithinAsked(d: ArenaDefinition, contributions: Contributions, inputBudget: int, counts: Calibrated,
                              m: ModuleDefinition)
    requires ValidModules(d.modules) && m in d.modules
    ensures var a := AllocationStage(d, contributions, inputBudget, counts);
            a.Ok? ==> GrantedBy(a.value.rows, m.id) <= AskedBy(contributions, m, counts)
  {
    hide SeparatorTokens, Settled, Demands, Sort, CountOf, DemandOf, DemandCapped, Total, BudgetFitsFloors;
    var ms, demands := d.modules, Demands(d.modules, contributions, counts);
    var budget := inputBudget - SeparatorTokens(ms, contributions, counts);
    if AllocationStage(d, contributions, inputBudget, counts).Ok? {
      DemandsFollow(ms, contributions, counts);
      forall x | x in ms ensures Of(demands, x.id) >= 0 {
        DemandNonNegative(ms, contributions, counts, x.id);
      }
      BudgetCheckSuffices(d, demands, budget);
      SettledReachesEligible(ms, demands, budget - d.frameworkReserve, m);
      LayoutOrder(ms);
      GrantedByRow(Sort(ms, ByLayout), demands, Settled(ms, demands, budget - d.frameworkReserve),
                   Rows(ms, demands, Settled(ms, demands, budget - d.frameworkReserve)), m);
    }
  }

  lemma {:induction false} FixedContentCounts(m: ModuleDefinition, chunks: seq<Chunk>, c: Chunk, counts: Calibrated)
    requires c in chunks && c.fixed
    ensures CountContent(c.content, counts) <= CountChunks(Protected(m, chunks), counts)
    ensures CountContent(c.content, counts) <= CountChunks(chunks, counts)
  {
    hide CountContent;
    var rest := Protected(m, chunks[1..]);
    if IsProtected(m, chunks[0]) {
      assert Protected(m, chunks) == [chunks[0]] + rest;
      assert ([chunks[0]] + rest)[1..] == rest;
    } else {
      assert Protected(m, chunks) == [] + rest == rest;
    }
    if c != chunks[0] {
      FixedContentCounts(m, chunks[1..], c, counts);
    }
  }

  lemma TooMuchFixed(m: ModuleDefinition, chunks: seq<Chunk>, granted: int, results: SemanticResults,
                     counts: Calibrated, c: Chunk)
    requires c in chunks && c.fixed && CountContent(c.content, counts) > granted
    ensures OutcomeOf(m, chunks, granted, results, counts) == Err(ProtectedExceedsAllocation)
  {
    hide CountContent, Elastic, RequiredTerms;
    FixedContentCounts(m, chunks, c, counts);
  }

  lemma {:induction false} OneFailureFailsAll(order: seq<ModuleDefinition>, i: nat, contributions: Contributions,
                                              rows: seq<ModuleAllocation>, results: SemanticResults,
                                              counts: Calibrated, m: ModuleDefinition)
    requires i <= |order| && m in order[i..]
    requires OutcomeOf(m, ChunksOf(contributions, m.id), GrantedBy(rows, m.id), results, counts).Err?
    ensures OutcomesFrom(order, i, contributions, rows, results, counts).Err?
    decreases |order| - i
  {
    hide OutcomeOf, GrantedBy, ChunksOf;
    if m != order[i] {
      assert order[i..] == [order[i]] + order[i + 1..];
      OneFailureFailsAll(order, i + 1, contributions, rows, results, counts, m);
    }
  }

  /** A fixed chunk with more words than its module's stated demand: no prepare ever reaches admission. */
  lemma UnderstatedNeverReaches(setting: Setting, contributions: Contributions, id: ModuleId, c: Chunk)
    requires Accepts(setting, contributions) && id in contributions && contributions[id].observedDemand.Some?
    requires c in contributions[id].chunks && c.fixed && !c.content.Null?
    requires Words(Render(c.content)) > contributions[id].observedDemand.value
    ensures Admits(setting, contributions, WordEstimator)
  {
    var d, counts := setting.d, Counter(None, WordEstimator, setting.multiplier);
    var order := Sort(d.modules, ByLayout);
    var m :| m in d.modules && m.id == id;
    LayoutOrder(d.modules);
    hide AllocationStage, OutcomesFrom, OutcomeOf, Sort, Admit, Words, Scaled, WellFormed;
    var stage := AllocationStage(d, contributions, setting.inputBudget, counts);
    AllocationStageErrors(d, contributions, setting.inputBudget, counts);
    if stage.Ok? {
      GrantsStayWithinAsked(d, contributions, setting.inputBudget, counts, m);
      TooMuchFixed(m, ChunksOf(contributions, id), GrantedBy(stage.value.rows, id), setting.results, counts, c);
      assert order[0..] == order;
      OneFailureFailsAll(order, 0, contributions, stage.value.rows, setting.results, counts, m);
    }
  }

  function Understated(): Contributions {
    map[0 := Contribution([Chunk(Named(Mark(1)), Str(NULL_TEXT), true, false, {}, []),
                           Chunk(Named(Mark(2)), Null, false, false, {}, [])], Some(0))]
  }

  /** Stated demand of zero for one fixed word and a null: safe everywhere, because nothing is ever prepared. */
  lemma UnderstatedDemandCanBeSafe()
    ensures WellFormed(Understated()) && !NoNullContributions(Understated()) && !DemandsCover(Understated())
    ensures SafeEverywhere(Understated(), WordEstimator)
  {
    NullIsOneWord();
    MarkIsVisible(1);
    MarkIsVisible(2);
    var contributions := Understated();
    var chunks := contributions[0].chunks;
    assert |chunks[0].id.name| == 1 && |chunks[1].id.name| == 2;
    hide Words, Mark, NULL_TEXT;
    assert chunks[0] in chunks && chunks[1] in chunks && chunks[1].content.Null?;
    assert PlainWords(chunks) >= Words(NULL_TEXT);
    forall setting: Setting | Accepts(setting, contributions) ensures Admits(setting, contributions, WordEstimator) {
      UnderstatedNeverReaches(setting, contributions, 0, chunks[0]);
    }
  }
}
