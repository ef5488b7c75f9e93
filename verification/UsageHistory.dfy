/** What one prepare remembers of each module's usage, and the change rates the next one reports. */
module UsageHistory {
  import opened Basics
  import opened Layout
  import opened Counting
  import opened Reclaim
  import opened Usage
  import opened Preparing
  import opened Admission

  function UsageAfter(previous: Amounts, outcomes: seq<Outcome>): Amounts {
    if outcomes == [] then previous
    else UsageAfter(previous, outcomes[..|outcomes| - 1])[outcomes[|outcomes| - 1].id := outcomes[|outcomes| - 1].used]
  }

  /** A module seen for the first time has not changed. */
  function RateFrom(previous: Amounts, o: Outcome): real {
    ChangeRate(if o.id in previous then previous[o.id] else o.used, o.used)
  }

  /** The change rates of a prepare, as it replaces one remembered usage after the other. */
  function ChangeRates(previous: Amounts, outcomes: seq<Outcome>): (rates: seq<real>)
    ensures |rates| == |outcomes|
  {
    if outcomes == [] then []
    else
      var n := |outcomes| - 1;
      ChangeRates(previous, outcomes[..n]) + [RateFrom(UsageAfter(previous, outcomes[..n]), outcomes[n])]
  }

  predicate DistinctOutcomes(outcomes: seq<Outcome>) {
    forall i, j | 0 <= i < j < |outcomes| :: outcomes[i].id != outcomes[j].id
  }

  /** A prepare's outcomes are about different modules, whatever the request. */
  lemma PreparesHaveDistinctOutcomes(d: ArenaDefinition, contributions: Contributions, inputBudget: int,
                                     results: SemanticResults, counts: Calibrated, plan: Plan)
    requires ValidModules(d.modules) && PlanContext(d, contributions, inputBudget, results, counts) == Ok(plan)
    ensures DistinctOutcomes(plan.outcomes)
  {
    hide AllocationStage, OutcomesFrom, Sort, RenderContext, UsageRows;
    var order := Sort(d.modules, ByLayout);
    SortPermutes(d.modules, ByLayout);
    PermutationDistinct(d.modules, order);
    OneOutcomeEach(order, 0, contributions, plan.allocation.rows, results, counts);
  }

  lemma {:induction false} UsageAfterMeans(previous: Amounts, outcomes: seq<Outcome>)
    requires DistinctOutcomes(outcomes)
    ensures var after := UsageAfter(previous, outcomes);
            && (forall i | 0 <= i < |outcomes| ::
                  outcomes[i].id in after && after[outcomes[i].id] == outcomes[i].used)
            && (forall id | (forall i | 0 <= i < |outcomes| :: outcomes[i].id != id) ::
                  (id in after <==> id in previous) && (id in after ==> after[id] == previous[id]))
  {
    if outcomes != [] {
      var n := |outcomes| - 1;
      var rest := outcomes[..n];
      UsageAfterMeans(previous, rest);
      assert forall i | 0 <= i < n :: rest[i] == outcomes[i];
    }
  }

  /** A rate in the numbers it compares: none for a module not seen before. */
  ghost predicate IsRate(rate: real, previous: Amounts, o: Outcome) {
    if o.id !in previous then rate == 0.0
    else rate * (if previous[o.id] > 1 then previous[o.id] else 1) as real == (o.used - previous[o.id]) as real
  }

  lemma RateIsRate(previous: Amounts, o: Outcome)
    ensures IsRate(RateFrom(previous, o), previous, o)
  {
    if o.id in previous {
      var whole := Max(previous[o.id], 1) as real;
      var moved := (o.used - previous[o.id]) as real;
      assert moved / whole * whole == moved;
    }
  }

  /** Each module's rate is measured against what the previous prepare remembered of it. */
  lemma {:induction false} RatesAreAgainstPrevious(previous: Amounts, outcomes: seq<Outcome>)
    requires DistinctOutcomes(outcomes)
    ensures forall i | 0 <= i < |outcomes| ::
              && ChangeRates(previous, outcomes)[i] == RateFrom(previous, outcomes[i])
              && IsRate(ChangeRates(previous, outcomes)[i], previous, outcomes[i])
  {
    hide ChangeRate, IsRate;
    if outcomes != [] {
      var n := |outcomes| - 1;
      var rest := outcomes[..n];
      assert forall i | 0 <= i < n :: rest[i] == outcomes[i];
      RateIsRate(previous, outcomes[n]);
      RatesAreAgainstPrevious(previous, rest);
      UsageAfterMeans(previous, rest);
      assert ChangeRates(previous, outcomes)[n] == RateFrom(UsageAfter(previous, rest), outcomes[n]);
    }
  }

  /** Against the outcomes of the prepare before it, a prepare with as much used reports no change. */
  lemma SteadyUsageHasNoRate(previous: Amounts, outcomes: seq<Outcome>, again: seq<Outcome>)
    requires DistinctOutcomes(outcomes) && |again| == |outcomes|
    requires forall i | 0 <= i < |again| :: again[i].id == outcomes[i].id && again[i].used >= 0
    ensures var rates := ChangeRates(UsageAfter(previous, outcomes), again);
            forall i | 0 <= i < |again| :: rates[i] == 0.0 <==> again[i].used == outcomes[i].used
  {
    UsageAfterMeans(previous, outcomes);
    RatesAreAgainstPrevious(UsageAfter(previous, outcomes), again);
    hide UsageAfter, ChangeRates;
    forall i | 0 <= i < |again|
      ensures ChangeRates(UsageAfter(previous, outcomes), again)[i] == 0.0 <==> again[i].used == outcomes[i].used
    {
      NoChange(outcomes[i].used, again[i].used);
    }
  }

  lemma NoChange(previous: int, after: int)
    ensures ChangeRate(previous, after) == 0.0 <==> after == previous
  {
    var whole := Max(previous, 1) as real;
    assert ChangeRate(previous, after) * whole == (after - previous) as real;
  }
}
