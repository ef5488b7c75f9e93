/** How close a round of weighted filling comes to exact proportional shares. */
module Proportionality {
  import opened Basics
  import opened Layout
  import opened Filling

  /** The combined claims of claimants `k` to `n`, before anything is granted. */
  function Claims(claims: seq<Claimant>, k: nat, n: nat, caps: Amounts, current: Amounts): int
    requires n <= |claims|
    decreases n - k
  {
    if k >= n then 0 else Claim(claims[k], caps, current) + Claims(claims, k + 1, n, caps, current)
  }

  lemma {:induction false} ClaimsUnchanged(claims: seq<Claimant>, k: nat, n: nat, caps: Amounts,
                                           a: Amounts, b: Amounts)
    requires n <= |claims| && forall i | k <= i < n :: Of(a, claims[i].id) == Of(b, claims[i].id)
    ensures Claims(claims, k, n, caps, a) == Claims(claims, k, n, caps, b)
    decreases n - k
  {
    if k < n {
      ClaimsUnchanged(claims, k + 1, n, caps, a, b);
    }
  }

  lemma {:induction false} ClaimsNonNegative(claims: seq<Claimant>, k: nat, n: nat, caps: Amounts, current: Amounts)
    requires n <= |claims| && Open(claims, k, caps, current)
    ensures Claims(claims, k, n, caps, current) >= 0
    decreases n - k
  {
    if k < n {
      ClaimsNonNegative(claims, k + 1, n, caps, current);
    }
  }

  /**
   A round in closed form: a claimant gains its claim, cut to what the claims of those before it
   in id order leave of the budget.
   */
  lemma {:induction false} PassGain(claims: seq<Claimant>, k: nat, caps: Amounts, current: Amounts,
                                    remaining: int, j: nat)
    requires DistinctClaims(claims) && Open(claims, k, caps, current) && remaining >= 0
    requires k <= j < |claims|
    ensures var after := FillPass(claims, k, caps, current, remaining).0;
            Of(after, claims[j].id) - Of(current, claims[j].id)
            == Min(Claim(claims[j], caps, current), Max(0, remaining - Claims(claims, k, j, caps, current)))
    decreases |claims| - k
  {
    ClaimsNonNegative(claims, k, j, caps, current);
    if remaining > 0 {
      var grant := Min(Claim(claims[k], caps, current), remaining);
      var next := Post(current, claims[k].id, grant);
      if j == k {
        UntouchedByPass(claims, k + 1, caps, next, remaining - grant, claims[k].id);
      } else {
        PassGain(claims, k + 1, caps, next, remaining - grant, j);
        ClaimsUnchanged(claims, k + 1, j, caps, current, next);
        ClaimsNonNegative(claims, k + 1, j, caps, current);
      }
    }
  }

  /** What module `k` gains in the first round of a fill. */
  function FirstRoundGain(active: seq<ModuleDefinition>, caps: Amounts, current: Amounts, budget: int, k: nat): int
    requires PositiveWeights(active) && k < |active|
  {
    Of(FillPass(Claimants(active, budget), 0, caps, current, budget).0, active[k].id) - Of(current, active[k].id)
  }

  /** The rounded-down exact share of module `k`, or its gap if that is smaller. */
  function FairGain(active: seq<ModuleDefinition>, caps: Amounts, current: Amounts, budget: int, k: nat): int
    requires PositiveWeights(active) && k < |active|
  {
    assert active[k] in active;
    Min(Of(caps, active[k].id) - Of(current, active[k].id),
        ExactShare(active[k], budget, WeightOf(active)).Floor)
  }

  /**
   Exactly when the first round is proportional for a module: when what the modules before it
   claim, one-token minimums included, leaves room for its fair gain.
   */
  lemma ProportionalIff(active: seq<ModuleDefinition>, caps: Amounts, current: Amounts, budget: int, k: nat)
    requires Fillable(active, caps, current) && budget > 0 && k < |active|
    ensures FirstRoundGain(active, caps, current, budget, k) >= FairGain(active, caps, current, budget, k)
            <==> FairGain(active, caps, current, budget, k) <= 0
                 || Claims(Claimants(active, budget), 0, k, caps, current)
                    + FairGain(active, caps, current, budget, k) <= budget
  {
    PassGain(Claimants(active, budget), 0, caps, current, budget, k);
  }

  lemma {:induction false} ClaimsSplit(claims: seq<Claimant>, k: nat, n: nat, caps: Amounts, current: Amounts)
    requires k <= n < |claims|
    ensures Claims(claims, k, n + 1, caps, current)
            == Claims(claims, k, n, caps, current) + Claim(claims[n], caps, current)
    decreases n - k
  {
    if k < n {
      ClaimsSplit(claims, k + 1, n, caps, current);
    }
  }

  function RealSum(xs: seq<real>, n: nat): real
    requires n <= |xs|
  {
    if n == 0 then 0.0 else RealSum(xs, n - 1) + xs[n - 1]
  }

  lemma {:induction false} RealSumGrows(xs: seq<real>, n: nat)
    requires n <= |xs| && forall i | 0 <= i < |xs| :: xs[i] >= 0.0
    ensures RealSum(xs, n) <= RealSum(xs, |xs|)
    decreases |xs| - n
  {
    if n < |xs| {
      RealSumGrows(xs, n + 1);
    }
  }

  /** The shares are the exact amounts, rounded down. */
  predicate RoundedDown(claims: seq<Claimant>, exact: seq<real>) {
    |exact| == |claims| && forall i | 0 <= i < |claims| :: exact[i] >= 1.0 && claims[i].share == exact[i].Floor
  }

  lemma {:induction false} ClaimsWithinExact(claims: seq<Claimant>, exact: seq<real>, n: nat,
                                             caps: Amounts, current: Amounts)
    requires RoundedDown(claims, exact) && n <= |claims|
    ensures Claims(claims, 0, n, caps, current) as real <= RealSum(exact, n)
  {
    if n > 0 {
      ClaimsWithinExact(claims, exact, n - 1, caps, current);
      ClaimsSplit(claims, 0, n - 1, caps, current);
      assert exact[n - 1].Floor as real <= exact[n - 1];
    }
  }

  /** Rounded-down shares of a budget never run it dry before the last claimant. */
  lemma RoundedDownIsFair(claims: seq<Claimant>, exact: seq<real>, caps: Amounts, current: Amounts,
                          budget: int, k: nat)
    requires DistinctClaims(claims) && Open(claims, 0, caps, current) && budget >= 0
    requires RoundedDown(claims, exact) && RealSum(exact, |exact|) <= budget as real
    requires k < |claims|
    ensures var after := FillPass(claims, 0, caps, current, budget).0;
            Of(after, claims[k].id) - Of(current, claims[k].id)
            == Min(Of(caps, claims[k].id) - Of(current, claims[k].id), exact[k].Floor)
  {
    PassGain(claims, 0, caps, current, budget, k);
    ClaimsWithinExact(claims, exact, k + 1, caps, current);
    RealSumGrows(exact, k + 1);
    ClaimsSplit(claims, 0, k, caps, current);
  }

  function ExactShares(active: seq<ModuleDefinition>, budget: int, total: real): seq<real>
    requires total > 0.0
  {
    seq(|active|, i requires 0 <= i < |active| => ExactShare(active[i], budget, total))
  }

  function WeightUpTo(ms: seq<ModuleDefinition>, n: nat): real
    requires n <= |ms|
  {
    if n == 0 then 0.0 else WeightUpTo(ms, n - 1) + ms[n - 1].weight
  }

  lemma {:induction false} WeightUpToCons(ms: seq<ModuleDefinition>, n: nat)
    requires 0 < n <= |ms|
    ensures WeightUpTo(ms, n) == ms[0].weight + WeightUpTo(ms[1..], n - 1)
  {
    if n > 1 {
      WeightUpToCons(ms, n - 1);
    }
  }

  lemma {:induction false} WeightUpToAll(ms: seq<ModuleDefinition>)
    requires PositiveWeights(ms)
    ensures WeightUpTo(ms, |ms|) == WeightOf(ms)
  {
    if ms != [] {
      WeightUpToCons(ms, |ms|);
      WeightUpToAll(ms[1..]);
    }
  }

  lemma SharesAdd(round: real, v: real, w: real, total: real)
    requires total > 0.0
    ensures round * v / total + round * w / total == round * (v + w) / total
  {
    assert round * v + round * w == round * (v + w);
  }

  lemma {:induction false} ExactSharesAdd(active: seq<ModuleDefinition>, budget: int, total: real, n: nat)
    requires total > 0.0 && n <= |active|
    ensures RealSum(ExactShares(active, budget, total), n) == budget as real * WeightUpTo(active, n) / total
  {
    if n > 0 {
      ExactSharesAdd(active, budget, total, n - 1);
      SharesAdd(budget as real, WeightUpTo(active, n - 1), active[n - 1].weight, total);
    }
  }

  lemma Cancel(a: real, b: real)
    requires b > 0.0
    ensures a * b / b == a
  {
  }

  lemma ExactSharesExhaust(active: seq<ModuleDefinition>, budget: int, total: real)
    requires total > 0.0 && WeightUpTo(active, |active|) == total
    ensures RealSum(ExactShares(active, budget, total), |active|) == budget as real
  {
    ExactSharesAdd(active, budget, total, |active|);
    Cancel(budget as real, total);
  }

  predicate AllSharesWhole(active: seq<ModuleDefinition>, budget: int)
    requires PositiveWeights(active)
  {
    active != [] && forall i | 0 <= i < |active| :: ExactShare(active[i], budget, WeightOf(active)) >= 1.0
  }

  /**
   When every exact share is at least one token, the first round gives each module exactly its
   rounded-down share, or its whole gap if that is smaller.
   */
  lemma FirstRoundIsProportional(active: seq<ModuleDefinition>, caps: Amounts, current: Amounts,
                                 budget: int, k: nat)
    requires Fillable(active, caps, current) && budget > 0 && k < |active|
    requires AllSharesWhole(active, budget)
    ensures FirstRoundGain(active, caps, current, budget, k) == FairGain(active, caps, current, budget, k)
  {
    WeightUpToAll(active);
    ExactSharesExhaust(active, budget, WeightOf(active));
    var claims, exact := Claimants(active, budget), ExactShares(active, budget, WeightOf(active));
    forall i | 0 <= i < |claims| ensures exact[i] >= 1.0 && claims[i].share == exact[i].Floor {
      WholeShare(active[i], budget, WeightOf(active));
    }
    RoundedDownIsFair(claims, exact, caps, current, budget, k);
  }

  /**
   Later rounds take nothing back: over the whole fill a module gains at least what the first round
   gave it, so at least its fair gain when the first round had room for that, as it has when every
   exact share is at least one token.
   */
  lemma FillIsProportional(ms: seq<ModuleDefinition>, caps: Amounts, current: Amounts, budget: int, k: nat)
    requires ValidModules(ms) && budget > 0 && k < |Unfilled(ms, caps, current)|
    requires forall m | m in ms :: Of(current, m.id) <= Of(caps, m.id)
    ensures var active := Unfilled(ms, caps, current);
            var gain := Of(FilledTo(ms, caps, current, budget).0, active[k].id) - Of(current, active[k].id);
            var fair := FairGain(active, caps, current, budget, k);
            && gain >= FirstRoundGain(active, caps, current, budget, k)
            && (fair + Claims(Claimants(active, budget), 0, k, caps, current) <= budget ==> gain >= fair)
            && (AllSharesWhole(active, budget) ==> gain >= fair)
  {
    var active := Unfilled(ms, caps, current);
    LaterRoundsKeep(ms, active, caps, current, budget, k);
    hide FairGain, FirstRoundGain, AllSharesWhole, Claimants, Unfilled, FilledTo;
    ProportionalIff(active, caps, current, budget, k);
    if AllSharesWhole(active, budget) {
      FirstRoundIsProportional(active, caps, current, budget, k);
    }
  }

  lemma LaterRoundsKeep(ms: seq<ModuleDefinition>, active: seq<ModuleDefinition>, caps: Amounts, current: Amounts,
                        budget: int, k: nat)
    requires ValidModules(ms) && budget > 0 && k < |active| && active == Unfilled(ms, caps, current)
    requires forall m | m in ms :: Of(current, m.id) <= Of(caps, m.id)
    ensures Of(FilledTo(ms, caps, current, budget).0, active[k].id)
            >= Of(current, active[k].id) + FirstRoundGain(active, caps, current, budget, k)
  {
    var (after, left) := FillPass(Claimants(active, budget), 0, caps, current, budget);
    RoundFacts(ms, active, caps, current, budget);
    SelectIsFilter(active, IsUnfilled(caps, after));
    FillCorrect(ms, Retain(active, caps, after), caps, after, left);
    assert active[k] in active;
  }

  lemma WholeShare(m: ModuleDefinition, round: int, total: real)
    requires total > 0.0 && ExactShare(m, round, total) >= 1.0
    ensures Share(m, round, total) == ExactShare(m, round, total).Floor
  {
  }

  lemma Starved(a: Claimant, b: Claimant, c: Claimant, caps: Amounts)
    requires a.id == 0 && b.id == 1 && c.id == 2 && caps == map[0 := 5, 1 := 5, 2 := 5]
    ensures Of(FillPass([a, b, c], 0, caps, map[], 2).0, 2) == 0
  {
    var claims := [a, b, c];
    PassGain(claims, 0, caps, map[], 2, 2);
    assert Claims(claims, 1, 2, caps, map[]) >= 1;
    assert Claims(claims, 0, 2, caps, map[]) >= 2;
  }

  /** The premise matters: two feather-weight modules can take what a heavy one was due. */
  lemma FeatherWeightsCanStarve()
    ensures exists active: seq<ModuleDefinition>, caps: Amounts ::
              && |active| == 3 && Fillable(active, caps, map[])
              && FirstRoundGain(active, caps, map[], 2, 2) == 0
              && FairGain(active, caps, map[], 2, 2) == 1
  {
    var m := ModuleDefinition(0, 0, 5, 5, 0, 1.0, false, false, false, []);
    var a, b, c := m, m.(id := 1), m.(id := 2, weight := 98.0);
    var active := [a, b, c];
    var caps: Amounts := map[0 := 5, 1 := 5, 2 := 5];
    assert active[1..] == [b, c] && [b, c][1..] == [c] && [c][1..] == [];
    assert WeightOf([c]) == 98.0;
    assert WeightOf([b, c]) == 99.0;
    assert WeightOf(active) == 100.0;
    assert ExactShare(c, 2, 100.0) == 1.96;
    var claims := Claimants(active, 2);
    Starved(claims[0], claims[1], claims[2], caps);
    assert claims == [claims[0], claims[1], claims[2]];
    assert FirstRoundGain(active, caps, map[], 2, 2) == 0;
    assert FairGain(active, caps, map[], 2, 2) == 1;
    assert Fillable(active, caps, map[]);
  }
}
