/**
 Weighted filling towards a cap: rounds of proportional shares, each at least one token, until
 the budget is spent or every module is at its cap.
 */
module Filling {
  import opened Basics
  import opened Layout

  function IsUnfilled(caps: Amounts, current: Amounts): ModuleDefinition -> bool {
    (m: ModuleDefinition) => Of(current, m.id) < Of(caps, m.id)
  }

  predicate PositiveWeights(ms: seq<ModuleDefinition>) {
    forall m | m in ms :: m.weight > 0.0
  }

  function WeightOf(ms: seq<ModuleDefinition>): (w: real)
    requires PositiveWeights(ms)
    ensures w >= 0.0 && (ms != [] ==> w > 0.0)
  {
    if ms == [] then 0.0 else ms[0].weight + WeightOf(ms[1..])
  }

  function ExactShare(m: ModuleDefinition, round: int, total: real): real
    requires total > 0.0
  {
    round as real * m.weight / total
  }

  /** What a module may take from a round: a whole number of tokens, at least one. */
  type Portion = n: int | n >= 1 witness 1

  function Share(m: ModuleDefinition, round: int, total: real): Portion
    requires total > 0.0
  {
    Max(ExactShare(m, round, total).Floor, 1)
  }

  datatype Claimant = Claimant(id: ModuleId, share: Portion)

  function Claimants(active: seq<ModuleDefinition>, round: int): seq<Claimant>
    requires PositiveWeights(active)
  {
    seq(|active|, i requires 0 <= i < |active| =>
      Claimant(active[i].id, assert active[i] in active; Share(active[i], round, WeightOf(active))))
  }

  predicate DistinctClaims(claims: seq<Claimant>) {
    forall i, j | 0 <= i < j < |claims| :: claims[i].id != claims[j].id
  }

  /** Every claimant from position `k` on is below its cap. */
  predicate Open(claims: seq<Claimant>, k: nat, caps: Amounts, current: Amounts) {
    forall i | k <= i < |claims| :: Of(current, claims[i].id) < Of(caps, claims[i].id)
  }

  /** What a claimant asks of a round: its share, up to the gap below its cap. */
  function Claim(c: Claimant, caps: Amounts, current: Amounts): int {
    Min(Of(caps, c.id) - Of(current, c.id), c.share)
  }

  function Post(current: Amounts, id: ModuleId, grant: int): Amounts {
    current[id := Of(current, id) + grant]
  }

  /** The round from claimant `k` on, in id order. */
  function FillPass(claims: seq<Claimant>, k: nat, caps: Amounts, current: Amounts, remaining: int): (Amounts, int)
    decreases |claims| - k
  {
    if k >= |claims| || remaining == 0 then (current, remaining)
    else
      var grant := Min(Claim(claims[k], caps, current), remaining);
      FillPass(claims, k + 1, caps, Post(current, claims[k].id, grant), remaining - grant)
  }

  predicate Fillable(active: seq<ModuleDefinition>, caps: Amounts, current: Amounts) {
    && DistinctIds(active) && PositiveWeights(active)
    && forall i | 0 <= i < |active| :: Of(current, active[i].id) < Of(caps, active[i].id)
  }

  lemma {:induction false} PassSpends(claims: seq<Claimant>, k: nat, caps: Amounts, current: Amounts, remaining: int)
    requires DistinctClaims(claims) && Open(claims, k, caps, current) && remaining >= 0
    ensures var left := FillPass(claims, k, caps, current, remaining).1;
            && 0 <= left <= remaining
            && (k < |claims| && remaining > 0 ==> left < remaining)
    decreases |claims| - k
  {
    if k < |claims| && remaining > 0 {
      var grant := Min(Claim(claims[k], caps, current), remaining);
      PassSpends(claims, k + 1, caps, Post(current, claims[k].id, grant), remaining - grant);
    }
  }

  /** The still-unfilled modules after a round. */
  function Retain(active: seq<ModuleDefinition>, caps: Amounts, after: Amounts): (r: seq<ModuleDefinition>)
    requires DistinctIds(active) && PositiveWeights(active)
    ensures Fillable(r, caps, after)
  {
    SelectIsFilter(active, IsUnfilled(caps, after));
    var r := Select(active, IsUnfilled(caps, after));
    assert forall i | 0 <= i < |r| :: r[i] in r;
    r
  }

  /** Rounds until the budget or the unfilled modules run out, or a round moves nothing. */
  function Fill(active: seq<ModuleDefinition>, caps: Amounts, current: Amounts, remaining: int): (Amounts, int)
    requires Fillable(active, caps, current)
    decreases remaining
  {
    if remaining <= 0 || active == [] then (current, remaining)
    else
      var claims := Claimants(active, remaining);
      PassSpends(claims, 0, caps, current, remaining);
      var (after, left) := FillPass(claims, 0, caps, current, remaining);
      if left == remaining then (after, left)
      else Fill(Retain(active, caps, after), caps, after, left)
  }

  function Unfilled(ms: seq<ModuleDefinition>, caps: Amounts, current: Amounts): (r: seq<ModuleDefinition>)
    requires ValidModules(ms)
    ensures Fillable(r, caps, current) && Sorted(r, ById)
    ensures forall m :: m in r <==> m in ms && Of(current, m.id) < Of(caps, m.id)
  {
    SelectSortFacts(ms, IsUnfilled(caps, current), ById);
    var r := Sort(Select(ms, IsUnfilled(caps, current)), ById);
    assert forall i | 0 <= i < |r| :: r[i] in r;
    r
  }

  function FilledTo(ms: seq<ModuleDefinition>, caps: Amounts, current: Amounts, remaining: int): (Amounts, int)
    requires ValidModules(ms)
  {
    Fill(Unfilled(ms, caps, current), caps, current, remaining)
  }

  method FillRound(active: seq<ModuleDefinition>, caps: Amounts, start: Amounts, round: int)
    returns (current: Amounts, remaining: int, progressed: int)
    requires Fillable(active, caps, start) && active != [] && round > 0
    ensures (current, remaining) == FillPass(Claimants(active, round), 0, caps, start, round)
    ensures progressed == round - remaining
  {
    current, remaining, progressed := start, round, 0;
    var claims := Claimants(active, round);
    var i := 0;
    while i < |claims|
      invariant 0 <= i <= |claims|
      invariant progressed == round - remaining
      invariant i < |claims| ==> remaining != 0
      invariant FillPass(claims, 0, caps, start, round) == FillPass(claims, i, caps, current, remaining)
    {
      var id, share := claims[i].id, claims[i].share;
      var capacity := Of(caps, id) - Of(current, id);
      var grant := Min(Min(capacity, share), remaining);
      current := current[id := Of(current, id) + grant];
      remaining := remaining - grant;
      progressed := progressed + grant;
      i := i + 1;
      if remaining == 0 {
        break;
      }
    }
  }

  method WeightedFill(ms: seq<ModuleDefinition>, caps: Amounts, start: Amounts, budget: int)
    returns (current: Amounts, remaining: int)
    requires ValidModules(ms)
    ensures (current, remaining) == FilledTo(ms, caps, start, budget)
  {
    current, remaining := start, budget;
    var active := Unfilled(ms, caps, current);
    while remaining > 0 && active != []
      invariant Fillable(active, caps, current)
      invariant FilledTo(ms, caps, start, budget) == Fill(active, caps, current, remaining)
      decreases remaining
    {
      PassSpends(Claimants(active, remaining), 0, caps, current, remaining);
      var after, left, progressed := FillRound(active, caps, current, remaining);
      active := Retain(active, caps, after);
      current, remaining := after, left;
      if progressed == 0 {
        break;
      }
    }
  }

  // ----- What filling guarantees -----

  lemma {:induction false} UntouchedByPass(claims: seq<Claimant>, k: nat, caps: Amounts, current: Amounts,
                                           remaining: int, id: ModuleId)
    requires forall i | k <= i < |claims| :: claims[i].id != id
    ensures Of(FillPass(claims, k, caps, current, remaining).0, id) == Of(current, id)
    decreases |claims| - k
  {
    if k < |claims| && remaining != 0 {
      var grant := Min(Claim(claims[k], caps, current), remaining);
      UntouchedByPass(claims, k + 1, caps, Post(current, claims[k].id, grant), remaining - grant, id);
    }
  }

  /** A round only raises a claimant's account, and never past its cap. */
  lemma {:induction false} PassStaysBelowCaps(claims: seq<Claimant>, k: nat, caps: Amounts, current: Amounts,
                                              remaining: int, j: nat)
    requires DistinctClaims(claims) && Open(claims, k, caps, current) && remaining >= 0
    requires k <= j < |claims|
    ensures var after := FillPass(claims, k, caps, current, remaining).0;
            Of(current, claims[j].id) <= Of(after, claims[j].id) <= Of(caps, claims[j].id)
    decreases |claims| - k
  {
    if remaining > 0 {
      var grant := Min(Claim(claims[k], caps, current), remaining);
      var next := Post(current, claims[k].id, grant);
      if j == k {
        UntouchedByPass(claims, k + 1, caps, next, remaining - grant, claims[k].id);
      } else {
        PassStaysBelowCaps(claims, k + 1, caps, next, remaining - grant, j);
      }
    }
  }

  /** Tokens move from the budget to the accounts; none appear or vanish within a round. */
  lemma {:induction false} PassConserves(ms: seq<ModuleDefinition>, claims: seq<Claimant>, k: nat, caps: Amounts,
                                         current: Amounts, remaining: int)
    requires DistinctIds(ms) && forall i | 0 <= i < |claims| :: HasId(ms, claims[i].id)
    ensures var (after, left) := FillPass(claims, k, caps, current, remaining);
            Total(ms, after) + left == Total(ms, current) + remaining
    decreases |claims| - k
  {
    if k < |claims| && remaining != 0 {
      var id := claims[k].id;
      var grant := Min(Claim(claims[k], caps, current), remaining);
      TotalOfUpdate(ms, current, id, Of(current, id) + grant);
      PassConserves(ms, claims, k + 1, caps, Post(current, id, grant), remaining - grant);
    }
  }

  ghost predicate FilledFacts(ms: seq<ModuleDefinition>, caps: Amounts, before: Amounts, budget: int,
                              after: Amounts, left: int) {
    && 0 <= left
    && Total(ms, after) + left == Total(ms, before) + budget
    && (forall m | m in ms :: Of(before, m.id) <= Of(after, m.id) <= Of(caps, m.id))
    && (left == 0 || forall m | m in ms :: Of(after, m.id) == Of(caps, m.id))
  }

  lemma RoundFacts(ms: seq<ModuleDefinition>, active: seq<ModuleDefinition>, caps: Amounts,
                   current: Amounts, remaining: int)
    requires Fillable(active, caps, current) && remaining > 0 && active != []
    requires DistinctIds(ms) && forall m | m in active :: m in ms
    ensures var (after, left) := FillPass(Claimants(active, remaining), 0, caps, current, remaining);
            && 0 <= left < remaining
            && Total(ms, after) + left == Total(ms, current) + remaining
            && (forall m | m in active :: Of(current, m.id) <= Of(after, m.id) <= Of(caps, m.id))
            && (forall m | m in ms && m !in active :: Of(after, m.id) == Of(current, m.id))
  {
    var claims := Claimants(active, remaining);
    var after := FillPass(claims, 0, caps, current, remaining).0;
    PassSpends(claims, 0, caps, current, remaining);
    forall i | 0 <= i < |claims| ensures HasId(ms, claims[i].id) {
      assert active[i] in active;
    }
    PassConserves(ms, claims, 0, caps, current, remaining);
    forall m | m in active ensures Of(current, m.id) <= Of(after, m.id) <= Of(caps, m.id) {
      var j :| 0 <= j < |active| && active[j] == m;
      PassStaysBelowCaps(claims, 0, caps, current, remaining, j);
    }
    forall m | m in ms && m !in active ensures Of(after, m.id) == Of(current, m.id) {
      forall i | 0 <= i < |claims| ensures claims[i].id != m.id {
        assert active[i] in active;
        DistinctMembers(ms, active[i], m);
      }
      UntouchedByPass(claims, 0, caps, current, remaining, m.id);
    }
  }

  lemma DistinctMembers(ms: seq<ModuleDefinition>, a: ModuleDefinition, b: ModuleDefinition)
    requires DistinctIds(ms) && a in ms && b in ms && a != b
    ensures a.id != b.id
  {
  }

  /**
   Filling conserves tokens, only raises accounts, never past a cap, and stops only when the
   budget is spent or every module is full: the no-progress exit is dead code.
   */
  lemma {:induction false} FillCorrect(ms: seq<ModuleDefinition>, active: seq<ModuleDefinition>, caps: Amounts,
                                       current: Amounts, remaining: int)
    requires Fillable(active, caps, current) && remaining >= 0
    requires DistinctIds(ms) && forall m | m in active :: m in ms
    requires forall m | m in ms && m !in active :: Of(current, m.id) == Of(caps, m.id)
    ensures var (after, left) := Fill(active, caps, current, remaining);
            FilledFacts(ms, caps, current, remaining, after, left)
    decreases remaining
  {
    if remaining > 0 && active != [] {
      var (after, left) := FillPass(Claimants(active, remaining), 0, caps, current, remaining);
      RoundFacts(ms, active, caps, current, remaining);
      SelectIsFilter(active, IsUnfilled(caps, after));
      FillCorrect(ms, Retain(active, caps, after), caps, after, left);
    }
  }

  lemma FilledToCorrect(ms: seq<ModuleDefinition>, caps: Amounts, current: Amounts, remaining: int)
    requires ValidModules(ms) && remaining >= 0
    requires forall m | m in ms :: Of(current, m.id) <= Of(caps, m.id)
    ensures var (after, left) := FilledTo(ms, caps, current, remaining);
            FilledFacts(ms, caps, current, remaining, after, left)
  {
    FillCorrect(ms, Unfilled(ms, caps, current), caps, current, remaining);
  }
}
