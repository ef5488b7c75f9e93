/**
 The allocator as Python writes it, over dictionaries and sets of ids, loop by loop, against the
 allocation function the kernel's allocator computes.
 */
module PythonAllocator {
  import opened Basics
  import opened Layout
  import opened Filling
  import opened Leasing
  import opened Bookkeeping
  import opened Allocations

  type Weights = map<ModuleId, real>

  // ----- Sorting ids -----

  predicate IsLeast(m: ModuleId, ids: set<ModuleId>) {
    m in ids && forall x | x in ids :: m <= x
  }

  lemma {:induction false} LeastExists(ids: set<ModuleId>)
    requires ids != {}
    ensures exists m :: IsLeast(m, ids)
    decreases ids
  {
    SomeId(ids);
    var y :| y in ids;
    var others := ids - {y};
    if others == {} {
      assert forall x | x in ids :: x == y by {
        assert forall x | x in ids && x != y :: x in others;
      }
      assert IsLeast(y, ids);
    } else {
      LeastExists(others);
      var m :| IsLeast(m, others);
      assert forall x | x in ids && x != y :: x in others;
      assert IsLeast(if y < m then y else m, ids);
    }
  }

  /** Python's `sorted` over a set of ids. */
  function SortedIds(ids: set<ModuleId>): seq<ModuleId>
    decreases ids
  {
    if ids == {} then []
    else
      LeastExists(ids);
      var m :| IsLeast(m, ids);
      [m] + SortedIds(ids - {m})
  }

  function IdsOf(ms: seq<ModuleDefinition>): seq<ModuleId> {
    seq(|ms|, i requires 0 <= i < |ms| => ms[i].id)
  }

  /** The set of ids holds exactly the ids of these modules. */
  ghost predicate IsActive(active: seq<ModuleDefinition>, ids: set<ModuleId>) {
    forall x :: x in ids <==> HasId(active, x)
  }

  lemma NoneActive(active: seq<ModuleDefinition>, ids: set<ModuleId>)
    requires IsActive(active, ids)
    ensures ids == {} <==> active == []
  {
    SomeId(ids);
    if active != [] {
      assert active[0] in active;
      assert HasId(active, active[0].id);
    }
  }

  lemma {:induction false} IdsOfSorted(active: seq<ModuleDefinition>, ids: set<ModuleId>)
    requires Sorted(active, ById) && IsActive(active, ids)
    ensures SortedIds(ids) == IdsOf(active)
    decreases |active|
  {
    NoneActive(active, ids);
    if active != [] {
      LeastExists(ids);
      var m :| IsLeast(m, ids);
      FirstIsLeast(active, ids, m);
      RestIsActive(active, ids);
      IdsOfSorted(active[1..], ids - {m});
      assert IdsOf(active) == [active[0].id] + IdsOf(active[1..]);
    }
  }

  lemma FirstIsLeast(active: seq<ModuleDefinition>, ids: set<ModuleId>, m: ModuleId)
    requires Sorted(active, ById) && IsActive(active, ids) && active != []
    ensures IsLeast(m, ids) <==> m == active[0].id
  {
    assert active[0] in active;
    assert HasId(active, active[0].id);
    forall x | x in ids ensures active[0].id <= x {
      var a :| a in active && a.id == x;
      var k :| 0 <= k < |active| && active[k] == a;
      assert k > 0 ==> Before(ById, active[0], active[k]);
    }
  }

  lemma RestIsActive(active: seq<ModuleDefinition>, ids: set<ModuleId>)
    requires Sorted(active, ById) && IsActive(active, ids) && active != []
    ensures Sorted(active[1..], ById) && IsActive(active[1..], ids - {active[0].id})
  {
    var rest := active[1..];
    forall i, j | 0 <= i < j < |rest| ensures Before(ById, rest[i], rest[j]) {
      assert Before(ById, active[i + 1], active[j + 1]);
    }
    forall x ensures x in ids - {active[0].id} <==> HasId(rest, x) {
      if HasId(rest, x) {
        var k :| 0 <= k < |rest| && rest[k].id == x;
        assert Before(ById, active[0], active[k + 1]) && active[k + 1] in active;
        assert HasId(active, x);
      }
      if x in ids - {active[0].id} {
        var a :| a in active && a.id == x;
        assert a in rest;
      }
    }
  }

  // ----- Weighted filling -----

  predicate WeighsAs(weights: Weights, ms: seq<ModuleDefinition>) {
    forall m | m in ms :: m.id in weights && weights[m.id] == m.weight
  }

  method SumWeights(ids: seq<ModuleId>, weights: Weights, ghost active: seq<ModuleDefinition>) returns (total: real)
    requires PositiveWeights(active) && ids == IdsOf(active) && WeighsAs(weights, active)
    ensures total == WeightOf(active)
  {
    total := 0.0;
    for k := 0 to |ids|
      invariant total + WeightOf(active[k..]) == WeightOf(active)
    {
      assert active[k] in active && active[k..][0] == active[k] && active[k..][1..] == active[k + 1..];
      total := total + weights[ids[k]];
    }
  }

  lemma ClaimantsAreOpen(active: seq<ModuleDefinition>, caps: Amounts, current: Amounts, round: int)
    requires Fillable(active, caps, current)
    ensures |Claimants(active, round)| == |active|
    ensures DistinctClaims(Claimants(active, round)) && Open(Claimants(active, round), 0, caps, current)
  {
  }

  lemma SameShare(active: seq<ModuleDefinition>, k: nat, weights: Weights, total: real, round: int)
    requires PositiveWeights(active) && k < |active| && WeighsAs(weights, active)
    requires total == WeightOf(active) && total > 0.0
    ensures active[k].id in weights && Claimants(active, round)[k].id == active[k].id
    ensures ShareInPython(round, weights[active[k].id], total) == Claimants(active, round)[k].share
  {
    assert active[k] in active;
    hide ShareInPython, Share;
    ShareIsFloored(active[k], round, total);
  }

  function Proportion(round: int, weight: real, total: real): real
    requires total > 0.0
  {
    round as real * weight / total
  }

  /** `max(1, int(...))`: truncation is the floor, as nothing here is negative. */
  function ShareInPython(round: int, weight: real, total: real): int
    requires total > 0.0
  {
    Max(1, Proportion(round, weight, total).Floor)
  }

  lemma ProportionIsExact(m: ModuleDefinition, round: int, total: real)
    requires total > 0.0
    ensures Proportion(round, m.weight, total) == ExactShare(m, round, total)
  {
  }

  lemma ShareIsFloored(m: ModuleDefinition, round: int, total: real)
    requires total > 0.0
    ensures Share(m, round, total) == ShareInPython(round, m.weight, total)
  {
    hide Proportion, ExactShare;
    ProportionIsExact(m, round, total);
  }

  lemma GrantKeepsOpen(claims: seq<Claimant>, k: nat, caps: Amounts, current: Amounts, grant: int)
    requires DistinctClaims(claims) && Open(claims, k, caps, current) && k < |claims|
    ensures Open(claims, k + 1, caps, Post(current, claims[k].id, grant))
  {
  }

  /** One pass of the `for` loop over the sorted active ids. */
  method FillPassInPython(ids: seq<ModuleId>, caps: Amounts, weights: Weights, total: real, start: Amounts, round: int,
                          ghost active: seq<ModuleDefinition>)
    returns (current: Amounts, remaining: int, progressed: int)
    requires Fillable(active, caps, start) && active != [] && round > 0
    requires ids == IdsOf(active) && WeighsAs(weights, active) && total == WeightOf(active)
    ensures (current, remaining) == FillPass(Claimants(active, round), 0, caps, start, round)
    ensures progressed == round - remaining
  {
    hide Claimants, Open, WeighsAs, Share, ShareInPython;
    current, remaining, progressed := start, round, 0;
    ghost var claims := Claimants(active, round);
    ClaimantsAreOpen(active, caps, start, round);
    var k := 0;
    while k < |ids|
      invariant 0 <= k <= |ids| && remaining > 0 && progressed == round - remaining
      invariant Open(claims, k, caps, current)
      invariant FillPass(claims, 0, caps, start, round) == FillPass(claims, k, caps, current, remaining)
    {
      var id := ids[k];
      SameShare(active, k, weights, total, round);
      var capacity := Of(caps, id) - Of(current, id);
      OpenAt(claims, k, caps, current);
      if capacity > 0 {
        var share := ShareInPython(round, weights[id], total);
        var grant := Min(Min(capacity, share), remaining);
        GrantKeepsOpen(claims, k, caps, current, grant);
        current := current[id := Of(current, id) + grant];
        remaining := remaining - grant;
        progressed := progressed + grant;
        if remaining == 0 {
          break;
        }
      }
      k := k + 1;
    }
  }

  lemma OpenAt(claims: seq<Claimant>, k: nat, caps: Amounts, current: Amounts)
    requires Open(claims, k, caps, current) && k < |claims|
    ensures Of(current, claims[k].id) < Of(caps, claims[k].id)
  {
  }

  lemma ActiveAfter(active: seq<ModuleDefinition>, ids: set<ModuleId>, caps: Amounts, after: Amounts)
    requires DistinctIds(active) && PositiveWeights(active) && Sorted(active, ById) && IsActive(active, ids)
    ensures var next := Retain(active, caps, after);
            Sorted(next, ById) && IsActive(next, set id | id in ids && Of(after, id) < Of(caps, id))
  {
    SelectIsFilter(active, IsUnfilled(caps, after));
    SelectKeepsSorted(active, IsUnfilled(caps, after), ById);
    var next := Retain(active, caps, after);
    forall x ensures x in (set id | id in ids && Of(after, id) < Of(caps, id)) <==> HasId(next, x) {
      if x in ids && Of(after, x) < Of(caps, x) {
        var m :| m in active && m.id == x;
        assert m in next;
      }
    }
  }

  lemma {:induction false} SelectKeepsSorted(ms: seq<ModuleDefinition>, p: ModuleDefinition -> bool, key: Key)
    requires Sorted(ms, key)
    ensures Sorted(Select(ms, p), key)
  {
    if ms != [] {
      assert Sorted(ms[1..], key) by {
        assert forall i | 0 <= i < |ms| - 1 :: ms[1..][i] == ms[i + 1];
      }
      SelectKeepsSorted(ms[1..], p, key);
      if p(ms[0]) {
        var rest := Select(ms[1..], p);
        forall x | x in rest ensures Before(key, ms[0], x) {
          SelectTakes(ms[1..], p, x);
          var j :| 0 <= j < |ms| - 1 && ms[1..][j] == x;
          assert ms[j + 1] == x;
        }
        SortedCons(ms[0], rest, key);
      }
    }
  }

  lemma {:induction false} SelectTakes(ms: seq<ModuleDefinition>, p: ModuleDefinition -> bool, x: ModuleDefinition)
    requires x in Select(ms, p)
    ensures x in ms
  {
    if x != ms[0] {
      SelectTakes(ms[1..], p, x);
    }
  }

  /** The filling loop over a set of active ids computes the kernel's filling. */
  method WeightedFillInPython(start: Amounts, caps: Amounts, weights: Weights, budget: int,
                              ghost ms: seq<ModuleDefinition>)
    returns (current: Amounts, remaining: int)
    requires ValidModules(ms) && WeighsAs(weights, ms)
    requires forall id :: id in caps <==> HasId(ms, id)
    ensures (current, remaining) == FilledTo(ms, caps, start, budget)
  {
    current, remaining := start, budget;
    var active := set id | id in caps && Of(current, id) < Of(caps, id);
    ghost var modules := Unfilled(ms, caps, current);
    UnfilledIsActive(ms, caps, current);
    while remaining > 0 && active != {}
      invariant Fillable(modules, caps, current) && Sorted(modules, ById) && IsActive(modules, active)
      invariant WeighsAs(weights, modules)
      invariant FilledTo(ms, caps, start, budget) == Fill(modules, caps, current, remaining)
      decreases remaining
    {
      hide FillPass, Claimants, Retain, SortedIds, FilledTo;
      var ids := SortedIds(active);
      IdsOfSorted(modules, active);
      NoneActive(modules, active);
      var total := SumWeights(ids, weights, modules);
      var round := remaining;
      PassSpends(Claimants(modules, round), 0, caps, current, round);
      ClaimantsAreOpen(modules, caps, current, round);
      var after, left, progressed := FillPassInPython(ids, caps, weights, total, current, round, modules);
      ActiveAfter(modules, active, caps, after);
      RetainedAreThere(modules, caps, after);
      current, remaining := after, left;
      active := set id | id in active && Of(current, id) < Of(caps, id);
      modules := Retain(modules, caps, after);
      if progressed == 0 {
        break;
      }
    }
    NoneActive(modules, active);
  }

  lemma RetainedAreThere(active: seq<ModuleDefinition>, caps: Amounts, after: Amounts)
    requires DistinctIds(active) && PositiveWeights(active)
    ensures forall m | m in Retain(active, caps, after) :: m in active
  {
    SelectIsFilter(active, IsUnfilled(caps, after));
  }

  lemma UnfilledIsActive(ms: seq<ModuleDefinition>, caps: Amounts, current: Amounts)
    requires ValidModules(ms) && forall id :: id in caps <==> HasId(ms, id)
    ensures IsActive(Unfilled(ms, caps, current), set id | id in caps && Of(current, id) < Of(caps, id))
  {
    var active := Unfilled(ms, caps, current);
    forall x ensures x in (set id | id in caps && Of(current, id) < Of(caps, id)) <==> HasId(active, x) {
      if x in caps && Of(current, x) < Of(caps, x) {
        var m :| m in ms && m.id == x;
        assert m in active;
      }
    }
  }

  // ----- Dictionaries over the modules -----

  lemma SameAmounts(ms: seq<ModuleDefinition>, a: Amounts, b: Amounts)
    requires forall id :: id in a <==> HasId(ms, id)
    requires forall id :: id in b <==> HasId(ms, id)
    requires forall m | m in ms :: Of(a, m.id) == Of(b, m.id)
    ensures a == b
  {
    forall id ensures id in a <==> id in b {
      assert id in a <==> HasId(ms, id);
    }
    forall id | id in a ensures a[id] == b[id] {
      assert HasId(ms, id);
      var m :| m in ms && m.id == id;
      assert Of(a, m.id) == Of(b, m.id);
    }
  }

  lemma HasIdOfMore(ms: seq<ModuleDefinition>, i: nat)
    requires i < |ms|
    ensures forall id :: HasId(ms[..i + 1], id) <==> HasId(ms[..i], id) || id == ms[i].id
  {
    var more := ms[..i + 1];
    assert more == ms[..i] + [ms[i]];
    assert forall m :: m in more <==> m in ms[..i] || m == ms[i];
    forall id ensures HasId(more, id) <==> HasId(ms[..i], id) || id == ms[i].id {
      if HasId(more, id) {
        var m :| m in more && m.id == id;
        assert m in ms[..i] || m == ms[i];
      }
      if HasId(ms[..i], id) {
        var m :| m in ms[..i] && m.id == id;
        assert m in more;
      }
      assert ms[i] in more;
    }
  }

  method CappedByDemand(ms: seq<ModuleDefinition>, demands: Amounts, level: Level) returns (dict: Amounts)
    requires DistinctIds(ms)
    ensures dict == DemandCapped(ms, demands, level)
  {
    dict := map[];
    for i := 0 to |ms|
      invariant forall id :: id in dict <==> HasId(ms[..i], id)
      invariant forall m | m in ms[..i] :: Of(dict, m.id) == Min(LevelOf(m, level), Of(demands, m.id))
    {
      HasIdOfMore(ms, i);
      assert forall m | m in ms[..i] :: m.id != ms[i].id;
      dict := dict[ms[i].id := Min(LevelOf(ms[i], level), Of(demands, ms[i].id))];
      assert ms[..i + 1] == ms[..i] + [ms[i]];
    }
    assert ms[..|ms|] == ms;
    DemandCappedFacts(ms, demands, level);
    SameAmounts(ms, dict, DemandCapped(ms, demands, level));
  }

  method WeightsOf(ms: seq<ModuleDefinition>) returns (weights: Weights)
    requires DistinctIds(ms)
    ensures WeighsAs(weights, ms)
  {
    weights := map[];
    for i := 0 to |ms|
      invariant WeighsAs(weights, ms[..i])
    {
      assert forall m | m in ms[..i] :: m.id != ms[i].id;
      assert ms[..i + 1] == ms[..i] + [ms[i]];
      weights := weights[ms[i].id := ms[i].weight];
    }
    assert ms[..|ms|] == ms;
  }

  method SumOfValues(ms: seq<ModuleDefinition>, dict: Amounts) returns (total: int)
    ensures total == Total(ms, dict)
  {
    total := 0;
    for i := 0 to |ms|
      invariant total + Total(ms[i..], dict) == Total(ms, dict)
    {
      assert ms[i..][1..] == ms[i + 1..];
      total := total + Of(dict, ms[i].id);
    }
  }

  // ----- Donors -----

  function CanLend(): ModuleDefinition -> bool {
    (m: ModuleDefinition) => m.canLend
  }

  /** The donor dictionary, zero amounts included, in the order its entries are inserted. */
  method DonorCapacity(ms: seq<ModuleDefinition>, current: Amounts) returns (capacity: seq<Donor>)
    ensures capacity == DonorPool(Select(ms, CanLend()), current)
  {
    capacity := [];
    for i := 0 to |ms|
      invariant capacity + DonorPool(Select(ms[i..], CanLend()), current) == DonorPool(Select(ms, CanLend()), current)
    {
      var m := ms[i];
      assert ms[i..][1..] == ms[i + 1..];
      var rest := Select(ms[i + 1..], CanLend());
      if m.canLend {
        var d := Donor(m.id, Max(0, m.target - Of(current, m.id)));
        assert DonorPool([m] + rest, current) == [d] + DonorPool(rest, current);
        capacity := capacity + [d];
      }
    }
  }

  function InsertDonor(d: Donor, donors: seq<Donor>): seq<Donor> {
    if donors == [] || d.id < donors[0].id then [d] + donors else [donors[0]] + InsertDonor(d, donors[1..])
  }

  /** Python's `sorted` over the items of the donor dictionary. */
  function SortedDonors(donors: seq<Donor>): seq<Donor> {
    if donors == [] then [] else InsertDonor(donors[0], SortedDonors(donors[1..]))
  }

  function Positive(donors: seq<Donor>): seq<Donor> {
    if donors == [] then []
    else (if donors[0].available > 0 then [donors[0]] else []) + Positive(donors[1..])
  }

  lemma PoolOfCons(m: ModuleDefinition, ms: seq<ModuleDefinition>, current: Amounts)
    ensures var pool := DonorPool([m] + ms, current);
            && pool != [] && pool[1..] == DonorPool(ms, current) && pool == [pool[0]] + DonorPool(ms, current)
            && pool[0] == Donor(m.id, Max(m.target - Of(current, m.id), 0))
            && (m.canLend ==> (pool[0].available > 0 <==> CanLendNow(current)(m)))
  {
  }

  lemma {:induction false} InsertedDonor(m: ModuleDefinition, ms: seq<ModuleDefinition>, current: Amounts)
    ensures DonorPool(Insert(m, ms, ById), current) == InsertDonor(DonorPool([m] + ms, current)[0],
                                                                   DonorPool(ms, current))
  {
    hide DonorPool;
    PoolOfCons(m, ms, current);
    if ms != [] {
      PoolOfCons(ms[0], ms[1..], current);
      assert [ms[0]] + ms[1..] == ms;
      if !Before(ById, m, ms[0]) {
        InsertedDonor(m, ms[1..], current);
        PoolOfCons(m, ms[1..], current);
        PoolOfCons(ms[0], Insert(m, ms[1..], ById), current);
      }
    } else {
      NoDonors(current);
    }
  }

  lemma NoDonors(current: Amounts)
    ensures DonorPool([], current) == []
  {
  }

  lemma {:induction false} SortedPool(ms: seq<ModuleDefinition>, current: Amounts)
    ensures SortedDonors(DonorPool(ms, current)) == DonorPool(Sort(ms, ById), current)
  {
    if ms != [] {
      SortedPool(ms[1..], current);
      InsertedDonor(ms[0], Sort(ms[1..], ById), current);
      PoolOfCons(ms[0], ms[1..], current);
      PoolOfCons(ms[0], Sort(ms[1..], ById), current);
      assert [ms[0]] + ms[1..] == ms;
    }
  }

  lemma {:induction false} PositivePool(ms: seq<ModuleDefinition>, current: Amounts)
    requires forall m | m in ms :: m.canLend
    ensures Positive(DonorPool(ms, current)) == DonorPool(Select(ms, CanLendNow(current)), current)
  {
    if ms != [] {
      hide CanLendNow, DonorPool;
      PositivePool(ms[1..], current);
      PoolOfCons(ms[0], ms[1..], current);
      PoolOfCons(ms[0], Select(ms[1..], CanLendNow(current)), current);
      assert [ms[0]] + ms[1..] == ms;
      assert [] + Positive(DonorPool(ms[1..], current)) == Positive(DonorPool(ms[1..], current));
    }
  }

  lemma SelectTwice(ms: seq<ModuleDefinition>, current: Amounts)
    requires DistinctIds(ms)
    ensures Select(Sort(Select(ms, CanLend()), ById), CanLendNow(current)) == Lenders(ms, current)
    ensures forall m | m in Sort(Select(ms, CanLend()), ById) :: m.canLend
  {
    var able, now := CanLend(), CanLendNow(current);
    SelectSortFacts(ms, able, ById);
    SelectSortFacts(ms, now, ById);
    var sorted := Sort(Select(ms, able), ById);
    SelectKeepsSorted(sorted, now, ById);
    forall m ensures multiset(Select(sorted, now))[m] == multiset(Lenders(ms, current))[m] {
      SelectCounts(sorted, now, m);
      SortPermutes(Select(ms, able), ById);
      SelectCounts(ms, able, m);
      SortPermutes(Select(ms, now), ById);
      SelectCounts(ms, now, m);
    }
    SortedIsUnique(Select(sorted, now), Lenders(ms, current), ById);
  }

  /** Sorting the whole dictionary and dropping its zeros leaves the kernel's donors. */
  lemma DonorsAgree(ms: seq<ModuleDefinition>, current: Amounts)
    requires DistinctIds(ms)
    ensures Positive(SortedDonors(DonorPool(Select(ms, CanLend()), current)))
            == DonorPool(Lenders(ms, current), current)
  {
    SortedPool(Select(ms, CanLend()), current);
    SelectTwice(ms, current);
    PositivePool(Sort(Select(ms, CanLend()), ById), current);
  }

  lemma {:induction false} InsertKeepsTotal(d: Donor, donors: seq<Donor>)
    ensures PoolTotal(InsertDonor(d, donors)) == d.available + PoolTotal(donors)
  {
    if donors == [] || d.id < donors[0].id {
      assert ([d] + donors)[1..] == donors;
    } else {
      InsertKeepsTotal(d, donors[1..]);
      assert InsertDonor(d, donors)[1..] == InsertDonor(d, donors[1..]);
    }
  }

  predicate NoneNegative(donors: seq<Donor>) {
    forall k | 0 <= k < |donors| :: donors[k].available >= 0
  }

  lemma {:induction false} SortKeepsTotal(donors: seq<Donor>)
    ensures PoolTotal(SortedDonors(donors)) == PoolTotal(donors)
    ensures NoneNegative(donors) ==> NoneNegative(SortedDonors(donors))
  {
    if donors != [] {
      SortKeepsTotal(donors[1..]);
      InsertKeepsTotal(donors[0], SortedDonors(donors[1..]));
      if NoneNegative(donors) {
        assert NoneNegative(donors[1..]);
        InsertKeepsSign(donors[0], SortedDonors(donors[1..]));
      }
    }
  }

  lemma {:induction false} InsertKeepsSign(d: Donor, donors: seq<Donor>)
    requires d.available >= 0 && NoneNegative(donors)
    ensures NoneNegative(InsertDonor(d, donors))
  {
    if donors != [] && d.id >= donors[0].id {
      assert NoneNegative(donors[1..]);
      InsertKeepsSign(d, donors[1..]);
    }
  }

  lemma {:induction false} PositiveKeepsTotal(donors: seq<Donor>)
    requires NoneNegative(donors)
    ensures PoolTotal(Positive(donors)) == PoolTotal(donors)
  {
    if donors != [] {
      assert NoneNegative(donors[1..]);
      PositiveKeepsTotal(donors[1..]);
      assert ([donors[0]] + Positive(donors[1..]))[1..] == Positive(donors[1..]);
      assert [] + Positive(donors[1..]) == Positive(donors[1..]);
    }
  }

  /** Zero entries add nothing to the sum that decides the shared slack. */
  lemma CapacityIsPool(ms: seq<ModuleDefinition>, current: Amounts)
    requires DistinctIds(ms)
    ensures PoolTotal(DonorPool(Select(ms, CanLend()), current)) == PoolTotal(DonorPool(Lenders(ms, current), current))
  {
    var capacity := DonorPool(Select(ms, CanLend()), current);
    SortKeepsTotal(capacity);
    PositiveKeepsTotal(SortedDonors(capacity));
    DonorsAgree(ms, current);
  }

  // ----- Leases -----

  /** One borrower's turn, over the dictionaries and the donor list. */
  method SettleInPython(b: ModuleDefinition, demands: Amounts, start: Ledger) returns (s: Ledger)
    ensures s == SettleBorrower(b, demands, start)
  {
    hide Algorithms, Post, Of;
    var current, borrowedBy, lentBy := start.current, start.borrowed, start.lent;
    var donors, slack, remaining, leases := start.donors, start.slack, start.remaining, start.leases;
    var need := Min(Of(demands, b.id), b.max) - Of(current, b.id);
    ghost var need0 := need;
    var k := 0;
    while k < |donors|
      invariant 0 <= k <= |donors|
      invariant LendFrom(b, 0, need0, start)
                == LendFrom(b, k, need, Ledger(current, borrowedBy, lentBy, donors, slack, remaining, leases))
      decreases |donors| - k
    {
      if need <= 0 || remaining <= 0 {
        break;
      }
      var donor := donors[k];
      if donor.id != b.id && donor.available > 0 {
        var grant := Min(Min(need, donor.available), remaining);
        if grant > 0 {
          donors := donors[k := Donor(donor.id, donor.available - grant)];
          remaining := remaining - grant;
          need := need - grant;
          current := Post(current, b.id, grant);
          borrowedBy := Post(borrowedBy, b.id, grant);
          lentBy := Post(lentBy, donor.id, grant);
          leases := leases + [Lease(FromModule(donor.id), b.id, grant, Algorithms(b.pipeline))];
        }
      }
      k := k + 1;
    }
    if need > 0 && slack > 0 && remaining > 0 {
      var grant := Min(Min(need, slack), remaining);
      slack := slack - grant;
      remaining := remaining - grant;
      current := Post(current, b.id, grant);
      borrowedBy := Post(borrowedBy, b.id, grant);
      leases := leases + [Lease(ArenaSlack, b.id, grant, Algorithms(b.pipeline))];
    }
    s := Ledger(current, borrowedBy, lentBy, donors, slack, remaining, leases);
  }

  /** From the donor dictionary to the settled books. */
  method LeaseOutInPython(ms: seq<ModuleDefinition>, demands: Amounts, filled: Amounts, left: int) returns (s: Ledger)
    requires DistinctIds(ms)
    ensures s == LeasesAfter(ms, demands, (filled, left))
  {
    hide Sort, Select, SortedDonors, Positive, DonorPool, SettleBorrower;
    var capacity := DonorCapacity(ms, filled);
    CapacityIsPool(ms, filled);
    DonorsAgree(ms, filled);
    var slack := Max(0, left - PoolTotal(capacity));
    var donors := Positive(SortedDonors(capacity));
    var borrowers := Borrowers(ms, demands, filled);
    s := Ledger(filled, map[], map[], donors, slack, left, []);
    assert s == OpenLedger(ms, filled, left);
    for i := 0 to |borrowers|
      invariant LeasesAfter(ms, demands, (filled, left)) == SettleFrom(borrowers, i, demands, s)
    {
      s := SettleInPython(borrowers[i], demands, s);
    }
  }

  method RowsInPython(ms: seq<ModuleDefinition>, demands: Amounts, s: Ledger) returns (rows: seq<ModuleAllocation>)
    ensures rows == Rows(ms, demands, s)
  {
    rows := [];
    var sorted := Sort(ms, ByLayout);
    for i := 0 to |sorted|
      invariant |rows| == i && forall k | 0 <= k < i :: rows[k] == Row(sorted[k], demands, s)
    {
      var m := sorted[i];
      var borrowed := Of(s.borrowed, m.id);
      rows := rows + [ModuleAllocation(m.id, m.floor, m.target, m.max, Of(demands, m.id), Of(s.current, m.id),
                                       Max(0, Of(s.current, m.id) - borrowed), borrowed, Of(s.lent, m.id))];
    }
  }

  /**
   Python's allocator: the same steps without the floor check, and the remainder reported. It
   returns what the kernel's allocator returns exactly when the floors fit.
   */
  method AllocateInPython(d: ArenaDefinition, demands: Amounts, inputBudget: int)
    returns (a: Allocated, unallocated: int)
    requires ValidModules(d.modules)
    ensures var s := Settled(d.modules, demands, inputBudget - d.frameworkReserve);
            a == Published(d.modules, demands, s) && unallocated == s.remaining
    ensures Allocation(d, demands, inputBudget) == Ok(a)
            <==> FloorsFit(d.modules, demands, inputBudget - d.frameworkReserve)
  {
    hide LeasesAfter, FilledTo, Rows, DemandCapped, ValidModule;
    var available := inputBudget - d.frameworkReserve;
    var current := CappedByDemand(d.modules, demands, Floor);
    var total := SumOfValues(d.modules, current);
    var weights := WeightsOf(d.modules);
    var caps := CappedByDemand(d.modules, demands, Target);
    DemandCappedFacts(d.modules, demands, Target);
    var filled, left := WeightedFillInPython(current, caps, weights, available - total, d.modules);
    var s := LeaseOutInPython(d.modules, demands, filled, left);
    var rows := RowsInPython(d.modules, demands, s);
    a, unallocated := Allocated(rows, s.leases), s.remaining;
  }

  lemma OverspentFloors(ms: seq<ModuleDefinition>, demands: Amounts, available: int)
    requires ValidModules(ms) && !FloorsFit(ms, demands, available)
    ensures var s := Settled(ms, demands, available);
            && s.current == DemandCapped(ms, demands, Floor) && s.leases == []
            && Total(ms, s.current) + s.remaining == available
  {
    hide SettleFrom, Borrowers, Lenders;
    var floors := DemandCapped(ms, demands, Floor);
    var s := OpenLedger(ms, floors, available - Total(ms, floors));
    SettleFromNothing(Borrowers(ms, demands, floors), 0, demands, s);
  }

  /**
   What Python's result means. If the floors fit, nothing is left over unless everyone has all
   they are eligible for; if not, the kernel refuses while Python grants the bare floors, no
   leases, and reports the overdraft as a negative remainder.
   */
  lemma RemainderMeans(d: ArenaDefinition, demands: Amounts, inputBudget: int)
    requires ValidModules(d.modules) && NonNegative(d.modules, demands)
    ensures var ms, available := d.modules, inputBudget - d.frameworkReserve;
            var s := Settled(ms, demands, available);
            && GrantedTotal(Published(ms, demands, s).rows) + s.remaining == available
            && (FloorsFit(ms, demands, available) ==>
                  s.remaining >= 0 && (s.remaining > 0 ==> Total(ms, s.current) == EligibleTotal(ms, demands)))
            && (!FloorsFit(ms, demands, available) ==>
                  && s.remaining < 0 && s.leases == [] && s.current == DemandCapped(ms, demands, Floor)
                  && Allocation(d, demands, inputBudget) == Err(FloorsExceedBudget))
  {
    hide ValidModules, NonNegative, Settled, Rows, GrantedTotal, EligibleTotal, DemandCapped, Total;
    var ms, available := d.modules, inputBudget - d.frameworkReserve;
    RowsTotal(ms, demands, Settled(ms, demands, available));
    if FloorsFit(ms, demands, available) {
      SettledConserves(ms, demands, available);
    } else {
      OverspentFloors(ms, demands, available);
    }
  }

  /** A floor of one token, demanded, and nothing available: the kernel refuses what Python overdraws. */
  lemma FloorsCanOverspend()
    ensures var m := ModuleDefinition(0, 1, 1, 1, 0, 1.0, false, false, false, []);
            var d := ArenaDefinition([m], 0);
            && ValidDefinition(d) && !FloorsFit(d.modules, map[0 := 1], 0)
            && Allocation(d, map[0 := 1], 0) == Err(FloorsExceedBudget)
            && Settled(d.modules, map[0 := 1], 0).remaining == -1
  {
    var m := ModuleDefinition(0, 1, 1, 1, 0, 1.0, false, false, false, []);
    var ms, demands: Amounts := [m], map[0 := 1];
    assert ms[0] == m && ms[1..] == [];
    assert DemandCapped(ms[1..], demands, Floor) == map[];
    assert DemandCapped(ms, demands, Floor) == map[0 := 1];
    assert Total(ms[1..], map[0 := 1]) == 0;
    assert Total(ms, map[0 := 1]) == 1;
    hide Settled, DemandCapped;
    OverspentFloors(ms, demands, 0);
  }
}
