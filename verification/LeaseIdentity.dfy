/** Which leases an allocation can contain: at most one per (donor, borrower), each releasable. */
module LeaseIdentity {
  import opened Basics
  import opened Layout
  import opened Filling
  import opened Leasing
  import opened Bookkeeping
  import opened Allocations

  /** The borrower's leases so far come from donors before position `k` of the pool. */
  predicate LentBefore(s: Ledger, b: ModuleId, k: nat) {
    forall i | 0 <= i < |s.leases| && s.leases[i].borrower == b ::
      s.leases[i].donor.FromModule? && forall j | k <= j < |s.donors| :: s.donors[j].id != s.leases[i].donor.id
  }

  predicate LedgerDonorsDistinct(s: Ledger) {
    forall i, j | 0 <= i < j < |s.donors| :: s.donors[i].id != s.donors[j].id
  }

  /** What one visit adds: leases to `b` from modules, after those already there. */
  predicate ExtendedBy(s: Ledger, after: Ledger, b: ModuleId) {
    && s.leases <= after.leases
    && forall i | |s.leases| <= i < |after.leases| :: after.leases[i].borrower == b && after.leases[i].donor.FromModule?
  }

  lemma GrantIsUnique(b: ModuleDefinition, k: nat, s: Ledger, grant: int)
    requires DistinctKeys(s.leases) && LentBefore(s, b.id, k) && LedgerDonorsDistinct(s) && k < |s.donors|
    ensures var next := GrantFromDonor(s, k, b, grant);
            && DistinctKeys(next.leases) && LentBefore(next, b.id, k + 1) && LedgerDonorsDistinct(next)
            && ExtendedBy(s, next, b.id) && |next.donors| == |s.donors|
  {
    hide Algorithms, Post;
    var next := GrantFromDonor(s, k, b, grant);
    assert forall j | 0 <= j < |s.donors| :: next.donors[j].id == s.donors[j].id;
  }

  lemma ExtendedTwice(s: Ledger, mid: Ledger, after: Ledger, b: ModuleId)
    requires ExtendedBy(s, mid, b) && ExtendedBy(mid, after, b)
    ensures ExtendedBy(s, after, b)
  {
    assert after.leases[..|mid.leases|] == mid.leases;
  }

  lemma {:induction false} LendFromUnique(b: ModuleDefinition, k: nat, need: int, s: Ledger)
    requires DistinctKeys(s.leases) && LentBefore(s, b.id, k) && LedgerDonorsDistinct(s)
    ensures var after := LendFrom(b, k, need, s).1;
            DistinctKeys(after.leases) && LedgerDonorsDistinct(after) && ExtendedBy(s, after, b.id)
    decreases |s.donors| - k
  {
    hide GrantFromDonor, DistinctKeys, LedgerDonorsDistinct;
    if k < |s.donors| && need > 0 && s.remaining > 0 {
      if s.donors[k].id == b.id || s.donors[k].available <= 0 {
        LendFromUnique(b, k + 1, need, s);
      } else {
        var grant := Min(Min(need, s.donors[k].available), s.remaining);
        var next := GrantFromDonor(s, k, b, grant);
        GrantIsUnique(b, k, s, grant);
        LendFromUnique(b, k + 1, need - grant, next);
        ExtendedTwice(s, next, LendFrom(b, k + 1, need - grant, next).1, b.id);
      }
    }
  }

  /** No lease yet has a borrower from position `i` of the priority order on. */
  predicate NotYetBorrowing(s: Ledger, bs: seq<ModuleDefinition>, i: nat) {
    forall l, j | 0 <= l < |s.leases| && i <= j < |bs| :: s.leases[l].borrower != bs[j].id
  }

  lemma SettleBorrowerUnique(bs: seq<ModuleDefinition>, i: nat, demands: Amounts, s: Ledger)
    requires i < |bs| && DistinctIds(bs)
    requires DistinctKeys(s.leases) && LedgerDonorsDistinct(s) && NotYetBorrowing(s, bs, i)
    ensures var after := SettleBorrower(bs[i], demands, s);
            DistinctKeys(after.leases) && LedgerDonorsDistinct(after) && NotYetBorrowing(after, bs, i + 1)
  {
    var b := bs[i];
    var need := Ceiling(b, demands) - Of(s.current, b.id);
    LendFromUnique(b, 0, need, s);
    var mid := LendFrom(b, 0, need, s).1;
    forall l, j | 0 <= l < |mid.leases| && i + 1 <= j < |bs| ensures mid.leases[l].borrower != bs[j].id {
      if l < |s.leases| {
        assert mid.leases[l] == mid.leases[..|s.leases|][l];
      }
    }
  }

  lemma {:induction false} SettleFromUnique(bs: seq<ModuleDefinition>, i: nat, demands: Amounts, s: Ledger)
    requires DistinctIds(bs)
    requires DistinctKeys(s.leases) && LedgerDonorsDistinct(s) && NotYetBorrowing(s, bs, i)
    ensures DistinctKeys(SettleFrom(bs, i, demands, s).leases)
    decreases |bs| - i
  {
    if i < |bs| {
      SettleBorrowerUnique(bs, i, demands, s);
      SettleFromUnique(bs, i + 1, demands, SettleBorrower(bs[i], demands, s));
    }
  }

  /** A (donor, borrower) pair names at most one lease of an allocation. */
  lemma LeaseKeysAreUnique(d: ArenaDefinition, demands: Amounts, inputBudget: int)
    requires ValidModules(d.modules)
    ensures var a := Allocation(d, demands, inputBudget);
            a.Ok? ==> DistinctKeys(a.value.leases)
  {
    hide Filled, SettleFrom, Rows;
    var filled := Filled(d.modules, demands, inputBudget - d.frameworkReserve);
    BorrowerFacts(d.modules, demands, filled.0);
    PoolFacts(d.modules, filled.0);
    SettleFromUnique(Borrowers(d.modules, demands, filled.0), 0, demands,
                     OpenLedger(d.modules, filled.0, filled.1));
  }

  // ----- Every lease can be released -----

  /** A positive grant to one of the borrowers, with that borrower's release pipeline. */
  predicate GrantedTo(bs: seq<ModuleDefinition>, l: Lease) {
    l.granted > 0
    && exists b | b in bs :: l.borrower == b.id && l.releasePipeline == Algorithms(b.pipeline)
  }

  predicate AllGrantedTo(bs: seq<ModuleDefinition>, leases: seq<Lease>) {
    forall i | 0 <= i < |leases| :: GrantedTo(bs, leases[i])
  }

  lemma {:induction false} LendFromGrants(bs: seq<ModuleDefinition>, b: ModuleDefinition, k: nat, need: int, s: Ledger)
    requires b in bs && AllGrantedTo(bs, s.leases)
    ensures AllGrantedTo(bs, LendFrom(b, k, need, s).1.leases)
    decreases |s.donors| - k
  {
    if k < |s.donors| && need > 0 && s.remaining > 0 {
      if s.donors[k].id == b.id || s.donors[k].available <= 0 {
        LendFromGrants(bs, b, k + 1, need, s);
      } else {
        var grant := Min(Min(need, s.donors[k].available), s.remaining);
        var next := GrantFromDonor(s, k, b, grant);
        assert GrantedTo(bs, next.leases[|s.leases|]);
        LendFromGrants(bs, b, k + 1, need - grant, next);
      }
    }
  }

  lemma SettleBorrowerGrants(bs: seq<ModuleDefinition>, b: ModuleDefinition, demands: Amounts, s: Ledger)
    requires b in bs && AllGrantedTo(bs, s.leases)
    ensures AllGrantedTo(bs, SettleBorrower(b, demands, s).leases)
  {
    var (need, mid) := LendFrom(b, 0, Ceiling(b, demands) - Of(s.current, b.id), s);
    LendFromGrants(bs, b, 0, Ceiling(b, demands) - Of(s.current, b.id), s);
    if need > 0 && mid.slack > 0 && mid.remaining > 0 {
      assert GrantedTo(bs, TopUp(b, need, mid).leases[|mid.leases|]);
    }
  }

  lemma {:induction false} SettleFromGrants(bs: seq<ModuleDefinition>, i: nat, demands: Amounts, s: Ledger)
    requires AllGrantedTo(bs, s.leases)
    ensures AllGrantedTo(bs, SettleFrom(bs, i, demands, s).leases)
    decreases |bs| - i
  {
    if i < |bs| {
      SettleBorrowerGrants(bs, bs[i], demands, s);
      SettleFromGrants(bs, i + 1, demands, SettleBorrower(bs[i], demands, s));
    }
  }

  predicate NamesSteps(names: seq<Algorithm>, steps: seq<Step>) {
    |names| == |steps| && forall i | 0 <= i < |steps| :: names[i] == steps[i].algorithm
  }

  /** The central rule: a lease is a positive grant whose borrower registered how to release it. */
  predicate Releasable(ms: seq<ModuleDefinition>, l: Lease) {
    l.granted > 0 && l.releasePipeline != []
    && exists m | m in ms :: m.id == l.borrower && m.canBorrow && NamesSteps(l.releasePipeline, m.pipeline)
  }

  lemma LeasesAreReleasable(d: ArenaDefinition, demands: Amounts, inputBudget: int)
    requires ValidModules(d.modules) && NonNegative(d.modules, demands)
    ensures var a := Allocation(d, demands, inputBudget);
            a.Ok? ==> forall l | l in a.value.leases :: Releasable(d.modules, l)
  {
    var ms, available := d.modules, inputBudget - d.frameworkReserve;
    hide Filled, SettleFrom, Rows, Borrowers;
    if FloorsFit(ms, demands, available) {
      var o, s := Start(ms, demands, available), Settled(ms, demands, available);
      var bs := Borrowers(ms, demands, o.base);
      FilledPosition(ms, demands, available);
      BorrowerFacts(ms, demands, o.base);
      SettleFromGrants(bs, 0, demands, OpenLedger(ms, o.base, o.pot));
      if o.pot == 0 {
        SettleFromNothing(bs, 0, demands, OpenLedger(ms, o.base, o.pot));
      }
      forall l | l in s.leases ensures Releasable(ms, l) {
        assert GrantedTo(bs, l);
        var b :| b in bs && l.borrower == b.id && l.releasePipeline == Algorithms(b.pipeline);
        assert b.max > b.target && b.pipeline != [];
        assert b in ms && b.id == l.borrower && b.canBorrow;
      }
    }
  }

  // ----- Independence of the declaration order -----

  lemma DemandCappedOfPermutation(xs: seq<ModuleDefinition>, ys: seq<ModuleDefinition>, demands: Amounts, level: Level)
    requires multiset(xs) == multiset(ys) && DistinctIds(xs)
    ensures DemandCapped(xs, demands, level) == DemandCapped(ys, demands, level)
  {
    PermutationDistinct(xs, ys);
    SameMembers(xs, ys);
    DemandCappedFacts(xs, demands, level);
    DemandCappedFacts(ys, demands, level);
    var a, b := DemandCapped(xs, demands, level), DemandCapped(ys, demands, level);
    forall id ensures id in a <==> id in b {
      assert HasId(xs, id) <==> HasId(ys, id);
    }
    forall id | id in a ensures a[id] == b[id] {
      var m :| m in xs && m.id == id;
      assert Of(a, m.id) == Of(b, m.id);
    }
  }

  lemma PermutationValid(xs: seq<ModuleDefinition>, ys: seq<ModuleDefinition>)
    requires multiset(xs) == multiset(ys) && ValidModules(xs)
    ensures ValidModules(ys)
  {
    PermutationDistinct(xs, ys);
    SameMembers(xs, ys);
  }

  lemma FilledOfPermutation(xs: seq<ModuleDefinition>, ys: seq<ModuleDefinition>, demands: Amounts, available: int)
    requires multiset(xs) == multiset(ys) && ValidModules(xs) && ValidModules(ys)
    ensures Filled(xs, demands, available) == Filled(ys, demands, available)
  {
    hide Fill, Sort, Select, DemandCapped, Total;
    DemandCappedOfPermutation(xs, ys, demands, Floor);
    DemandCappedOfPermutation(xs, ys, demands, Target);
    var floors, caps := DemandCapped(xs, demands, Floor), DemandCapped(xs, demands, Target);
    TotalOfPermutation(xs, ys, floors);
    SelectSortOfPermutation(xs, ys, IsUnfilled(caps, floors), ById);
  }

  lemma LeasesOfPermutation(xs: seq<ModuleDefinition>, ys: seq<ModuleDefinition>, demands: Amounts,
                            filled: (Amounts, int))
    requires multiset(xs) == multiset(ys) && DistinctIds(xs)
    ensures LeasesAfter(xs, demands, filled) == LeasesAfter(ys, demands, filled)
  {
    hide SettleFrom, Sort, Select, DonorPool;
    SelectSortOfPermutation(xs, ys, CanLendNow(filled.0), ById);
    SelectSortOfPermutation(xs, ys, MayBorrow(demands, filled.0), ByPriority);
  }

  lemma RowsOfPermutation(xs: seq<ModuleDefinition>, ys: seq<ModuleDefinition>, demands: Amounts, s: Ledger)
    requires multiset(xs) == multiset(ys) && DistinctIds(xs)
    ensures Rows(xs, demands, s) == Rows(ys, demands, s)
  {
    SortOfPermutation(xs, ys, ByLayout);
  }

  /** Reordering the declared modules changes neither an allocation nor a lease. */
  lemma DeclarationOrderIsIrrelevant(d: ArenaDefinition, d': ArenaDefinition, demands: Amounts, inputBudget: int)
    requires ValidModules(d.modules) && multiset(d.modules) == multiset(d'.modules)
    requires d.frameworkReserve == d'.frameworkReserve
    ensures ValidModules(d'.modules)
    ensures Allocation(d, demands, inputBudget) == Allocation(d', demands, inputBudget)
  {
    hide ValidModule, Filled, LeasesAfter, Rows, DemandCapped, Total;
    PermutationValid(d.modules, d'.modules);
    var xs, ys, available := d.modules, d'.modules, inputBudget - d.frameworkReserve;
    DemandCappedOfPermutation(xs, ys, demands, Floor);
    TotalOfPermutation(xs, ys, DemandCapped(xs, demands, Floor));
    FilledOfPermutation(xs, ys, demands, available);
    LeasesOfPermutation(xs, ys, demands, Filled(xs, demands, available));
    RowsOfPermutation(xs, ys, demands, Settled(xs, demands, available));
  }
}
