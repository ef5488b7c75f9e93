/**
 The budget allocator: floors, then weighted targets, then leases from donors with unused target
 and from the arena's shared slack.
 */
module Leasing {
  import opened Basics
  import opened Layout
  import opened Filling

  /** Who lends: a module, or the arena's own slack. */
  datatype Source = FromModule(id: ModuleId) | ArenaSlack

  datatype Lease = Lease(donor: Source, borrower: ModuleId, granted: int, releasePipeline: seq<Algorithm>)

  /** What identifies a lease within one allocation, and one arena. */
  datatype LeaseKey = LeaseKey(donor: Source, borrower: ModuleId)

  function KeyOf(l: Lease): LeaseKey {
    LeaseKey(l.donor, l.borrower)
  }

  predicate DistinctKeys(leases: seq<Lease>) {
    forall i, j | 0 <= i < j < |leases| :: KeyOf(leases[i]) != KeyOf(leases[j])
  }

  datatype Donor = Donor(id: ModuleId, available: int)

  /** The allocator's working state while leases are granted. */
  datatype Ledger = Ledger(
    current: Amounts, borrowed: Amounts, lent: Amounts,
    donors: seq<Donor>, slack: int, remaining: int, leases: seq<Lease>)

  datatype ModuleAllocation = ModuleAllocation(
    id: ModuleId, floor: int, target: int, max: int, demanded: int,
    granted: int, local: int, borrowed: int, lent: int)

  datatype Allocated = Allocated(rows: seq<ModuleAllocation>, leases: seq<Lease>)

  datatype AllocationError = FloorsExceedBudget

  // ----- Opening positions -----

  datatype Level = Floor | Target

  function LevelOf(m: ModuleDefinition, level: Level): int {
    match level
    case Floor => m.floor
    case Target => m.target
  }

  /** Every module's floor, or target, as far as it has demand for it. */
  function DemandCapped(ms: seq<ModuleDefinition>, demands: Amounts, level: Level): Amounts {
    if ms == [] then map[]
    else DemandCapped(ms[1..], demands, level)[ms[0].id := Min(LevelOf(ms[0], level), Of(demands, ms[0].id))]
  }

  lemma {:induction false} DemandCappedFacts(ms: seq<ModuleDefinition>, demands: Amounts, level: Level)
    requires DistinctIds(ms)
    ensures forall id :: id in DemandCapped(ms, demands, level) <==> HasId(ms, id)
    ensures forall m | m in ms ::
              Of(DemandCapped(ms, demands, level), m.id) == Min(LevelOf(m, level), Of(demands, m.id))
  {
    if ms != [] {
      TailIsDistinct(ms);
      DemandCappedFacts(ms[1..], demands, level);
      assert forall m :: m in ms <==> m == ms[0] || m in ms[1..];
    }
  }

  function CanLendNow(current: Amounts): ModuleDefinition -> bool {
    (m: ModuleDefinition) => m.canLend && Max(m.target - Of(current, m.id), 0) > 0
  }

  function Lenders(ms: seq<ModuleDefinition>, current: Amounts): seq<ModuleDefinition> {
    Sort(Select(ms, CanLendNow(current)), ById)
  }

  function DonorPool(lenders: seq<ModuleDefinition>, current: Amounts): seq<Donor> {
    seq(|lenders|, i requires 0 <= i < |lenders| =>
      Donor(lenders[i].id, Max(lenders[i].target - Of(current, lenders[i].id), 0)))
  }

  function PoolTotal(donors: seq<Donor>): int {
    if donors == [] then 0 else donors[0].available + PoolTotal(donors[1..])
  }

  function MayBorrow(demands: Amounts, current: Amounts): ModuleDefinition -> bool {
    (m: ModuleDefinition) => m.canBorrow && Of(demands, m.id) > m.target && Of(current, m.id) < m.max
  }

  function Borrowers(ms: seq<ModuleDefinition>, demands: Amounts, current: Amounts): seq<ModuleDefinition> {
    Sort(Select(ms, MayBorrow(demands, current)), ByPriority)
  }

  /** The most a borrower may reach. */
  function Ceiling(m: ModuleDefinition, demands: Amounts): int {
    Min(Of(demands, m.id), m.max)
  }

  function Algorithms(steps: seq<Step>): seq<Algorithm> {
    seq(|steps|, i requires 0 <= i < |steps| => steps[i].algorithm)
  }

  function OpenLedger(ms: seq<ModuleDefinition>, current: Amounts, remaining: int): Ledger {
    var donors := DonorPool(Lenders(ms, current), current);
    Ledger(current, map[], map[], donors, Max(remaining - PoolTotal(donors), 0), remaining, [])
  }

  // ----- Granting -----

  function GrantFromDonor(s: Ledger, k: nat, b: ModuleDefinition, grant: int): Ledger
    requires k < |s.donors|
  {
    var d := s.donors[k];
    Ledger(Post(s.current, b.id, grant), Post(s.borrowed, b.id, grant), Post(s.lent, d.id, grant),
           s.donors[k := Donor(d.id, d.available - grant)], s.slack, s.remaining - grant,
           s.leases + [Lease(FromModule(d.id), b.id, grant, Algorithms(b.pipeline))])
  }

  function GrantFromSlack(s: Ledger, b: ModuleDefinition, grant: int): Ledger {
    Ledger(Post(s.current, b.id, grant), Post(s.borrowed, b.id, grant), s.lent,
           s.donors, s.slack - grant, s.remaining - grant,
           s.leases + [Lease(ArenaSlack, b.id, grant, Algorithms(b.pipeline))])
  }

  /** Lending to `b` from donor `k` on: the need left over, and the books after it. */
  function LendFrom(b: ModuleDefinition, k: nat, need: int, s: Ledger): (int, Ledger)
    decreases |s.donors| - k
  {
    if k >= |s.donors| || need <= 0 || s.remaining <= 0 then (need, s)
    else if s.donors[k].id == b.id || s.donors[k].available <= 0 then LendFrom(b, k + 1, need, s)
    else
      var grant := Min(Min(need, s.donors[k].available), s.remaining);
      LendFrom(b, k + 1, need - grant, GrantFromDonor(s, k, b, grant))
  }

  function TopUp(b: ModuleDefinition, need: int, s: Ledger): Ledger {
    if need > 0 && s.slack > 0 && s.remaining > 0
    then GrantFromSlack(s, b, Min(Min(need, s.slack), s.remaining))
    else s
  }

  function SettleBorrower(b: ModuleDefinition, demands: Amounts, s: Ledger): Ledger {
    var (need, s') := LendFrom(b, 0, Ceiling(b, demands) - Of(s.current, b.id), s);
    TopUp(b, need, s')
  }

  function SettleFrom(bs: seq<ModuleDefinition>, i: nat, demands: Amounts, s: Ledger): Ledger
    decreases |bs| - i
  {
    if i >= |bs| then s else SettleFrom(bs, i + 1, demands, SettleBorrower(bs[i], demands, s))
  }

  // ----- The allocator -----

  function Filled(ms: seq<ModuleDefinition>, demands: Amounts, available: int): (Amounts, int)
    requires ValidModules(ms)
  {
    var floors := DemandCapped(ms, demands, Floor);
    FilledTo(ms, DemandCapped(ms, demands, Target), floors, available - Total(ms, floors))
  }

  function LeasesAfter(ms: seq<ModuleDefinition>, demands: Amounts, filled: (Amounts, int)): Ledger {
    SettleFrom(Borrowers(ms, demands, filled.0), 0, demands, OpenLedger(ms, filled.0, filled.1))
  }

  /** The books once every borrower is settled. */
  function Settled(ms: seq<ModuleDefinition>, demands: Amounts, available: int): Ledger
    requires ValidModules(ms)
  {
    LeasesAfter(ms, demands, Filled(ms, demands, available))
  }

  function Row(m: ModuleDefinition, demands: Amounts, s: Ledger): ModuleAllocation {
    ModuleAllocation(m.id, m.floor, m.target, m.max, Of(demands, m.id), Of(s.current, m.id),
                     Max(Of(s.current, m.id) - Of(s.borrowed, m.id), 0),
                     Of(s.borrowed, m.id), Of(s.lent, m.id))
  }

  /** The published rows, in layout order. */
  function Rows(ms: seq<ModuleDefinition>, demands: Amounts, s: Ledger): seq<ModuleAllocation> {
    var sorted := Sort(ms, ByLayout);
    seq(|sorted|, i requires 0 <= i < |sorted| => Row(sorted[i], demands, s))
  }

  function Published(ms: seq<ModuleDefinition>, demands: Amounts, s: Ledger): Allocated {
    Allocated(Rows(ms, demands, s), s.leases)
  }

  function Allocation(d: ArenaDefinition, demands: Amounts, inputBudget: int): Result<Allocated, AllocationError>
    requires ValidModules(d.modules)
  {
    var available := inputBudget - d.frameworkReserve;
    if available - Total(d.modules, DemandCapped(d.modules, demands, Floor)) < 0 then Err(FloorsExceedBudget)
    else Ok(Published(d.modules, demands, Settled(d.modules, demands, available)))
  }

  method SettleOne(b: ModuleDefinition, demands: Amounts, start: Ledger) returns (s: Ledger)
    ensures s == SettleBorrower(b, demands, start)
  {
    s := start;
    var need := Ceiling(b, demands) - Of(s.current, b.id);
    var k := 0;
    while k < |s.donors|
      invariant 0 <= k <= |s.donors|
      invariant LendFrom(b, 0, Ceiling(b, demands) - Of(start.current, b.id), start) == LendFrom(b, k, need, s)
      decreases |s.donors| - k
    {
      if need <= 0 || s.remaining <= 0 {
        break;
      }
      if s.donors[k].id == b.id || s.donors[k].available <= 0 {
        k := k + 1;
        continue;
      }
      var grant := Min(Min(need, s.donors[k].available), s.remaining);
      s := GrantFromDonor(s, k, b, grant);
      need := need - grant;
      k := k + 1;
    }
    if need > 0 && s.slack > 0 && s.remaining > 0 {
      var grant := Min(Min(need, s.slack), s.remaining);
      s := GrantFromSlack(s, b, grant);
    }
  }

  method SettleAll(borrowers: seq<ModuleDefinition>, demands: Amounts, start: Ledger) returns (s: Ledger)
    ensures s == SettleFrom(borrowers, 0, demands, start)
  {
    s := start;
    for i := 0 to |borrowers|
      invariant SettleFrom(borrowers, 0, demands, start) == SettleFrom(borrowers, i, demands, s)
    {
      s := SettleOne(borrowers[i], demands, s);
    }
  }

  method LeaseOut(ms: seq<ModuleDefinition>, demands: Amounts, filled: Amounts, left: int) returns (s: Ledger)
    ensures s == LeasesAfter(ms, demands, (filled, left))
  {
    var borrowers := Borrowers(ms, demands, filled);
    s := SettleAll(borrowers, demands, OpenLedger(ms, filled, left));
  }

  method FillTargets(ms: seq<ModuleDefinition>, demands: Amounts, floors: Amounts, available: int)
    returns (current: Amounts, remaining: int)
    requires ValidModules(ms) && floors == DemandCapped(ms, demands, Floor)
    ensures (current, remaining) == Filled(ms, demands, available)
  {
    current, remaining := WeightedFill(ms, DemandCapped(ms, demands, Target), floors, available - Total(ms, floors));
  }

  method AllocateBudget(d: ArenaDefinition, demands: Amounts, inputBudget: int)
    returns (r: Result<Allocated, AllocationError>)
    requires ValidModules(d.modules)
    ensures r == Allocation(d, demands, inputBudget)
  {
    hide SettleFrom, Filled, Rows;
    var available := inputBudget - d.frameworkReserve;
    var floors := DemandCapped(d.modules, demands, Floor);
    if available - Total(d.modules, floors) < 0 {
      return Err(FloorsExceedBudget);
    }
    var current, remaining := FillTargets(d.modules, demands, floors, available);
    var s := LeaseOut(d.modules, demands, current, remaining);
    r := Ok(Published(d.modules, demands, s));
  }
}
