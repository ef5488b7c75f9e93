/** The allocator's guarantees, over every valid definition, demand and budget. */
module Allocations {
  import opened Basics
  import opened Layout
  import opened Filling
  import opened Leasing
  import opened Bookkeeping

  predicate NonNegative(ms: seq<ModuleDefinition>, demands: Amounts) {
    forall m | m in ms :: Of(demands, m.id) >= 0
  }

  /** What the caller owes the allocator, and the check the allocator makes itself. */
  predicate FloorsFit(ms: seq<ModuleDefinition>, demands: Amounts, available: int) {
    Total(ms, DemandCapped(ms, demands, Floor)) <= available
  }

  predicate Allocatable(ms: seq<ModuleDefinition>, demands: Amounts, available: int) {
    ValidModules(ms) && NonNegative(ms, demands) && FloorsFit(ms, demands, available)
  }

  /** The most a module can be given: up to its maximum if it may borrow, else up to its target. */
  function Eligible(m: ModuleDefinition, demands: Amounts): int {
    if m.canBorrow then Min(Of(demands, m.id), m.max) else Min(Of(demands, m.id), m.target)
  }

  function EligibleTotal(ms: seq<ModuleDefinition>, demands: Amounts): int {
    if ms == [] then 0 else Eligible(ms[0], demands) + EligibleTotal(ms[1..], demands)
  }

  function Start(ms: seq<ModuleDefinition>, demands: Amounts, available: int): Opening
    requires ValidModules(ms)
  {
    var (current, remaining) := Filled(ms, demands, available);
    Opening(ms, current, DonorPool(Lenders(ms, current), current), remaining)
  }

  // ----- The position after filling -----

  lemma FilledPosition(ms: seq<ModuleDefinition>, demands: Amounts, available: int)
    requires Allocatable(ms, demands, available)
    ensures var (current, remaining) := Filled(ms, demands, available);
            && 0 <= remaining
            && Total(ms, current) + remaining == available
            && (forall m | m in ms ::
                  Min(m.floor, Of(demands, m.id)) <= Of(current, m.id) <= Min(m.target, Of(demands, m.id)))
            && (remaining == 0 || forall m | m in ms :: Of(current, m.id) == Min(m.target, Of(demands, m.id)))
  {
    hide DemandCapped, FilledTo, Total;
    var floors, caps := DemandCapped(ms, demands, Floor), DemandCapped(ms, demands, Target);
    DemandCappedFacts(ms, demands, Floor);
    DemandCappedFacts(ms, demands, Target);
    FilledToCorrect(ms, caps, floors, available - Total(ms, floors));
  }

  /** The donor is a lending module, offering exactly its unused target. */
  predicate Offers(m: ModuleDefinition, current: Amounts, d: Donor) {
    m.id == d.id && m.canLend && d.available == m.target - Of(current, m.id) && d.available > 0
  }

  predicate OfferedBySome(ms: seq<ModuleDefinition>, current: Amounts, d: Donor) {
    exists m | m in ms :: Offers(m, current, d)
  }

  lemma PoolFacts(ms: seq<ModuleDefinition>, current: Amounts)
    requires ValidModules(ms)
    ensures var pool := DonorPool(Lenders(ms, current), current);
            DistinctDonors(pool) && forall k | 0 <= k < |pool| :: OfferedBySome(ms, current, pool[k])
  {
    var lenders := Lenders(ms, current);
    SelectSortFacts(ms, CanLendNow(current), ById);
    var pool := DonorPool(lenders, current);
    forall k | 0 <= k < |pool| ensures OfferedBySome(ms, current, pool[k]) {
      assert lenders[k] in lenders;
      assert Offers(lenders[k], current, pool[k]);
    }
  }

  lemma OfferOf(ms: seq<ModuleDefinition>, current: Amounts, d: Donor, m: ModuleDefinition)
    requires DistinctIds(ms) && m in ms && OfferedBySome(ms, current, d) && d.id == m.id
    ensures Offers(m, current, d)
  {
    var x :| x in ms && Offers(x, current, d);
    SameModule(ms, x, m);
  }

  /** A module whose target is used up is not a donor. */
  lemma FullModulesDoNotOffer(ms: seq<ModuleDefinition>, current: Amounts, m: ModuleDefinition)
    requires ValidModules(ms) && m in ms && Of(current, m.id) >= m.target
    ensures !InPool(DonorPool(Lenders(ms, current), current), m.id)
  {
    PoolFacts(ms, current);
    hide Lenders, DonorPool;
    var pool := DonorPool(Lenders(ms, current), current);
    forall k | 0 <= k < |pool| ensures pool[k].id != m.id {
      if pool[k].id == m.id {
        OfferOf(ms, current, pool[k], m);
      }
    }
  }

  lemma SameModule(ms: seq<ModuleDefinition>, a: ModuleDefinition, b: ModuleDefinition)
    requires DistinctIds(ms) && a in ms && b in ms && a.id == b.id
    ensures a == b
  {
  }

  lemma OpeningBooks(ms: seq<ModuleDefinition>, demands: Amounts, available: int)
    requires Allocatable(ms, demands, available)
    ensures var o := Start(ms, demands, available);
            Books(o, OpenLedger(ms, o.base, o.pot))
  {
    var o := Start(ms, demands, available);
    FilledPosition(ms, demands, available);
    PoolFacts(ms, o.base);
    var s := OpenLedger(ms, o.base, o.pot);
    forall id ensures AccountBalances(o, s, id) {
    }
  }

  lemma BorrowerFacts(ms: seq<ModuleDefinition>, demands: Amounts, current: Amounts)
    requires ValidModules(ms)
    ensures var bs := Borrowers(ms, demands, current);
            && DistinctIds(bs) && Sorted(bs, ByPriority)
            && forall m :: m in bs <==> m in ms && MayBorrow(demands, current)(m)
  {
    SelectSortFacts(ms, MayBorrow(demands, current), ByPriority);
  }

  lemma BorrowerIndex(ms: seq<ModuleDefinition>, demands: Amounts, current: Amounts, j: nat)
    requires ValidModules(ms) && j < |Borrowers(ms, demands, current)|
    ensures var b := Borrowers(ms, demands, current)[j];
            b in ms && b.canBorrow && Of(demands, b.id) > b.target && Of(current, b.id) < b.max
  {
    BorrowerFacts(ms, demands, current);
    assert Borrowers(ms, demands, current)[j] in Borrowers(ms, demands, current);
  }

  /** With something left to lend, a borrower's own target is full, so it is not a donor. */
  lemma BorrowersAreReady(ms: seq<ModuleDefinition>, demands: Amounts, available: int)
    requires Allocatable(ms, demands, available) && Start(ms, demands, available).pot > 0
    ensures var o := Start(ms, demands, available);
            BorrowersReady(o, Borrowers(ms, demands, o.base), 0, demands, OpenLedger(ms, o.base, o.pot))
  {
    hide Filled, Lenders, DonorPool, Borrowers;
    var o := Start(ms, demands, available);
    var bs := Borrowers(ms, demands, o.base);
    FilledPosition(ms, demands, available);
    BorrowerFacts(ms, demands, o.base);
    forall j | 0 <= j < |bs|
      ensures HasId(ms, bs[j].id) && !InPool(o.pool, bs[j].id) && Of(o.base, bs[j].id) <= Ceiling(bs[j], demands)
    {
      BorrowerIndex(ms, demands, o.base, j);
      FullModulesDoNotOffer(ms, o.base, bs[j]);
    }
  }

  /** A module that is not a borrower at all has no borrower's id. */
  lemma NotABorrower(ms: seq<ModuleDefinition>, demands: Amounts, current: Amounts, m: ModuleDefinition)
    requires ValidModules(ms) && m in ms && m !in Borrowers(ms, demands, current)
    ensures var bs := Borrowers(ms, demands, current); forall j | 0 <= j < |bs| :: bs[j].id != m.id
  {
    var bs := Borrowers(ms, demands, current);
    forall j | 0 <= j < |bs| ensures bs[j].id != m.id {
      BorrowerIndex(ms, demands, current, j);
      assert bs[j] in bs;
      DistinctMembers(ms, bs[j], m);
    }
  }

  // ----- The settled books -----

  /** Everything the settlement loop promises, at the allocator's own starting point. */
  ghost predicate SettledFacts(o: Opening, bs: seq<ModuleDefinition>, demands: Amounts, s: Ledger) {
    && Books(o, s)
    && (forall j | 0 <= j < |bs| :: Of(s.current, bs[j].id) <= Ceiling(bs[j], demands))
    && (s.remaining == 0 || forall j | 0 <= j < |bs| :: Of(s.current, bs[j].id) == Ceiling(bs[j], demands))
    && (forall id | (forall j | 0 <= j < |bs| :: bs[j].id != id) ::
          Of(s.current, id) == Of(o.base, id) && Of(s.borrowed, id) == 0)
    && (o.pot == 0 ==> s.remaining == 0 && s.borrowed == map[] && s.current == o.base)
    && (o.pot > 0 ==> forall j | 0 <= j < |bs| :: !InPool(o.pool, bs[j].id))
  }

  lemma SettlementFrom(o: Opening, bs: seq<ModuleDefinition>, demands: Amounts, open: Ledger)
    requires Books(o, open) && o.pot >= 0
    requires open.current == o.base && open.borrowed == map[] && open.remaining == o.pot
    requires o.pot > 0 ==> BorrowersReady(o, bs, 0, demands, open)
    requires forall j | 0 <= j < |bs| :: Of(o.base, bs[j].id) <= Ceiling(bs[j], demands)
    ensures SettledFacts(o, bs, demands, SettleFrom(bs, 0, demands, open))
  {
    hide Books, SettleFrom, Ceiling, InPool;
    if o.pot > 0 {
      SettleFromKeepsBooks(o, bs, 0, demands, open);
    } else {
      SettleFromNothing(bs, 0, demands, open);
    }
  }

  lemma Settlement(ms: seq<ModuleDefinition>, demands: Amounts, available: int)
    requires Allocatable(ms, demands, available)
    ensures var o := Start(ms, demands, available);
            SettledFacts(o, Borrowers(ms, demands, o.base), demands, Settled(ms, demands, available))
  {
    hide Filled, Lenders, DonorPool, Borrowers, SettleFrom, Books, SettledFacts, BorrowersReady;
    OpeningBooks(ms, demands, available);
    FilledPosition(ms, demands, available);
    var o := Start(ms, demands, available);
    var bs, open := Borrowers(ms, demands, o.base), OpenLedger(ms, o.base, o.pot);
    if o.pot > 0 {
      BorrowersAreReady(ms, demands, available);
    }
    forall j | 0 <= j < |bs| ensures Of(o.base, bs[j].id) <= Ceiling(bs[j], demands) {
      BorrowerIndex(ms, demands, o.base, j);
    }
    SettlementFrom(o, bs, demands, open);
  }

  /** Every module ends at most at what it is eligible for, and exactly there if anything is left. */
  lemma SettledReachesEligible(ms: seq<ModuleDefinition>, demands: Amounts, available: int, m: ModuleDefinition)
    requires Allocatable(ms, demands, available) && m in ms
    ensures var s := Settled(ms, demands, available);
            && Of(s.current, m.id) <= Eligible(m, demands)
            && (s.remaining == 0 || Of(s.current, m.id) == Eligible(m, demands))
  {
    FilledPosition(ms, demands, available);
    Settlement(ms, demands, available);
    var o := Start(ms, demands, available);
    BorrowerFacts(ms, demands, o.base);
    hide Filled, Lenders, DonorPool, Borrowers, Settled;
    var bs, s := Borrowers(ms, demands, o.base), Settled(ms, demands, available);
    if m in bs {
      var j :| 0 <= j < |bs| && bs[j] == m;
      assert Of(s.current, bs[j].id) <= Ceiling(bs[j], demands);
    } else {
      NotABorrower(ms, demands, o.base, m);
      assert Of(s.current, m.id) == Of(o.base, m.id);
    }
  }

  lemma {:induction false} TotalWithinEligible(ms: seq<ModuleDefinition>, demands: Amounts, a: Amounts)
    requires forall m | m in ms :: Of(a, m.id) <= Eligible(m, demands)
    ensures Total(ms, a) <= EligibleTotal(ms, demands)
    ensures (forall m | m in ms :: Of(a, m.id) == Eligible(m, demands)) ==> Total(ms, a) == EligibleTotal(ms, demands)
  {
    if ms != [] {
      assert ms[0] in ms;
      TotalWithinEligible(ms[1..], demands, a);
    }
  }

  /** The settled total is everything available, or everything anyone is eligible for. */
  lemma SettledConserves(ms: seq<ModuleDefinition>, demands: Amounts, available: int)
    requires Allocatable(ms, demands, available)
    ensures var s := Settled(ms, demands, available);
            && Total(ms, s.current) + s.remaining == available && 0 <= s.remaining
            && Total(ms, s.current) == Min(available, EligibleTotal(ms, demands))
  {
    FilledPosition(ms, demands, available);
    Settlement(ms, demands, available);
    hide Filled, Lenders, DonorPool, Borrowers, Settled, AccountBalances, PoolBalances;
    var s := Settled(ms, demands, available);
    forall m | m in ms
      ensures Of(s.current, m.id) <= Eligible(m, demands)
      ensures s.remaining == 0 || Of(s.current, m.id) == Eligible(m, demands)
    {
      SettledReachesEligible(ms, demands, available, m);
    }
    TotalWithinEligible(ms, demands, s.current);
  }

  // ----- Published rows -----

  function GrantedTotal(rows: seq<ModuleAllocation>): int {
    if rows == [] then 0 else rows[0].granted + GrantedTotal(rows[1..])
  }

  lemma {:induction false} GrantedTotalOf(ms: seq<ModuleDefinition>, demands: Amounts, s: Ledger,
                                          rows: seq<ModuleAllocation>)
    requires |rows| == |ms| && forall i | 0 <= i < |ms| :: rows[i] == Row(ms[i], demands, s)
    ensures GrantedTotal(rows) == Total(ms, s.current)
  {
    if ms != [] {
      GrantedTotalOf(ms[1..], demands, s, rows[1..]);
    }
  }

  lemma RowsTotal(ms: seq<ModuleDefinition>, demands: Amounts, s: Ledger)
    ensures GrantedTotal(Rows(ms, demands, s)) == Total(ms, s.current)
  {
    TotalOfSort(ms, ByLayout, s.current);
    GrantedTotalOf(Sort(ms, ByLayout), demands, s, Rows(ms, demands, s));
  }

  /** Each row belongs to one module of the definition, and each module has a row. */
  lemma RowsCoverModules(ms: seq<ModuleDefinition>, demands: Amounts, s: Ledger)
    ensures var rows := Rows(ms, demands, s);
            && |rows| == |ms|
            && (forall r | r in rows :: exists m | m in ms :: r == Row(m, demands, s))
            && (forall m | m in ms :: Row(m, demands, s) in rows)
  {
    var sorted, rows := Sort(ms, ByLayout), Rows(ms, demands, s);
    SortPermutes(ms, ByLayout);
    SameMembers(sorted, ms);
    forall r | r in rows ensures exists m | m in ms :: r == Row(m, demands, s) {
      var i :| 0 <= i < |rows| && rows[i] == r;
      assert sorted[i] in sorted;
    }
    forall m | m in ms ensures Row(m, demands, s) in rows {
      var i :| 0 <= i < |sorted| && sorted[i] == m;
      assert rows[i] == Row(m, demands, s);
    }
  }

  /**
   Exact work conservation: what is allocated is the whole available budget, or all that any
   module is eligible for, whichever is smaller.
   */
  lemma WorkConservation(d: ArenaDefinition, demands: Amounts, inputBudget: int)
    requires ValidModules(d.modules) && NonNegative(d.modules, demands)
    ensures var available := inputBudget - d.frameworkReserve;
            match Allocation(d, demands, inputBudget)
            case Ok(a) =>
              && FloorsFit(d.modules, demands, available)
              && GrantedTotal(a.rows) == Min(available, EligibleTotal(d.modules, demands))
            case Err(_) => !FloorsFit(d.modules, demands, available)
  {
    hide Filled, Settled, Rows, GrantedTotal, EligibleTotal;
    var available := inputBudget - d.frameworkReserve;
    if FloorsFit(d.modules, demands, available) {
      SettledConserves(d.modules, demands, available);
      RowsTotal(d.modules, demands, Settled(d.modules, demands, available));
    }
  }

  lemma {:induction false} FloorsCoverCappedFloors(ms: seq<ModuleDefinition>, a: Amounts)
    requires forall m | m in ms :: Of(a, m.id) <= m.floor
    ensures Total(ms, a) <= FloorTotal(ms)
  {
    if ms != [] {
      assert ms[0] in ms;
      FloorsCoverCappedFloors(ms[1..], a);
    }
  }

  /** Once the model-budget check has passed, the allocator's own error is unreachable. */
  lemma BudgetCheckSuffices(d: ArenaDefinition, demands: Amounts, inputBudget: int)
    requires ValidModules(d.modules) && BudgetFitsFloors(d, inputBudget)
    ensures Allocation(d, demands, inputBudget).Ok?
    ensures FloorsFit(d.modules, demands, inputBudget - d.frameworkReserve)
  {
    var floors := DemandCapped(d.modules, demands, Floor);
    DemandCappedFacts(d.modules, demands, Floor);
    FloorsCoverCappedFloors(d.modules, floors);
  }

  /** What double entry says of one row, against the leases. */
  ghost predicate RowBalances(r: ModuleAllocation, leases: seq<Lease>) {
    && r.borrowed == BorrowedBy(leases, r.id)
    && r.lent == LentBy(leases, r.id)
    && r.local == r.granted - r.borrowed
    && 0 <= r.borrowed && 0 <= r.lent && 0 <= r.local
    && r.local + r.lent <= r.target
    && Min(r.floor, r.demanded) <= r.granted <= Min(r.demanded, r.max)
    && (r.lent == 0 || r.borrowed == 0)
  }

  lemma LenderStaysWithinTarget(ms: seq<ModuleDefinition>, o: Opening, s: Ledger, m: ModuleDefinition)
    requires ValidModules(ms) && m in ms && o.pool == DonorPool(Lenders(ms, o.base), o.base)
    requires PoolBalances(o, s) && Of(o.base, m.id) <= m.target
    ensures Of(o.base, m.id) + Of(s.lent, m.id) <= m.target
  {
    PoolFacts(ms, o.base);
    hide Lenders, DonorPool;
    if InPool(o.pool, m.id) {
      var k :| 0 <= k < |o.pool| && o.pool[k].id == m.id;
      OfferOf(ms, o.base, o.pool[k], m);
      assert 0 <= s.donors[k].available;
    }
  }

  /** Borrowing means the pot was open and the module a borrower, so nothing was lent. */
  lemma BorrowerDoesNotLend(ms: seq<ModuleDefinition>, demands: Amounts, available: int, m: ModuleDefinition)
    requires Allocatable(ms, demands, available) && m in ms
    requires Of(Settled(ms, demands, available).borrowed, m.id) > 0
    ensures var o := Start(ms, demands, available);
            && o.pot > 0 && m in Borrowers(ms, demands, o.base)
            && Of(Settled(ms, demands, available).lent, m.id) == 0
  {
    FilledPosition(ms, demands, available);
    Settlement(ms, demands, available);
    hide Filled, Lenders, DonorPool, Borrowers, Settled;
    var o, s := Start(ms, demands, available), Settled(ms, demands, available);
    var bs := Borrowers(ms, demands, o.base);
    assert o.pot > 0;
    if m !in bs {
      NotABorrower(ms, demands, o.base, m);
    } else {
      var j :| 0 <= j < |bs| && bs[j] == m;
      assert !InPool(o.pool, bs[j].id);
    }
  }

  lemma ModuleBalances(ms: seq<ModuleDefinition>, demands: Amounts, available: int, m: ModuleDefinition)
    requires Allocatable(ms, demands, available) && m in ms
    ensures var s := Settled(ms, demands, available);
            RowBalances(Row(m, demands, s), s.leases)
  {
    FilledPosition(ms, demands, available);
    Settlement(ms, demands, available);
    SettledReachesEligible(ms, demands, available, m);
    var o, s := Start(ms, demands, available), Settled(ms, demands, available);
    if Of(s.borrowed, m.id) > 0 {
      BorrowerDoesNotLend(ms, demands, available, m);
    }
    LenderStaysWithinTarget(ms, o, s, m);
    hide Filled, Lenders, DonorPool, Borrowers, Settled, SettledFacts, PoolBalances, FundsCovered;
    assert AccountsBalance(o, s);
    assert AccountBalances(o, s, m.id);
  }

  /**
   Double entry, row by row: leases to and from a module sum to its borrowed and lent columns,
   the local column is what filling gave it (the clip at zero never acts), lender and borrower
   are different roles, and every amount is within the module's bounds.
   */
  lemma DoubleEntry(d: ArenaDefinition, demands: Amounts, inputBudget: int)
    requires ValidModules(d.modules) && NonNegative(d.modules, demands)
    ensures match Allocation(d, demands, inputBudget)
            case Ok(a) => forall r | r in a.rows :: RowBalances(r, a.leases)
            case Err(_) => true
  {
    hide Filled, Settled, Rows, RowBalances;
    var ms, available := d.modules, inputBudget - d.frameworkReserve;
    if FloorsFit(ms, demands, available) {
      var s := Settled(ms, demands, available);
      RowsCoverModules(ms, demands, s);
      forall r | r in Rows(ms, demands, s) ensures RowBalances(r, s.leases) {
        var m :| m in ms && r == Row(m, demands, s);
        ModuleBalances(ms, demands, available, m);
      }
    }
  }

  lemma SortedPositions(ms: seq<ModuleDefinition>, key: Key, i: nat, j: nat)
    requires Sorted(ms, key) && i < |ms| && j < |ms| && Before(key, ms[i], ms[j])
    ensures i < j
  {
  }

  /**
   Strict priority: if a module borrows anything, every module that is heavier, or as heavy and
   earlier in the layout, and wants to go past its target, already has all it may have.
   */
  lemma StrictPriority(ms: seq<ModuleDefinition>, demands: Amounts, available: int,
                       a: ModuleDefinition, b: ModuleDefinition)
    requires Allocatable(ms, demands, available) && a in ms && b in ms
    requires a.canBorrow && Of(demands, a.id) > a.target
    requires a.weight > b.weight
             || (a.weight == b.weight && (a.order < b.order || (a.order == b.order && a.id < b.id)))
    requires Of(Settled(ms, demands, available).borrowed, b.id) > 0
    ensures Of(Settled(ms, demands, available).current, a.id) == Min(Of(demands, a.id), a.max)
  {
    hide Filled, Lenders, DonorPool, Borrowers, SettleFrom, Books, BorrowersReady;
    FilledPosition(ms, demands, available);
    OpeningBooks(ms, demands, available);
    Settlement(ms, demands, available);
    BorrowerDoesNotLend(ms, demands, available, b);
    BorrowersAreReady(ms, demands, available);
    var o := Start(ms, demands, available);
    BorrowerFacts(ms, demands, o.base);
    var bs, open := Borrowers(ms, demands, o.base), OpenLedger(ms, o.base, o.pot);
    if a in bs {
      var early :| 0 <= early < |bs| && bs[early] == a;
      var late :| 0 <= late < |bs| && bs[late] == b;
      SortedPositions(bs, ByPriority, early, late);
      SettleFromPrioritises(o, bs, 0, demands, open, early, late);
    } else {
      NotABorrower(ms, demands, o.base, a);
    }
  }

  /** The published rows are the modules, one row each, in ascending (order, id). */
  lemma RowsDescribeModules(d: ArenaDefinition, demands: Amounts, inputBudget: int)
    returns (order: seq<ModuleDefinition>)
    requires ValidModules(d.modules)
    ensures |order| == |d.modules| && forall m :: m in order <==> m in d.modules
    ensures forall i, j | 0 <= i < j < |order| ::
              order[i].order < order[j].order || (order[i].order == order[j].order && order[i].id < order[j].id)
    ensures match Allocation(d, demands, inputBudget)
            case Err(_) => true
            case Ok(a) =>
              && |a.rows| == |order|
              && forall i | 0 <= i < |order| ::
                   && a.rows[i].id == order[i].id && a.rows[i].floor == order[i].floor
                   && a.rows[i].target == order[i].target && a.rows[i].max == order[i].max
                   && a.rows[i].demanded == if order[i].id in demands then demands[order[i].id] else 0
  {
    hide Settled, DemandCapped, Total, Sort, ValidModule;
    order := Sort(d.modules, ByLayout);
    SortPermutes(d.modules, ByLayout);
    SameMembers(order, d.modules);
    SortSorts(d.modules, ByLayout);
    assert forall i, j | 0 <= i < j < |order| :: Before(ByLayout, order[i], order[j]);
  }

  predicate Borrows(rows: seq<ModuleAllocation>, id: ModuleId) {
    exists r | r in rows :: r.id == id && r.borrowed > 0
  }

  /** Strict priority, read off the published rows. */
  lemma RowsArePrioritised(d: ArenaDefinition, demands: Amounts, inputBudget: int,
                           a: ModuleDefinition, b: ModuleDefinition)
    requires ValidModules(d.modules) && NonNegative(d.modules, demands) && a in d.modules && b in d.modules
    requires a.canBorrow && Of(demands, a.id) > a.target
    requires a.weight > b.weight
             || (a.weight == b.weight && (a.order < b.order || (a.order == b.order && a.id < b.id)))
    ensures match Allocation(d, demands, inputBudget)
            case Ok(out) => Borrows(out.rows, b.id) ==>
              forall r | r in out.rows && r.id == a.id :: r.granted == Min(Of(demands, a.id), a.max)
            case Err(_) => true
  {
    hide Filled, Settled, Rows;
    var ms, available := d.modules, inputBudget - d.frameworkReserve;
    if FloorsFit(ms, demands, available) {
      var s := Settled(ms, demands, available);
      RowsCoverModules(ms, demands, s);
      if Borrows(Rows(ms, demands, s), b.id) {
        var rb :| rb in Rows(ms, demands, s) && rb.id == b.id && rb.borrowed > 0;
        var x :| x in ms && rb == Row(x, demands, s);
        SameModule(ms, x, b);
        StrictPriority(ms, demands, available, a, b);
        forall r | r in Rows(ms, demands, s) && r.id == a.id ensures r.granted == Min(Of(demands, a.id), a.max) {
          var y :| y in ms && r == Row(y, demands, s);
          SameModule(ms, y, a);
        }
      }
    }
  }
}
