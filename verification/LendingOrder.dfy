/** The order in which spare capacity is lent: donors by id, each drained in turn, slack last of all. */
module LendingOrder {
  import opened Basics
  import opened Layout
  import opened Leasing
  import opened Bookkeeping
  import opened Allocations

  predicate Drained(s: Ledger, n: nat) {
    forall j | 0 <= j < n && j < |s.donors| :: s.donors[j].available == 0
  }

  predicate LendsSlack(leases: seq<Lease>) {
    exists i | 0 <= i < |leases| :: leases[i].donor == ArenaSlack
  }

  /** A donor that has lent comes after drained donors only, and slack is lent after all of them. */
  predicate LendsInOrder(pool: seq<Donor>, s: Ledger) {
    && |s.donors| == |pool|
    && (forall k | 0 <= k < |pool| && s.donors[k].available < pool[k].available :: Drained(s, k))
    && (LendsSlack(s.leases) ==> Drained(s, |pool|))
  }

  predicate NoOverdraft(s: Ledger, b: ModuleId) {
    forall k | 0 <= k < |s.donors| :: s.donors[k].id != b && s.donors[k].available >= 0
  }

  lemma DonorGrantInOrder(pool: seq<Donor>, s: Ledger, k: nat, b: ModuleDefinition, grant: int)
    requires LendsInOrder(pool, s) && k < |pool| && Drained(s, k)
    requires 0 < s.donors[k].available && 0 <= grant <= s.donors[k].available
    ensures var next := GrantFromDonor(s, k, b, grant);
            LendsInOrder(pool, next) && Drained(next, k)
  {
    hide Algorithms;
    var next := GrantFromDonor(s, k, b, grant);
    forall i | k < i <= |pool| ensures !Drained(s, i) {
      assert s.donors[k].available != 0;
    }
    assert forall i | k < i < |pool| :: next.donors[i].available >= pool[i].available;
    assert next.leases[..|s.leases|] == s.leases && next.leases[|s.leases|].donor.FromModule?;
    assert !LendsSlack(next.leases);
  }

  lemma {:induction false} LendFromInOrder(pool: seq<Donor>, b: ModuleDefinition, k: nat, need: int, s: Ledger)
    requires LendsInOrder(pool, s) && NoOverdraft(s, b.id) && Drained(s, k) && need >= 0
    ensures LendsInOrder(pool, LendFrom(b, k, need, s).1)
    decreases |s.donors| - k
  {
    hide GrantFromDonor, LendsInOrder;
    assert |s.donors| == |pool| by {
      SameLength(pool, s);
    }
    if k < |s.donors| && need > 0 && s.remaining > 0 {
      if s.donors[k].available <= 0 {
        assert Drained(s, k + 1);
        LendFromInOrder(pool, b, k + 1, need, s);
      } else {
        var grant := Min(Min(need, s.donors[k].available), s.remaining);
        var next := GrantFromDonor(s, k, b, grant);
        DonorGrantInOrder(pool, s, k, b, grant);
        AfterGrant(s, k, b, grant);
        if need - grant > 0 && next.remaining > 0 {
          assert Drained(next, k + 1);
          LendFromInOrder(pool, b, k + 1, need - grant, next);
        } else {
          LendFromStops(b, k + 1, need - grant, next);
        }
      }
    }
  }

  lemma SameLength(pool: seq<Donor>, s: Ledger)
    requires LendsInOrder(pool, s)
    ensures |s.donors| == |pool|
  {
  }

  lemma AfterGrant(s: Ledger, k: nat, b: ModuleDefinition, grant: int)
    requires k < |s.donors| && NoOverdraft(s, b.id) && grant <= s.donors[k].available
    ensures var next := GrantFromDonor(s, k, b, grant);
            && NoOverdraft(next, b.id) && |next.donors| == |s.donors|
            && next.donors[k].available == s.donors[k].available - grant
            && next.remaining == s.remaining - grant
  {
  }

  lemma SlackGrantInOrder(pool: seq<Donor>, s: Ledger, b: ModuleDefinition, grant: int)
    requires LendsInOrder(pool, s) && Drained(s, |pool|)
    ensures LendsInOrder(pool, GrantFromSlack(s, b, grant))
  {
    hide Algorithms;
    var next := GrantFromSlack(s, b, grant);
    assert next.donors == s.donors;
  }

  lemma SettleBorrowerInOrder(pool: seq<Donor>, b: ModuleDefinition, demands: Amounts, s: Ledger)
    requires LendsInOrder(pool, s) && NoOverdraft(s, b.id) && s.remaining >= 0
    requires Of(s.current, b.id) <= Ceiling(b, demands)
    ensures LendsInOrder(pool, SettleBorrower(b, demands, s))
  {
    hide LendFrom, GrantFromSlack, LendsInOrder;
    var need := Ceiling(b, demands) - Of(s.current, b.id);
    LendFromInOrder(pool, b, 0, need, s);
    LendFromExhausts(b, 0, need, s);
    SameLength(pool, s);
    var (need', mid) := LendFrom(b, 0, need, s);
    if need' > 0 && mid.slack > 0 && mid.remaining > 0 {
      SlackGrantInOrder(pool, mid, b, Min(Min(need', mid.slack), mid.remaining));
    }
  }

  lemma {:induction false} SettleFromInOrder(o: Opening, bs: seq<ModuleDefinition>, i: nat, demands: Amounts, s: Ledger)
    requires Books(o, s) && BorrowersReady(o, bs, i, demands, s) && LendsInOrder(o.pool, s)
    ensures LendsInOrder(o.pool, SettleFrom(bs, i, demands, s))
    decreases |bs| - i
  {
    hide LendsInOrder, SettleBorrower, AccountsBalance, Ceiling;
    if i < |bs| {
      var next := SettleBorrower(bs[i], demands, s);
      SettleBorrowerCorrect(o, bs[i], demands, s);
      forall k | 0 <= k < |s.donors| ensures s.donors[k].id != bs[i].id && s.donors[k].available >= 0 {
        assert s.donors[k].id == o.pool[k].id;
      }
      SettleBorrowerInOrder(o.pool, bs[i], demands, s);
      SettleFromInOrder(o, bs, i + 1, demands, next);
    }
  }

  predicate AscendingIds(pool: seq<Donor>) {
    forall i, j | 0 <= i < j < |pool| :: pool[i].id < pool[j].id
  }

  lemma PoolAscends(ms: seq<ModuleDefinition>, current: Amounts)
    requires ValidModules(ms)
    ensures AscendingIds(DonorPool(Lenders(ms, current), current))
  {
    var lenders := Lenders(ms, current);
    SelectSortFacts(ms, CanLendNow(current), ById);
    forall i, j | 0 <= i < j < |lenders| ensures lenders[i].id < lenders[j].id {
      assert Before(ById, lenders[i], lenders[j]);
    }
  }

  /**
   Donors lend by ascending id: if one lent anything, every donor before it lent all it offered;
   and the arena's own slack is touched only when every donor has.
   */
  lemma DonorsDrainInOrder(ms: seq<ModuleDefinition>, demands: Amounts, available: int)
    requires Allocatable(ms, demands, available)
    ensures var pool, s := Start(ms, demands, available).pool, Settled(ms, demands, available);
            && AscendingIds(pool)
            && (forall j, k | 0 <= j < k < |pool| && Of(s.lent, pool[k].id) > 0 ::
                  Of(s.lent, pool[j].id) == pool[j].available)
            && (LendsSlack(s.leases) ==> forall k | 0 <= k < |pool| :: Of(s.lent, pool[k].id) == pool[k].available)
  {
    hide Filled, Lenders, DonorPool, Borrowers, SettleFrom, AccountsBalance, FundsCovered, BorrowersReady;
    var o, s := Start(ms, demands, available), Settled(ms, demands, available);
    PoolAscends(ms, o.base);
    OpeningBooks(ms, demands, available);
    FilledPosition(ms, demands, available);
    Settlement(ms, demands, available);
    var bs, open := Borrowers(ms, demands, o.base), OpenLedger(ms, o.base, o.pot);
    assert LendsInOrder(o.pool, open);
    if o.pot > 0 {
      BorrowersAreReady(ms, demands, available);
      SettleFromInOrder(o, bs, 0, demands, open);
    } else {
      SettleFromNothing(bs, 0, demands, open);
    }
    InOrderLends(o, s);
  }

  lemma InOrderLends(o: Opening, s: Ledger)
    requires PoolBalances(o, s) && LendsInOrder(o.pool, s)
    ensures forall j, k | 0 <= j < k < |o.pool| && Of(s.lent, o.pool[k].id) > 0 ::
              Of(s.lent, o.pool[j].id) == o.pool[j].available
    ensures LendsSlack(s.leases) ==> forall k | 0 <= k < |o.pool| :: Of(s.lent, o.pool[k].id) == o.pool[k].available
  {
    forall j, k | 0 <= j < k < |o.pool| && Of(s.lent, o.pool[k].id) > 0
      ensures Of(s.lent, o.pool[j].id) == o.pool[j].available
    {
      assert Drained(s, k);
    }
  }
}
