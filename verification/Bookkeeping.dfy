/**
 What every lease grant keeps: the books balance, the funds stay covered by the donor pool and
 the shared slack, and a borrower's visit ends only at its ceiling or with nothing left to lend.
 */
module Bookkeeping {
  import opened Basics
  import opened Layout
  import opened Filling
  import opened Leasing

  /** The position before the first lease: accounts after filling, the donors, the pot to lend. */
  datatype Opening = Opening(ms: seq<ModuleDefinition>, base: Amounts, pool: seq<Donor>, pot: int)

  function BorrowedBy(leases: seq<Lease>, id: ModuleId): int {
    if leases == [] then 0
    else BorrowedBy(leases[..|leases| - 1], id)
         + (if leases[|leases| - 1].borrower == id then leases[|leases| - 1].granted else 0)
  }

  function LentBy(leases: seq<Lease>, id: ModuleId): int {
    if leases == [] then 0
    else LentBy(leases[..|leases| - 1], id)
         + (if leases[|leases| - 1].donor == FromModule(id) then leases[|leases| - 1].granted else 0)
  }

  predicate InPool(pool: seq<Donor>, id: ModuleId) {
    exists k | 0 <= k < |pool| :: pool[k].id == id
  }

  predicate DistinctDonors(pool: seq<Donor>) {
    forall i, j | 0 <= i < j < |pool| :: pool[i].id != pool[j].id
  }

  /** An account is its opening balance plus what it borrowed, and the leases say the same. */
  predicate AccountBalances(o: Opening, s: Ledger, id: ModuleId) {
    && Of(s.current, id) == Of(o.base, id) + Of(s.borrowed, id)
    && 0 <= Of(s.borrowed, id) && 0 <= Of(s.lent, id)
    && BorrowedBy(s.leases, id) == Of(s.borrowed, id)
    && LentBy(s.leases, id) == Of(s.lent, id)
  }

  ghost predicate AccountsBalance(o: Opening, s: Ledger) {
    forall id :: AccountBalances(o, s, id)
  }

  /** A donor's lent and unlent parts make up what it offered; nobody else lends. */
  ghost predicate PoolBalances(o: Opening, s: Ledger) {
    && |s.donors| == |o.pool| && DistinctDonors(o.pool)
    && (forall k | 0 <= k < |o.pool| ::
          && s.donors[k].id == o.pool[k].id && 0 <= s.donors[k].available
          && s.donors[k].available + Of(s.lent, o.pool[k].id) == o.pool[k].available)
    && (forall id :: !InPool(o.pool, id) ==> Of(s.lent, id) == 0)
  }

  /** No token is minted, and what is left never exceeds what donors and slack can still cover. */
  ghost predicate FundsCovered(o: Opening, s: Ledger) {
    && Total(o.ms, s.current) + s.remaining == Total(o.ms, o.base) + o.pot
    && 0 <= s.remaining && 0 <= s.slack
    && s.remaining <= PoolTotal(s.donors) + s.slack
  }

  ghost predicate Books(o: Opening, s: Ledger) {
    AccountsBalance(o, s) && PoolBalances(o, s) && FundsCovered(o, s)
  }

  lemma {:induction false} PoolTotalOfUpdate(donors: seq<Donor>, k: nat, d: Donor)
    requires k < |donors|
    ensures PoolTotal(donors[k := d]) == PoolTotal(donors) - donors[k].available + d.available
  {
    if k == 0 {
      assert donors[0 := d][1..] == donors[1..];
    } else {
      PoolTotalOfUpdate(donors[1..], k - 1, d);
      assert donors[k := d][1..] == donors[1..][k - 1 := d];
    }
  }

  lemma {:induction false} EmptyPool(donors: seq<Donor>)
    requires forall k | 0 <= k < |donors| :: donors[k].available == 0
    ensures PoolTotal(donors) == 0
  {
    if donors != [] {
      EmptyPool(donors[1..]);
    }
  }

  lemma AppendLease(leases: seq<Lease>, l: Lease, id: ModuleId)
    ensures BorrowedBy(leases + [l], id) == BorrowedBy(leases, id) + (if l.borrower == id then l.granted else 0)
    ensures LentBy(leases + [l], id) == LentBy(leases, id) + (if l.donor == FromModule(id) then l.granted else 0)
  {
    assert (leases + [l])[..|leases + [l]| - 1] == leases;
  }

  lemma PostMoves(a: Amounts, id: ModuleId, grant: int, other: ModuleId)
    ensures Of(Post(a, id, grant), other) == Of(a, other) + (if other == id then grant else 0)
  {
  }

  // ----- One grant -----

  lemma DonorGrantBalancesAccount(o: Opening, s: Ledger, k: nat, b: ModuleDefinition, grant: int, id: ModuleId)
    requires AccountBalances(o, s, id) && k < |s.donors| && grant >= 0
    ensures AccountBalances(o, GrantFromDonor(s, k, b, grant), id)
  {
    hide Algorithms, BorrowedBy, LentBy, Post;
    AppendLease(s.leases, Lease(FromModule(s.donors[k].id), b.id, grant, Algorithms(b.pipeline)), id);
    PostMoves(s.current, b.id, grant, id);
    PostMoves(s.borrowed, b.id, grant, id);
    PostMoves(s.lent, s.donors[k].id, grant, id);
  }

  lemma SlackGrantBalancesAccount(o: Opening, s: Ledger, b: ModuleDefinition, grant: int, id: ModuleId)
    requires AccountBalances(o, s, id) && grant >= 0
    ensures AccountBalances(o, GrantFromSlack(s, b, grant), id)
  {
    hide Algorithms, BorrowedBy, LentBy, Post;
    AppendLease(s.leases, Lease(ArenaSlack, b.id, grant, Algorithms(b.pipeline)), id);
    PostMoves(s.current, b.id, grant, id);
    PostMoves(s.borrowed, b.id, grant, id);
  }

  lemma DonorGrantBalancesPool(o: Opening, s: Ledger, k: nat, b: ModuleDefinition, grant: int)
    requires PoolBalances(o, s) && k < |s.donors| && 0 <= grant <= s.donors[k].available
    ensures PoolBalances(o, GrantFromDonor(s, k, b, grant))
  {
    hide Algorithms;
    var d, after := s.donors[k], GrantFromDonor(s, k, b, grant);
    assert d.id == o.pool[k].id;
    forall j | 0 <= j < |o.pool|
      ensures && after.donors[j].id == o.pool[j].id && 0 <= after.donors[j].available
              && after.donors[j].available + Of(after.lent, o.pool[j].id) == o.pool[j].available
    {
      if j != k {
        assert o.pool[j].id != d.id;
      }
    }
    forall id | !InPool(o.pool, id) ensures Of(after.lent, id) == 0 {
      assert id != o.pool[k].id;
    }
  }

  lemma DonorGrantCoversFunds(o: Opening, s: Ledger, k: nat, b: ModuleDefinition, grant: int)
    requires FundsCovered(o, s) && DistinctIds(o.ms) && HasId(o.ms, b.id)
    requires k < |s.donors| && 0 <= grant <= s.remaining
    ensures FundsCovered(o, GrantFromDonor(s, k, b, grant))
  {
    TotalOfUpdate(o.ms, s.current, b.id, Of(s.current, b.id) + grant);
    PoolTotalOfUpdate(s.donors, k, Donor(s.donors[k].id, s.donors[k].available - grant));
  }

  lemma DonorGrantKeepsBooks(o: Opening, s: Ledger, k: nat, b: ModuleDefinition, grant: int)
    requires Books(o, s) && DistinctIds(o.ms) && HasId(o.ms, b.id)
    requires k < |s.donors| && 0 <= grant <= s.donors[k].available && grant <= s.remaining
    ensures Books(o, GrantFromDonor(s, k, b, grant))
  {
    hide AccountBalances, PoolBalances, FundsCovered;
    forall id ensures AccountBalances(o, GrantFromDonor(s, k, b, grant), id) {
      assert AccountBalances(o, s, id);
      DonorGrantBalancesAccount(o, s, k, b, grant, id);
    }
    DonorGrantBalancesPool(o, s, k, b, grant);
    DonorGrantCoversFunds(o, s, k, b, grant);
  }

  lemma SlackGrantKeepsBooks(o: Opening, s: Ledger, b: ModuleDefinition, grant: int)
    requires Books(o, s) && DistinctIds(o.ms) && HasId(o.ms, b.id)
    requires 0 <= grant <= s.slack && grant <= s.remaining
    ensures Books(o, GrantFromSlack(s, b, grant))
  {
    hide AccountBalances;
    forall id ensures AccountBalances(o, GrantFromSlack(s, b, grant), id) {
      assert AccountBalances(o, s, id);
      SlackGrantBalancesAccount(o, s, b, grant, id);
    }
    TotalOfUpdate(o.ms, s.current, b.id, Of(s.current, b.id) + grant);
  }

  // ----- One borrower's visit to the donors -----

  /** Only `id`'s own accounts may differ. */
  ghost predicate OthersUnchanged(s: Ledger, after: Ledger, id: ModuleId) {
    forall other | other != id ::
      Of(after.current, other) == Of(s.current, other) && Of(after.borrowed, other) == Of(s.borrowed, other)
  }

  lemma {:induction false} LendFromKeepsBooks(o: Opening, b: ModuleDefinition, k: nat, need: int, s: Ledger)
    requires Books(o, s) && DistinctIds(o.ms) && HasId(o.ms, b.id) && need >= 0
    ensures var (need', after) := LendFrom(b, k, need, s);
            && Books(o, after) && OthersUnchanged(s, after, b.id)
            && 0 <= need' && after.slack == s.slack && after.remaining <= s.remaining
            && need' + Of(after.current, b.id) == need + Of(s.current, b.id)
            && Of(after.borrowed, b.id) >= Of(s.borrowed, b.id)
    decreases |s.donors| - k
  {
    hide Books;
    if k < |s.donors| && need > 0 && s.remaining > 0 {
      if s.donors[k].id == b.id || s.donors[k].available <= 0 {
        LendFromKeepsBooks(o, b, k + 1, need, s);
      } else {
        var grant := Min(Min(need, s.donors[k].available), s.remaining);
        DonorGrantKeepsBooks(o, s, k, b, grant);
        LendFromKeepsBooks(o, b, k + 1, need - grant, GrantFromDonor(s, k, b, grant));
      }
    }
  }

  lemma {:induction false} EarlierDonorsUntouched(b: ModuleDefinition, k: nat, need: int, s: Ledger)
    ensures var after := LendFrom(b, k, need, s).1;
            |after.donors| == |s.donors| && forall j | 0 <= j < k && j < |s.donors| :: after.donors[j] == s.donors[j]
    decreases |s.donors| - k
  {
    if k < |s.donors| && need > 0 && s.remaining > 0 {
      if s.donors[k].id == b.id || s.donors[k].available <= 0 {
        EarlierDonorsUntouched(b, k + 1, need, s);
      } else {
        var grant := Min(Min(need, s.donors[k].available), s.remaining);
        EarlierDonorsUntouched(b, k + 1, need - grant, GrantFromDonor(s, k, b, grant));
      }
    }
  }

  /** A borrower leaves the donors satisfied, or with no funds left, or with every donor drained. */
  lemma {:induction false} LendFromExhausts(b: ModuleDefinition, k: nat, need: int, s: Ledger)
    requires need >= 0 && s.remaining >= 0
    requires forall j | 0 <= j < |s.donors| :: s.donors[j].id != b.id && s.donors[j].available >= 0
    ensures var (need', after) := LendFrom(b, k, need, s);
            need' == 0 || after.remaining == 0
            || (|after.donors| == |s.donors| && forall j | k <= j < |s.donors| :: after.donors[j].available == 0)
    decreases |s.donors| - k
  {
    if k < |s.donors| && need > 0 && s.remaining > 0 {
      if s.donors[k].available <= 0 {
        LendFromExhausts(b, k + 1, need, s);
        EarlierDonorsUntouched(b, k + 1, need, s);
      } else {
        var grant := Min(Min(need, s.donors[k].available), s.remaining);
        var next := GrantFromDonor(s, k, b, grant);
        LendFromExhausts(b, k + 1, need - grant, next);
        EarlierDonorsUntouched(b, k + 1, need - grant, next);
        assert need - grant == 0 || next.remaining == 0 || next.donors[k].available == 0;
        LendFromStops(b, k + 1, need - grant, next);
      }
    }
  }

  lemma LendFromStops(b: ModuleDefinition, k: nat, need: int, s: Ledger)
    ensures need <= 0 || s.remaining <= 0 ==> LendFrom(b, k, need, s) == (need, s)
  {
  }

  /** After the donors, either the borrower is satisfied or the slack covers all that is left. */
  lemma SlackCoversTheRest(o: Opening, b: ModuleDefinition, need: int, s: Ledger)
    requires Books(o, s) && DistinctIds(o.ms) && HasId(o.ms, b.id) && need >= 0
    requires !InPool(o.pool, b.id)
    ensures var (need', after) := LendFrom(b, 0, need, s);
            need' == 0 || after.remaining <= after.slack
  {
    hide AccountBalances, LendFrom;
    LendFromKeepsBooks(o, b, 0, need, s);
    forall j | 0 <= j < |s.donors| ensures s.donors[j].id != b.id && s.donors[j].available >= 0 {
      assert s.donors[j].id == o.pool[j].id;
    }
    LendFromExhausts(b, 0, need, s);
    var after := LendFrom(b, 0, need, s).1;
    if forall k | 0 <= k < |after.donors| :: after.donors[k].available == 0 {
      EmptyPool(after.donors);
    }
  }

  /** A visit keeps the books and ends at the borrower's ceiling or with nothing left to lend. */
  lemma SettleBorrowerCorrect(o: Opening, b: ModuleDefinition, demands: Amounts, s: Ledger)
    requires Books(o, s) && DistinctIds(o.ms) && HasId(o.ms, b.id)
    requires !InPool(o.pool, b.id) && Of(s.current, b.id) <= Ceiling(b, demands)
    ensures var after := SettleBorrower(b, demands, s);
            && Books(o, after) && OthersUnchanged(s, after, b.id)
            && after.remaining <= s.remaining
            && Of(s.borrowed, b.id) <= Of(after.borrowed, b.id)
            && Of(after.current, b.id) <= Ceiling(b, demands)
            && (Of(after.current, b.id) == Ceiling(b, demands) || after.remaining == 0)
  {
    hide AccountsBalance, PoolBalances, LendFrom;
    var need := Ceiling(b, demands) - Of(s.current, b.id);
    LendFromKeepsBooks(o, b, 0, need, s);
    SlackCoversTheRest(o, b, need, s);
    var (need', mid) := LendFrom(b, 0, need, s);
    if need' > 0 && mid.remaining > 0 {
      SlackGrantKeepsBooks(o, mid, b, Min(Min(need', mid.slack), mid.remaining));
    }
  }

  /** Nothing moves once the pot is empty. */
  lemma SettleBorrowerWithNothing(b: ModuleDefinition, demands: Amounts, s: Ledger)
    requires s.remaining <= 0
    ensures SettleBorrower(b, demands, s) == s
  {
  }

  lemma {:induction false} SettleFromNothing(bs: seq<ModuleDefinition>, i: nat, demands: Amounts, s: Ledger)
    requires s.remaining <= 0
    ensures SettleFrom(bs, i, demands, s) == s
    decreases |bs| - i
  {
    if i < |bs| {
      SettleBorrowerWithNothing(bs[i], demands, s);
      SettleFromNothing(bs, i + 1, demands, s);
    }
  }

  // ----- All borrowers, in priority order -----

  ghost predicate BorrowersReady(o: Opening, bs: seq<ModuleDefinition>, i: nat, demands: Amounts, s: Ledger) {
    && DistinctIds(o.ms) && DistinctIds(bs)
    && forall j | i <= j < |bs| ::
         && HasId(o.ms, bs[j].id) && !InPool(o.pool, bs[j].id)
         && Of(s.current, bs[j].id) <= Ceiling(bs[j], demands)
  }

  lemma {:induction false} SettleFromKeepsBooks(o: Opening, bs: seq<ModuleDefinition>, i: nat,
                                                demands: Amounts, s: Ledger)
    requires Books(o, s) && BorrowersReady(o, bs, i, demands, s)
    ensures var end := SettleFrom(bs, i, demands, s);
            && Books(o, end) && end.remaining <= s.remaining
            && (forall j | i <= j < |bs| :: Of(end.current, bs[j].id) <= Ceiling(bs[j], demands))
            && (end.remaining == 0
                || forall j | i <= j < |bs| :: Of(end.current, bs[j].id) == Ceiling(bs[j], demands))
            && (forall id | (forall j | i <= j < |bs| :: bs[j].id != id) ::
                  Of(end.current, id) == Of(s.current, id) && Of(end.borrowed, id) == Of(s.borrowed, id))
    decreases |bs| - i
  {
    hide Books, SettleBorrower, Ceiling, InPool;
    if i < |bs| {
      var next := SettleBorrower(bs[i], demands, s);
      SettleBorrowerCorrect(o, bs[i], demands, s);
      SettleFromKeepsBooks(o, bs, i + 1, demands, next);
      var end := SettleFrom(bs, i + 1, demands, next);
      assert Of(end.current, bs[i].id) == Of(next.current, bs[i].id);
      if next.remaining == 0 {
        SettleFromNothing(bs, i + 1, demands, next);
      }
    }
  }

  /** A later borrower gets something only if every earlier one already has its ceiling. */
  lemma {:induction false} SettleFromPrioritises(o: Opening, bs: seq<ModuleDefinition>, i: nat,
                                                 demands: Amounts, s: Ledger, early: nat, late: nat)
    requires Books(o, s) && BorrowersReady(o, bs, i, demands, s)
    requires i <= early < late < |bs|
    ensures var end := SettleFrom(bs, i, demands, s);
            Of(end.borrowed, bs[late].id) > Of(s.borrowed, bs[late].id)
            ==> Of(end.current, bs[early].id) == Ceiling(bs[early], demands)
    decreases |bs| - i
  {
    var next := SettleBorrower(bs[i], demands, s);
    SettleBorrowerCorrect(o, bs[i], demands, s);
    assert bs[late].id != bs[i].id;
    if i == early {
      SettleFromKeepsBooks(o, bs, i + 1, demands, next);
      if next.remaining == 0 {
        SettleFromNothing(bs, i + 1, demands, next);
      }
    } else {
      SettleFromPrioritises(o, bs, i + 1, demands, next, early, late);
    }
  }
}
