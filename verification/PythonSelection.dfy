/** Host-side compression in Python: the selector that keeps the items of highest priority that fit. */
module PythonSelection {
  import opened Basics

  // ----- Priority selection -----

  datatype Item = Item(name: int, priority: real)

  /** Positions in ranking order: highest priority first, earlier position on ties. */
  predicate RanksBefore(items: seq<Item>, a: nat, b: nat)
    requires a < |items| && b < |items|
  {
    items[a].priority > items[b].priority || (items[a].priority == items[b].priority && a < b)
  }

  predicate IsRanking(items: seq<Item>, ranked: seq<nat>) {
    && (forall k | 0 <= k < |ranked| :: ranked[k] < |items|)
    && (forall j, k | 0 <= j < k < |ranked| :: RanksBefore(items, ranked[j], ranked[k]))
  }

  function InsertRanked(items: seq<Item>, p: nat, ranked: seq<nat>): (r: seq<nat>)
    requires IsRanking(items, ranked) && p < |items|
  {
    if ranked == [] || RanksBefore(items, p, ranked[0]) then [p] + ranked
    else [ranked[0]] + InsertRanked(items, p, ranked[1..])
  }

  lemma {:induction false} InsertKeepsRanking(items: seq<Item>, p: nat, ranked: seq<nat>)
    requires IsRanking(items, ranked) && p < |items| && p !in ranked
    ensures var r := InsertRanked(items, p, ranked);
            IsRanking(items, r) && |r| == |ranked| + 1 && forall x :: x in r <==> x == p || x in ranked
  {
    if ranked == [] {
    } else if RanksBefore(items, p, ranked[0]) {
      var r := [p] + ranked;
      forall k | 0 < k < |r| ensures RanksBefore(items, p, r[k]) {
        assert k > 1 ==> RanksBefore(items, ranked[0], ranked[k - 1]);
      }
    } else {
      InsertKeepsRanking(items, p, ranked[1..]);
      var tail := InsertRanked(items, p, ranked[1..]);
      var r := [ranked[0]] + tail;
      forall k | 0 < k < |r| ensures RanksBefore(items, ranked[0], r[k]) {
        assert r[k] in tail;
        if r[k] != p {
          var j :| 0 <= j < |ranked[1..]| && ranked[1..][j] == r[k];
          assert ranked[j + 1] == r[k];
        }
      }
    }
  }

  /** The first `n` positions, ranked. */
  function Ranked(items: seq<Item>, n: nat): (ranked: seq<nat>)
    requires n <= |items|
    ensures IsRanking(items, ranked) && |ranked| == n && forall x: nat :: x in ranked <==> x < n
  {
    if n == 0 then []
    else
      InsertKeepsRanking(items, n - 1, Ranked(items, n - 1));
      InsertRanked(items, n - 1, Ranked(items, n - 1))
  }

  /** The items at the selected positions, in their original order. */
  function Kept(items: seq<Item>, selected: set<nat>): seq<Item> {
    if items == [] then []
    else Kept(items[..|items| - 1], selected) + (if |items| - 1 in selected then [items[|items| - 1]] else [])
  }

  function Dropped(items: seq<Item>, selected: set<nat>): seq<Item> {
    if items == [] then []
    else Dropped(items[..|items| - 1], selected) + (if |items| - 1 in selected then [] else [items[|items| - 1]])
  }

  /** Greedy selection in ranking order: an item joins if all still fit, or if it is the first. */
  function SelectFrom(items: seq<Item>, ranked: seq<nat>, k: nat, chosen: set<nat>,
                      count: seq<Item> -> int, target: int): set<nat>
    decreases |ranked| - k
  {
    if k >= |ranked| then chosen
    else if count(Kept(items, chosen + {ranked[k]})) <= target || chosen == {}
    then SelectFrom(items, ranked, k + 1, chosen + {ranked[k]}, count, target)
    else SelectFrom(items, ranked, k + 1, chosen, count, target)
  }

  method PrioritySelect(items: seq<Item>, count: seq<Item> -> int, target: int)
    returns (kept: seq<Item>, removed: seq<Item>)
    ensures var selected := SelectFrom(items, Ranked(items, |items|), 0, {}, count, target);
            kept == Kept(items, selected) && removed == Dropped(items, selected)
  {
    var ranked := Ranked(items, |items|);
    var chosen: set<nat> := {};
    for k := 0 to |ranked|
      invariant SelectFrom(items, ranked, 0, {}, count, target) == SelectFrom(items, ranked, k, chosen, count, target)
    {
      if count(Kept(items, chosen + {ranked[k]})) <= target || chosen == {} {
        chosen := chosen + {ranked[k]};
      }
    }
    kept, removed := Kept(items, chosen), Dropped(items, chosen);
  }

  lemma {:induction false} SelectFromFits(items: seq<Item>, ranked: seq<nat>, k: nat, chosen: set<nat>,
                                          count: seq<Item> -> int, target: int)
    requires count(Kept(items, chosen)) <= target || |chosen| <= 1
    ensures var selected := SelectFrom(items, ranked, k, chosen, count, target);
            && chosen <= selected
            && (count(Kept(items, selected)) <= target || |selected| <= 1)
    decreases |ranked| - k
  {
    if k < |ranked| {
      if count(Kept(items, chosen + {ranked[k]})) <= target || chosen == {} {
        SelectFromFits(items, ranked, k + 1, chosen + {ranked[k]}, count, target);
      } else {
        SelectFromFits(items, ranked, k + 1, chosen, count, target);
      }
    }
  }

  /** What is kept fits the target unless it is a single item; the top-ranked item is always kept. */
  lemma SelectionFits(items: seq<Item>, count: seq<Item> -> int, target: int)
    ensures var ranked := Ranked(items, |items|);
            var selected := SelectFrom(items, ranked, 0, {}, count, target);
            && (count(Kept(items, selected)) <= target || |selected| <= 1)
            && (items != [] ==> ranked[0] in selected)
  {
    var ranked := Ranked(items, |items|);
    SelectFromFits(items, ranked, 0, {}, count, target);
    if items != [] {
      SelectFromFits(items, ranked, 1, {} + {ranked[0]}, count, target);
    }
  }

  /** The chosen positions that rank before `p`: a higher priority, or the same and earlier in the list. */
  ghost function Ahead(items: seq<Item>, selected: set<nat>, p: nat): set<nat>
    requires p < |items| && forall q | q in selected :: q < |items|
  {
    set q | q in selected && (items[q].priority > items[p].priority
                              || (items[q].priority == items[p].priority && q < p))
  }

  /** The chosen positions among the first `j` of the ranking. */
  ghost function ChosenBefore(selected: set<nat>, ranked: seq<nat>, j: nat): set<nat>
    requires j <= |ranked|
  {
    set q | q in selected && q in ranked[..j]
  }

  lemma DecidedAt(items: seq<Item>, ranked: seq<nat>, k: nat, chosen: set<nat>, count: seq<Item> -> int, target: int)
    requires k < |ranked| && (forall a, b | 0 <= a < b < |ranked| :: ranked[a] != ranked[b])
    requires forall q | q in chosen :: q in ranked[..k]
    ensures var selected := SelectFrom(items, ranked, k, chosen, count, target);
            && (forall q | q in selected :: q in ranked)
            && (forall q | q in ranked[..k] :: q in selected <==> q in chosen)
            && (ranked[k] in selected <==> chosen == {} || count(Kept(items, chosen + {ranked[k]})) <= target)
  {
    hide Kept;
    var x := ranked[k];
    var joins := count(Kept(items, chosen + {x})) <= target || chosen == {};
    var next := if joins then chosen + {x} else chosen;
    assert ranked[..k + 1] == ranked[..k] + [x];
    assert x !in ranked[..k] && x !in chosen;
    FromHereOn(items, ranked, k + 1, next, count, target);
    var selected := SelectFrom(items, ranked, k + 1, next, count, target);
    assert SelectFrom(items, ranked, k, chosen, count, target) == selected;
    assert x in ranked[..k + 1];
  }

  lemma {:induction false} SelectFromDecides(items: seq<Item>, ranked: seq<nat>, k: nat, chosen: set<nat>,
                                             count: seq<Item> -> int, target: int, j: nat)
    requires k <= j < |ranked| && (forall a, b | 0 <= a < b < |ranked| :: ranked[a] != ranked[b])
    requires forall q | q in chosen :: q in ranked[..k]
    ensures var selected := SelectFrom(items, ranked, k, chosen, count, target);
            var earlier := ChosenBefore(selected, ranked, j);
            && (forall q | q in selected :: q in ranked)
            && (ranked[j] in selected
                <==> earlier == {} || count(Kept(items, earlier + {ranked[j]})) <= target)
    decreases |ranked| - k
  {
    hide Kept;
    if k == j {
      DecidedAt(items, ranked, k, chosen, count, target);
      var selected := SelectFrom(items, ranked, k, chosen, count, target);
      assert ChosenBefore(selected, ranked, j) == chosen;
    } else {
      var next := if count(Kept(items, chosen + {ranked[k]})) <= target || chosen == {} then chosen + {ranked[k]}
                  else chosen;
      assert ranked[..k + 1] == ranked[..k] + [ranked[k]];
      SelectFromDecides(items, ranked, k + 1, next, count, target, j);
    }
  }

  lemma {:induction false} FromHereOn(items: seq<Item>, ranked: seq<nat>, k: nat, chosen: set<nat>,
                                      count: seq<Item> -> int, target: int)
    requires k <= |ranked| && (forall a, b | 0 <= a < b < |ranked| :: ranked[a] != ranked[b])
    requires forall q | q in chosen :: q in ranked[..k]
    ensures var selected := SelectFrom(items, ranked, k, chosen, count, target);
            && (forall q | q in selected :: q in ranked)
            && (forall q | q in ranked[..k] :: q in selected <==> q in chosen)
    decreases |ranked| - k
  {
    if k < |ranked| {
      var next := if count(Kept(items, chosen + {ranked[k]})) <= target || chosen == {} then chosen + {ranked[k]}
                  else chosen;
      assert ranked[..k + 1] == ranked[..k] + [ranked[k]];
      assert ranked[k] !in ranked[..k];
      FromHereOn(items, ranked, k + 1, next, count, target);
    }
  }

  /**
   Greedy by priority: an item is kept exactly when it still fits beside the kept items of higher
   priority, or as high and earlier, or when there are none.
   */
  lemma GreedyByPriority(items: seq<Item>, count: seq<Item> -> int, target: int, p: nat)
    requires p < |items|
    ensures var selected := SelectFrom(items, Ranked(items, |items|), 0, {}, count, target);
            && (forall q | q in selected :: q < |items|)
            && var ahead := Ahead(items, selected, p);
               (p in selected <==> ahead == {} || count(Kept(items, ahead + {p})) <= target)
  {
    var ranked := Ranked(items, |items|);
    assert p in ranked;
    var j :| 0 <= j < |ranked| && ranked[j] == p;
    RankingIsStrict(items, ranked);
    hide Kept, SelectFrom, Ranked, IsRanking;
    SelectFromDecides(items, ranked, 0, {}, count, target, j);
    var selected := SelectFrom(items, ranked, 0, {}, count, target);
    EarlierIsAhead(items, ranked, j, selected);
  }

  lemma EarlierIsAhead(items: seq<Item>, ranked: seq<nat>, j: nat, selected: set<nat>)
    requires IsRanking(items, ranked) && j < |ranked| && forall q | q in selected :: q in ranked && q < |items|
    ensures ChosenBefore(selected, ranked, j) == Ahead(items, selected, ranked[j])
  {
    forall q | q in selected ensures q in ranked[..j] <==> RanksBefore(items, q, ranked[j]) {
      EarlierRanksBefore(items, ranked, j, q);
    }
  }

  lemma EarlierRanksBefore(items: seq<Item>, ranked: seq<nat>, j: nat, q: nat)
    requires IsRanking(items, ranked) && j < |ranked| && q in ranked
    ensures q in ranked[..j] <==> RanksBefore(items, q, ranked[j])
  {
    var i :| 0 <= i < |ranked| && ranked[i] == q;
    if i < j {
      assert ranked[..j][i] == q;
    } else {
      assert i > j ==> RanksBefore(items, ranked[j], q);
      assert forall h | 0 <= h < j :: RanksBefore(items, ranked[h], ranked[j]);
    }
  }

  lemma RankingIsStrict(items: seq<Item>, ranked: seq<nat>)
    requires IsRanking(items, ranked)
    ensures forall a, b | 0 <= a < b < |ranked| :: ranked[a] != ranked[b]
  {
  }

  /** Keeping and dropping partition the items, each side in order. */
  lemma {:induction false} SelectionPartitions(items: seq<Item>, selected: set<nat>)
    ensures multiset(Kept(items, selected)) + multiset(Dropped(items, selected)) == multiset(items)
  {
    if items != [] {
      SelectionPartitions(items[..|items| - 1], selected);
      assert items == items[..|items| - 1] + [items[|items| - 1]];
    }
  }

  ghost function Chosen(items: seq<Item>, selected: set<nat>, x: Item): set<nat> {
    set p: nat | p < |items| && p in selected && items[p] == x
  }

  /** An item is kept as often as it stands at a chosen position. */
  lemma {:induction false} KeptCounts(items: seq<Item>, selected: set<nat>, x: Item)
    ensures multiset(Kept(items, selected))[x] == |Chosen(items, selected, x)|
  {
    if items == [] {
      assert Chosen(items, selected, x) == {};
    } else {
      var n := |items| - 1;
      var rest := items[..n];
      KeptCounts(rest, selected, x);
      assert forall p: nat | p < n :: rest[p] == items[p];
      if n in selected && items[n] == x {
        assert Chosen(items, selected, x) == Chosen(rest, selected, x) + {n};
      } else {
        assert Chosen(items, selected, x) == Chosen(rest, selected, x);
      }
    }
  }

  /** What is kept, and what is dropped, stays in the order of the list. */
  lemma {:induction false} SelectionKeepsOrder(items: seq<Item>, selected: set<nat>)
    ensures IsSubsequence(Kept(items, selected), items) && IsSubsequence(Dropped(items, selected), items)
  {
    if items != [] {
      var rest, last := items[..|items| - 1], items[|items| - 1];
      SelectionKeepsOrder(rest, selected);
      assert items == rest + [last];
      assert Kept(rest, selected) + [] == Kept(rest, selected) && Dropped(rest, selected) + []
        == Dropped(rest, selected);
      hide IsSubsequence;
      SubsequenceOfSnoc(Kept(rest, selected), rest, last);
      SubsequenceOfSnoc(Dropped(rest, selected), rest, last);
    }
  }
}
