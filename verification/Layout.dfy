/**
 Arena layout: module definitions, what validation guarantees about them, and the three total
 orders the allocator walks them in.
 */
module Layout {
  import opened Basics
  import opened Texts

  /** A module id stands for the rank of its string: only equality and order are used. */
  type ModuleId = int

  type Amounts = map<ModuleId, int>

  datatype Algorithm =
    | NormalizeWhitespaceV1
    | DeduplicateBlocksV1
    | ExtractiveSentenceRankV1
    | BoundaryTruncateV1
    | SemanticSummaryV1
    | SemanticPortfolioV1
    | Unregistered(name: Text)

  /** A reclaim step; the options hold one provider (summary) or a list of them (portfolio). */
  datatype Step = Step(algorithm: Algorithm, provider: Option<Text>, providers: seq<Text>)

  predicate IsSemantic(a: Algorithm) {
    a == SemanticSummaryV1 || a == SemanticPortfolioV1
  }

  datatype ModuleDefinition = ModuleDefinition(
    id: ModuleId, floor: int, target: int, max: int, order: int, weight: real,
    canBorrow: bool, canLend: bool, pinned: bool, pipeline: seq<Step>)

  datatype ArenaDefinition = ArenaDefinition(modules: seq<ModuleDefinition>, frameworkReserve: int)

  // ----- Validation -----

  predicate DistinctIds(ms: seq<ModuleDefinition>) {
    forall i, j | 0 <= i < j < |ms| :: ms[i].id != ms[j].id
  }

  predicate ValidModule(m: ModuleDefinition) {
    && 0 <= m.floor <= m.target <= m.max
    && m.weight > 0.0
    && (m.canBorrow && m.max > m.target ==> m.pipeline != [])
    && AtMostOneSemantic(m.pipeline)
  }

  predicate AtMostOneSemantic(steps: seq<Step>) {
    forall i, j | 0 <= i < j < |steps| :: !(IsSemantic(steps[i].algorithm) && IsSemantic(steps[j].algorithm))
  }

  predicate ValidModules(ms: seq<ModuleDefinition>) {
    DistinctIds(ms) && forall m | m in ms :: ValidModule(m)
  }

  predicate ValidDefinition(d: ArenaDefinition) {
    d.modules != [] && d.frameworkReserve >= 0 && ValidModules(d.modules)
  }

  function FloorTotal(ms: seq<ModuleDefinition>): int {
    if ms == [] then 0 else ms[0].floor + FloorTotal(ms[1..])
  }

  /** The model-budget check: something is usable and the floors fit in it. */
  predicate BudgetFitsFloors(d: ArenaDefinition, input: int) {
    input - d.frameworkReserve > 0 && FloorTotal(d.modules) <= input - d.frameworkReserve
  }

  lemma SomeId(ids: set<ModuleId>)
    ensures ids == {} || exists id :: id in ids
  {
    if forall id :: id !in ids {
      assert ids == {};
    }
  }

  // ----- Amounts by module -----

  /** The amount recorded for `id`, zero when there is none. */
  function Of(a: Amounts, id: ModuleId): int {
    if id in a then a[id] else 0
  }

  function Total(ms: seq<ModuleDefinition>, a: Amounts): int {
    if ms == [] then 0 else Of(a, ms[0].id) + Total(ms[1..], a)
  }

  predicate HasId(ms: seq<ModuleDefinition>, id: ModuleId) {
    exists m | m in ms :: m.id == id
  }

  lemma TailIsDistinct(ms: seq<ModuleDefinition>)
    requires DistinctIds(ms) && ms != []
    ensures DistinctIds(ms[1..]) && !HasId(ms[1..], ms[0].id)
  {
    forall m | m in ms[1..] ensures m.id != ms[0].id {
      var j :| 0 <= j < |ms| - 1 && ms[1..][j] == m;
      assert ms[j + 1] == m;
    }
  }

  lemma {:induction false} TotalUnchanged(ms: seq<ModuleDefinition>, a: Amounts, b: Amounts)
    requires forall m | m in ms :: Of(a, m.id) == Of(b, m.id)
    ensures Total(ms, a) == Total(ms, b)
  {
    if ms != [] {
      TotalUnchanged(ms[1..], a, b);
    }
  }

  /** Posting to one module's account moves the total by the same amount. */
  lemma {:induction false} TotalOfUpdate(ms: seq<ModuleDefinition>, a: Amounts, id: ModuleId, v: int)
    requires DistinctIds(ms) && HasId(ms, id)
    ensures Total(ms, a[id := v]) == Total(ms, a) - Of(a, id) + v
  {
    TailIsDistinct(ms);
    if ms[0].id == id {
      TotalUnchanged(ms[1..], a, a[id := v]);
    } else {
      assert HasId(ms[1..], id) by {
        var m :| m in ms && m.id == id;
        assert m in ms[1..];
      }
      TotalOfUpdate(ms[1..], a, id, v);
    }
  }

  lemma {:induction false} TotalMonotone(ms: seq<ModuleDefinition>, a: Amounts, b: Amounts)
    requires forall m | m in ms :: Of(a, m.id) <= Of(b, m.id)
    ensures Total(ms, a) <= Total(ms, b)
  {
    if ms != [] {
      TotalMonotone(ms[1..], a, b);
    }
  }

  // ----- The orders -----

  datatype Key = ById | ByPriority | ByLayout

  /** Donors go by id, borrowers by weight (heaviest first), rendering by layout order. */
  predicate Before(key: Key, a: ModuleDefinition, b: ModuleDefinition) {
    match key
    case ById => a.id < b.id
    case ByPriority =>
      a.weight > b.weight
      || (a.weight == b.weight && (a.order < b.order || (a.order == b.order && a.id < b.id)))
    case ByLayout => a.order < b.order || (a.order == b.order && a.id < b.id)
  }

  function Insert(m: ModuleDefinition, ms: seq<ModuleDefinition>, key: Key): seq<ModuleDefinition> {
    if ms == [] || Before(key, m, ms[0]) then [m] + ms else [ms[0]] + Insert(m, ms[1..], key)
  }

  function Sort(ms: seq<ModuleDefinition>, key: Key): seq<ModuleDefinition> {
    if ms == [] then [] else Insert(ms[0], Sort(ms[1..], key), key)
  }

  predicate Sorted(ms: seq<ModuleDefinition>, key: Key) {
    forall i, j | 0 <= i < j < |ms| :: Before(key, ms[i], ms[j])
  }

  lemma {:induction false} InsertPermutes(m: ModuleDefinition, ms: seq<ModuleDefinition>, key: Key)
    ensures multiset(Insert(m, ms, key)) == multiset{m} + multiset(ms)
  {
    if ms != [] && !Before(key, m, ms[0]) {
      InsertPermutes(m, ms[1..], key);
      assert ms == [ms[0]] + ms[1..];
    }
  }

  lemma {:induction false} SortPermutes(ms: seq<ModuleDefinition>, key: Key)
    ensures multiset(Sort(ms, key)) == multiset(ms)
  {
    if ms != [] {
      SortPermutes(ms[1..], key);
      InsertPermutes(ms[0], Sort(ms[1..], key), key);
      assert ms == [ms[0]] + ms[1..];
    }
  }

  lemma BeforeIsTransitive(key: Key, a: ModuleDefinition, b: ModuleDefinition, c: ModuleDefinition)
    requires Before(key, a, b) && Before(key, b, c)
    ensures Before(key, a, c)
  {
  }

  lemma SortedCons(m: ModuleDefinition, ms: seq<ModuleDefinition>, key: Key)
    requires Sorted(ms, key) && forall x | x in ms :: Before(key, m, x)
    ensures Sorted([m] + ms, key)
  {
    var r := [m] + ms;
    forall i, j | 0 <= i < j < |r| ensures Before(key, r[i], r[j]) {
      assert r[j] == ms[j - 1];
      if i == 0 {
        assert ms[j - 1] in ms;
      } else {
        assert r[i] == ms[i - 1];
      }
    }
  }

  lemma {:induction false} InsertSorts(m: ModuleDefinition, ms: seq<ModuleDefinition>, key: Key)
    requires Sorted(ms, key) && !HasId(ms, m.id)
    ensures Sorted(Insert(m, ms, key), key)
  {
    if ms == [] {
    } else if Before(key, m, ms[0]) {
      forall x | x in ms ensures Before(key, m, x) {
        if x != ms[0] {
          BeforeIsTransitive(key, m, ms[0], x);
        }
      }
      SortedCons(m, ms, key);
    } else {
      var rest := ms[1..];
      assert ms[0] in ms;
      assert Before(key, ms[0], m);
      assert forall x | x in rest :: Before(key, ms[0], x);
      assert forall x | x in rest :: x in ms;
      InsertSorts(m, rest, key);
      InsertPermutes(m, rest, key);
      forall x | x in Insert(m, rest, key) ensures Before(key, ms[0], x) {
        assert x in multiset(Insert(m, rest, key));
      }
      SortedCons(ms[0], Insert(m, rest, key), key);
    }
  }

  lemma SameMembers(xs: seq<ModuleDefinition>, ys: seq<ModuleDefinition>)
    requires multiset(xs) == multiset(ys)
    ensures |xs| == |ys|
    ensures forall m :: m in xs <==> m in ys
  {
    assert |multiset(xs)| == |xs| && |multiset(ys)| == |ys|;
    assert forall m :: m in xs <==> m in multiset(xs);
    assert forall m :: m in ys <==> m in multiset(ys);
  }

  lemma {:induction false} SortSorts(ms: seq<ModuleDefinition>, key: Key)
    requires DistinctIds(ms)
    ensures Sorted(Sort(ms, key), key)
  {
    if ms != [] {
      TailIsDistinct(ms);
      SortSorts(ms[1..], key);
      SortPermutes(ms[1..], key);
      SameMembers(Sort(ms[1..], key), ms[1..]);
      InsertSorts(ms[0], Sort(ms[1..], key), key);
    }
  }

  lemma SortedHead(xs: seq<ModuleDefinition>, ys: seq<ModuleDefinition>, key: Key)
    requires Sorted(xs, key) && Sorted(ys, key) && xs != [] && ys != []
    requires xs[0] in ys && ys[0] in xs
    ensures xs[0] == ys[0]
  {
    var i :| 0 <= i < |xs| && xs[i] == ys[0];
    var j :| 0 <= j < |ys| && ys[j] == xs[0];
    assert i > 0 ==> Before(key, xs[0], xs[i]);
    assert j > 0 ==> Before(key, ys[0], ys[j]);
  }

  lemma TailMultiset(xs: seq<ModuleDefinition>)
    requires xs != []
    ensures multiset(xs[1..]) == multiset(xs) - multiset{xs[0]}
  {
    assert xs == [xs[0]] + xs[1..];
  }

  /** A set of modules has one sorted arrangement. */
  lemma {:induction false} SortedIsUnique(xs: seq<ModuleDefinition>, ys: seq<ModuleDefinition>, key: Key)
    requires Sorted(xs, key) && Sorted(ys, key) && multiset(xs) == multiset(ys)
    ensures xs == ys
    decreases |xs|
  {
    SameMembers(xs, ys);
    if xs != [] {
      SortedHead(xs, ys, key);
      TailMultiset(xs);
      TailMultiset(ys);
      SortedIsUnique(xs[1..], ys[1..], key);
    }
  }

  lemma PermutationDistinct(xs: seq<ModuleDefinition>, ys: seq<ModuleDefinition>)
    requires multiset(xs) == multiset(ys) && DistinctIds(xs)
    ensures DistinctIds(ys)
  {
    SameMembers(xs, ys);
    forall i, j | 0 <= i < j < |ys| ensures ys[i].id != ys[j].id {
      if ys[i].id == ys[j].id {
        assert ys[i] in xs && ys[j] in xs;
        assert ys[i] == ys[j];
        assert ys == ys[..i] + [ys[i]] + ys[i + 1..j] + [ys[j]] + ys[j + 1..];
        assert multiset(ys)[ys[i]] >= 2;
        OnceInDistinct(xs, ys[i]);
      }
    }
  }

  lemma {:induction false} OnceInDistinct(xs: seq<ModuleDefinition>, m: ModuleDefinition)
    requires DistinctIds(xs)
    ensures multiset(xs)[m] <= 1
  {
    if xs != [] {
      TailIsDistinct(xs);
      OnceInDistinct(xs[1..], m);
      assert xs == [xs[0]] + xs[1..];
      if m == xs[0] {
        assert m !in xs[1..];
        assert m !in multiset(xs[1..]);
      }
    }
  }

  /** Sorting forgets the declaration order. */
  lemma SortOfPermutation(xs: seq<ModuleDefinition>, ys: seq<ModuleDefinition>, key: Key)
    requires multiset(xs) == multiset(ys) && DistinctIds(xs)
    ensures Sort(xs, key) == Sort(ys, key)
  {
    PermutationDistinct(xs, ys);
    SortSorts(xs, key);
    SortSorts(ys, key);
    SortPermutes(xs, key);
    SortPermutes(ys, key);
    SortedIsUnique(Sort(xs, key), Sort(ys, key), key);
  }

  // ----- Selection -----

  function Select(ms: seq<ModuleDefinition>, p: ModuleDefinition -> bool): seq<ModuleDefinition> {
    if ms == [] then []
    else if p(ms[0]) then [ms[0]] + Select(ms[1..], p)
    else Select(ms[1..], p)
  }

  lemma {:induction false} SelectCounts(ms: seq<ModuleDefinition>, p: ModuleDefinition -> bool, m: ModuleDefinition)
    ensures multiset(Select(ms, p))[m] == if p(m) then multiset(ms)[m] else 0
  {
    if ms != [] {
      SelectCounts(ms[1..], p, m);
      assert ms == [ms[0]] + ms[1..];
    }
  }

  lemma SelectOfPermutation(xs: seq<ModuleDefinition>, ys: seq<ModuleDefinition>, p: ModuleDefinition -> bool)
    requires multiset(xs) == multiset(ys)
    ensures multiset(Select(xs, p)) == multiset(Select(ys, p))
  {
    forall m ensures multiset(Select(xs, p))[m] == multiset(Select(ys, p))[m] {
      SelectCounts(xs, p, m);
      SelectCounts(ys, p, m);
    }
  }

  lemma {:induction false} SelectIsFilter(ms: seq<ModuleDefinition>, p: ModuleDefinition -> bool)
    ensures forall m :: m in Select(ms, p) <==> m in ms && p(m)
    ensures DistinctIds(ms) ==> DistinctIds(Select(ms, p))
  {
    if ms != [] {
      SelectIsFilter(ms[1..], p);
      assert forall m :: m in ms <==> m == ms[0] || m in ms[1..];
      if DistinctIds(ms) {
        TailIsDistinct(ms);
        var rest := Select(ms[1..], p);
        assert DistinctIds(rest);
        forall i, j | 0 <= i < j < |[ms[0]] + rest| ensures ([ms[0]] + rest)[i].id != ([ms[0]] + rest)[j].id {
          assert j > 0 ==> ([ms[0]] + rest)[j] in rest;
        }
      }
    }
  }

  /** The selected modules, sorted: what each loop of the allocator iterates over. */
  lemma SelectSortFacts(ms: seq<ModuleDefinition>, p: ModuleDefinition -> bool, key: Key)
    requires DistinctIds(ms)
    ensures var r := Sort(Select(ms, p), key);
            && DistinctIds(r) && Sorted(r, key)
            && forall m :: m in r <==> m in ms && p(m)
  {
    SelectIsFilter(ms, p);
    SortSorts(Select(ms, p), key);
    SortPermutes(Select(ms, p), key);
    SameMembers(Sort(Select(ms, p), key), Select(ms, p));
    PermutationDistinct(Select(ms, p), Sort(Select(ms, p), key));
  }

  lemma SelectSortOfPermutation(xs: seq<ModuleDefinition>, ys: seq<ModuleDefinition>,
                                p: ModuleDefinition -> bool, key: Key)
    requires multiset(xs) == multiset(ys) && DistinctIds(xs)
    ensures Sort(Select(xs, p), key) == Sort(Select(ys, p), key)
  {
    SelectOfPermutation(xs, ys, p);
    SelectIsFilter(xs, p);
    SortOfPermutation(Select(xs, p), Select(ys, p), key);
  }

  lemma {:induction false} TotalOfInsert(m: ModuleDefinition, ms: seq<ModuleDefinition>, key: Key, a: Amounts)
    ensures Total(Insert(m, ms, key), a) == Of(a, m.id) + Total(ms, a)
  {
    if ms == [] || Before(key, m, ms[0]) {
      assert ([m] + ms)[1..] == ms;
    } else {
      TotalOfInsert(m, ms[1..], key, a);
      assert Insert(m, ms, key)[1..] == Insert(m, ms[1..], key);
    }
  }

  lemma {:induction false} TotalOfSort(ms: seq<ModuleDefinition>, key: Key, a: Amounts)
    ensures Total(Sort(ms, key), a) == Total(ms, a)
  {
    if ms != [] {
      TotalOfSort(ms[1..], key, a);
      TotalOfInsert(ms[0], Sort(ms[1..], key), key, a);
    }
  }

  /** A total over all modules does not depend on their order. */
  lemma TotalOfPermutation(xs: seq<ModuleDefinition>, ys: seq<ModuleDefinition>, a: Amounts)
    requires multiset(xs) == multiset(ys) && DistinctIds(xs)
    ensures Total(xs, a) == Total(ys, a)
  {
    SortOfPermutation(xs, ys, ById);
    TotalOfSort(xs, ById, a);
    TotalOfSort(ys, ById, a);
  }
}
