/** What survives into the rendered context: protected content, whole and unaltered. */
module Rendering {
  import opened Texts
  import opened Counting
  import opened Layout
  import opened Leasing
  import opened Reclaim
  import opened Preparing

  lemma ContainsAt(t: Text, term: Text, i: nat)
    requires i + |term| <= |t| && t[i..i + |term|] == term
    ensures Contains(t, term)
  {
    assert OccursAt(t, term, i);
  }

  lemma ContainsIsTransitive(a: Text, b: Text, c: Text)
    requires Contains(a, b) && Contains(b, c)
    ensures Contains(a, c)
  {
    var i: nat :| i <= |a| && OccursAt(a, b, i);
    var j: nat :| j <= |b| && OccursAt(b, c, j);
    var inner := a[i + j..i + j + |c|];
    forall k | 0 <= k < |c| ensures inner[k] == c[k] {
      assert a[i..i + |b|][j + k] == b[j + k];
      assert b[j..j + |c|][k] == c[k];
    }
    assert inner == c;
    ContainsAt(a, c, i + j);
  }

  /** A joined text contains each of its parts. */
  lemma {:induction false} JoinContains(parts: seq<Text>, sep: Text, p: Text)
    requires p in parts
    ensures Contains(Join(parts, sep), p)
  {
    if |parts| == 1 {
      assert p[0..] == p;
      ContainsAt(p, p, 0);
    } else {
      var rest := Join(parts[1..], sep);
      var joined := parts[0] + sep + rest;
      if p == parts[0] {
        assert joined[0..0 + |p|] == p;
        ContainsAt(joined, p, 0);
      } else {
        JoinContains(parts[1..], sep, p);
        var n := |parts[0] + sep|;
        assert joined[n..n + |rest|] == rest;
        ContainsAt(joined, rest, n);
        ContainsIsTransitive(joined, rest, p);
      }
    }
  }

  lemma {:induction false} NonEmptyKeeps(parts: seq<Text>, p: Text)
    requires p in parts && p != []
    ensures p in NonEmpty(parts)
  {
    if p != parts[0] {
      NonEmptyKeeps(parts[1..], p);
    }
  }

  lemma JoinedNonEmptyContains(parts: seq<Text>, p: Text)
    requires p in parts
    ensures Contains(Join(NonEmpty(parts), BREAK), p)
  {
    if p == [] {
      ContainsAt(Join(NonEmpty(parts), BREAK), p, 0);
    } else {
      NonEmptyKeeps(parts, p);
      JoinContains(NonEmpty(parts), BREAK, p);
    }
  }

  /** The rendered context contains every chunk of every outcome. */
  lemma ContextContains(outcomes: seq<Outcome>, o: Outcome, c: Chunk)
    requires o in outcomes && c in o.chunks
    ensures Contains(RenderContext(outcomes), Render(c.content))
  {
    var i :| 0 <= i < |o.chunks| && o.chunks[i] == c;
    assert Rendered(o.chunks)[i] == Render(c.content);
    JoinedNonEmptyContains(Rendered(o.chunks), Render(c.content));
    var k :| 0 <= k < |outcomes| && outcomes[k] == o;
    assert ModuleTexts(outcomes)[k] == RenderChunks(o.chunks);
    JoinedNonEmptyContains(ModuleTexts(outcomes), RenderChunks(o.chunks));
    ContainsIsTransitive(RenderContext(outcomes), RenderChunks(o.chunks), Render(c.content));
  }

  /** Reclaimed or not, a module keeps its protected chunks. */
  lemma OutcomeKeepsProtected(m: ModuleDefinition, chunks: seq<Chunk>, granted: int, results: SemanticResults,
                              counts: Calibrated, c: Chunk)
    requires c in chunks && (c.fixed || c.pinned || m.pinned)
    ensures var o := OutcomeOf(m, chunks, granted, results, counts);
            o.Ok? ==> c in o.value.chunks
  {
    hide ReclaimModule, Protected, Elastic, RequiredTerms, ElasticText, CountChunks;
    PartitionIsComplete(m, chunks);
    ReclaimContract(m, chunks, granted, results, counts);
    assert c in Protected(m, chunks);
    var r := ReclaimModule(m, chunks, granted, results, counts);
    if r.Ok? {
      assert c in r.value.chunks[..|Protected(m, chunks)|];
    }
  }

  lemma {:induction false} ProtectedReachOutcomes(order: seq<ModuleDefinition>, i: nat, contributions: Contributions,
                                                  rows: seq<ModuleAllocation>, results: SemanticResults,
                                                  counts: Calibrated, k: nat, c: Chunk)
    returns (o: Outcome)
    requires i <= k < |order| && c in ChunksOf(contributions, order[k].id)
    requires c.fixed || c.pinned || order[k].pinned
    requires OutcomesFrom(order, i, contributions, rows, results, counts).Ok?
    ensures o in OutcomesFrom(order, i, contributions, rows, results, counts).value && c in o.chunks
    decreases |order| - i
  {
    hide OutcomeOf, GrantedBy, ChunksOf;
    var m := order[i];
    var first := OutcomeOf(m, ChunksOf(contributions, m.id), GrantedBy(rows, m.id), results, counts);
    if i == k {
      OutcomeKeepsProtected(m, ChunksOf(contributions, m.id), GrantedBy(rows, m.id), results, counts, c);
      o := first.value;
    } else {
      o := ProtectedReachOutcomes(order, i + 1, contributions, rows, results, counts, k, c);
    }
  }

  /**
   Pinned content survives: whatever the budget, the pipelines and the semantic results, a prepare
   that succeeds renders every fixed or pinned chunk verbatim.
   */
  lemma ProtectedContentIsRendered(d: ArenaDefinition, contributions: Contributions, inputBudget: int,
                                   results: SemanticResults, counts: Calibrated, m: ModuleDefinition, c: Chunk)
    requires ValidModules(d.modules) && m in d.modules
    requires m.id in contributions && c in contributions[m.id].chunks && (c.fixed || c.pinned || m.pinned)
    ensures var plan := PlanContext(d, contributions, inputBudget, results, counts);
            plan.Ok? ==> Holds(plan.value.rendered, Render(c.content))
  {
    hide AllocationStage, OutcomesFrom, RenderContext, Contains;
    var order := Sort(d.modules, ByLayout);
    SortPermutes(d.modules, ByLayout);
    SameMembers(order, d.modules);
    var k :| 0 <= k < |order| && order[k] == m;
    var plan := PlanContext(d, contributions, inputBudget, results, counts);
    if plan.Ok? {
      var rows := AllocationStage(d, contributions, inputBudget, counts).value.rows;
      var o := ProtectedReachOutcomes(order, 0, contributions, rows, results, counts, k, c);
      ContextContains(plan.value.outcomes, o, c);
      ContainsHolds(plan.value.rendered, Render(c.content));
    }
  }
}
