/**
 The recent-usage index over a whole run of prepares and observations, and the calibration the
 observations feed.
 */
module UsageIndex {
  import opened Basics
  import opened EventLog

  const INDEX_CAPACITY: nat := 2_048

  datatype IndexStep = PreparedStep(id: CallId) | ObservedStep(id: CallId)

  function Without(order: seq<CallId>, id: CallId): seq<CallId> {
    if order == [] then []
    else (if order[0] == id then [] else [order[0]]) + Without(order[1..], id)
  }

  /** The index after a step: a prepare moves its id to the back, the front pays for overflow. */
  function IndexStepped(order: seq<CallId>, step: IndexStep): seq<CallId> {
    match step
    case PreparedStep(id) => Tail(Without(order, id) + [id], INDEX_CAPACITY)
    case ObservedStep(id) => Without(order, id)
  }

  function IndexAfter(history: seq<IndexStep>): seq<CallId> {
    if history == [] then []
    else IndexStepped(IndexAfter(history[..|history| - 1]), history[|history| - 1])
  }

  predicate NoDuplicates(order: seq<CallId>) {
    forall i, j | 0 <= i < j < |order| :: order[i] != order[j]
  }

  lemma {:induction false} WithoutMembers(order: seq<CallId>, id: CallId)
    ensures forall x :: x in Without(order, id) <==> x in order && x != id
  {
    if order != [] {
      WithoutMembers(order[1..], id);
      assert order == [order[0]] + order[1..];
    }
  }

  lemma {:induction false} WithoutLength(order: seq<CallId>, id: CallId)
    ensures |Without(order, id)| <= |order|
  {
    if order != [] {
      WithoutLength(order[1..], id);
    }
  }

  lemma {:induction false} WithoutNoDuplicates(order: seq<CallId>, id: CallId)
    requires NoDuplicates(order)
    ensures NoDuplicates(Without(order, id))
  {
    if order != [] {
      var rest := order[1..];
      WithoutNoDuplicates(rest, id);
      WithoutMembers(rest, id);
      assert order[0] !in rest;
      var kept := Without(rest, id);
      assert forall i | 0 <= i < |kept| :: kept[i] in kept;
    }
  }

  lemma WithoutFacts(order: seq<CallId>, id: CallId)
    ensures forall x :: x in Without(order, id) <==> x in order && x != id
    ensures NoDuplicates(order) ==> NoDuplicates(Without(order, id))
    ensures |Without(order, id)| <= |order|
  {
    WithoutMembers(order, id);
    WithoutLength(order, id);
    if NoDuplicates(order) {
      WithoutNoDuplicates(order, id);
    }
  }

  lemma {:induction false} WithoutAbsent(order: seq<CallId>, id: CallId)
    requires id !in order
    ensures Without(order, id) == order
  {
    if order != [] {
      WithoutAbsent(order[1..], id);
    }
  }

  /** The index never repeats an id and never exceeds its capacity. */
  lemma {:induction false} IndexIsBounded(history: seq<IndexStep>)
    ensures NoDuplicates(IndexAfter(history)) && |IndexAfter(history)| <= INDEX_CAPACITY
  {
    if history != [] {
      var before := IndexAfter(history[..|history| - 1]);
      var step := history[|history| - 1];
      IndexIsBounded(history[..|history| - 1]);
      WithoutFacts(before, step.id);
      if step.PreparedStep? {
        var grown := Without(before, step.id) + [step.id];
        assert forall i | 0 <= i < |grown| - 1 :: grown[i] in Without(before, step.id);
        assert NoDuplicates(grown);
      }
    }
  }

  lemma {:induction false} WithoutShrinks(order: seq<CallId>, id: CallId)
    requires id in order
    ensures |Without(order, id)| < |order|
  {
    if order[0] == id {
      WithoutLength(order[1..], id);
    } else {
      WithoutShrinks(order[1..], id);
    }
  }

  /**
   A prepare evicts nothing while the index holds fewer than 2048 ids, or already holds its own;
   at 2048 it evicts exactly the first.
   */
  lemma EvictsOnlyWhenFull(history: seq<IndexStep>, call: CallId)
    ensures var before, after := IndexAfter(history), IndexAfter(history + [PreparedStep(call)]);
            && |after| <= 2_048 && call in after
            && (|before| < 2_048 || call in before ==> forall id :: id in after <==> id in before || id == call)
            && (|before| == 2_048 && call !in before ==> after == before[1..] + [call])
  {
    var grown := history + [PreparedStep(call)];
    assert grown[..|grown| - 1] == history;
    var before := IndexAfter(history);
    IndexIsBounded(history);
    IndexIsBounded(grown);
    WithoutFacts(before, call);
    var all := Without(before, call) + [call];
    assert IndexAfter(grown) == Tail(all, INDEX_CAPACITY);
    assert all[|all| - 1] == call;
    hide IndexAfter, NoDuplicates;
    if call in before {
      WithoutShrinks(before, call);
    } else {
      WithoutAbsent(before, call);
    }
  }

  /** The position of an id's latest prepare, counted from one; zero if it has none. */
  function LastPrepared(history: seq<IndexStep>, id: CallId): nat {
    if history == [] then 0
    else if history[|history| - 1] == PreparedStep(id) then |history|
    else LastPrepared(history[..|history| - 1], id)
  }

  predicate OrderedByPrepare(history: seq<IndexStep>, order: seq<CallId>) {
    && (forall i | 0 <= i < |order| :: 0 < LastPrepared(history, order[i]) <= |history|)
    && (forall i, j | 0 <= i < j < |order| :: LastPrepared(history, order[i]) < LastPrepared(history, order[j]))
  }

  lemma {:induction false} LastPreparedBounded(history: seq<IndexStep>, id: CallId)
    ensures LastPrepared(history, id) <= |history|
  {
    if history != [] {
      LastPreparedBounded(history[..|history| - 1], id);
    }
  }

  lemma OrderedCons(history: seq<IndexStep>, x: CallId, rest: seq<CallId>)
    requires OrderedByPrepare(history, rest) && 0 < LastPrepared(history, x) <= |history|
    requires forall y | y in rest :: LastPrepared(history, x) < LastPrepared(history, y)
    ensures OrderedByPrepare(history, [x] + rest)
  {
    var order := [x] + rest;
    assert forall i | 0 < i < |order| :: order[i] == rest[i - 1] && order[i] in rest;
  }

  lemma OrderedTail(history: seq<IndexStep>, order: seq<CallId>)
    requires OrderedByPrepare(history, order) && order != []
    ensures OrderedByPrepare(history, order[1..])
    ensures forall y | y in order[1..] :: LastPrepared(history, order[0]) < LastPrepared(history, y)
  {
    forall y | y in order[1..] ensures LastPrepared(history, order[0]) < LastPrepared(history, y) {
      var j :| 0 <= j < |order| - 1 && order[1..][j] == y;
      assert order[j + 1] == y;
    }
  }

  lemma {:induction false} WithoutStaysOrdered(history: seq<IndexStep>, order: seq<CallId>, id: CallId)
    requires OrderedByPrepare(history, order)
    ensures OrderedByPrepare(history, Without(order, id))
  {
    hide LastPrepared;
    if order != [] {
      OrderedTail(history, order);
      WithoutStaysOrdered(history, order[1..], id);
      WithoutMembers(order[1..], id);
      if order[0] != id {
        OrderedCons(history, order[0], Without(order[1..], id));
      }
    }
  }

  /** The index runs from least to most recently prepared, so eviction takes the oldest prepare. */
  lemma {:induction false} IndexIsByPrepareOrder(history: seq<IndexStep>)
    ensures OrderedByPrepare(history, IndexAfter(history))
  {
    if history != [] {
      var earlier, step := history[..|history| - 1], history[|history| - 1];
      var before := IndexAfter(earlier);
      IndexIsByPrepareOrder(earlier);
      WithoutStaysOrdered(earlier, before, step.id);
      WithoutFacts(before, step.id);
      var kept := Without(before, step.id);
      forall i | 0 <= i < |kept| ensures LastPrepared(history, kept[i]) == LastPrepared(earlier, kept[i]) {
        assert kept[i] in kept;
      }
      if step.PreparedStep? {
        var grown := kept + [step.id];
        assert LastPrepared(history, step.id) == |history|;
        assert OrderedByPrepare(history, grown);
      }
    }
  }

  // ----- Each prepare is observed at most once -----

  function Occurrences(history: seq<IndexStep>, step: IndexStep): nat {
    if history == [] then 0
    else Occurrences(history[..|history| - 1], step) + (if history[|history| - 1] == step then 1 else 0)
  }

  /** Every observation in the run was accepted: its id was in the index at the time. */
  predicate Accepted(history: seq<IndexStep>) {
    history == []
    || (Accepted(history[..|history| - 1])
        && (history[|history| - 1].ObservedStep? ==>
              history[|history| - 1].id in IndexAfter(history[..|history| - 1])))
  }

  /** Accepted observations of an id, plus one still pending, never outnumber its prepares. */
  lemma {:induction false} PreparesCoverObservations(history: seq<IndexStep>, id: CallId)
    requires Accepted(history)
    ensures Occurrences(history, ObservedStep(id)) + (if id in IndexAfter(history) then 1 else 0)
            <= Occurrences(history, PreparedStep(id))
  {
    if history != [] {
      var earlier, step := history[..|history| - 1], history[|history| - 1];
      PreparesCoverObservations(earlier, id);
      WithoutFacts(IndexAfter(earlier), step.id);
      if step.PreparedStep? {
        var grown := Without(IndexAfter(earlier), step.id) + [step.id];
        assert forall x | x in Tail(grown, INDEX_CAPACITY) :: x in grown;
      }
    }
  }

  // ----- Calibration -----

  datatype Calibration = Calibration(samples: nat, ewma: real, multiplier: real, lastEstimated: int, lastActual: int)

  function Ratio(actual: int, estimated: int): real {
    if estimated <= 0 then 1.0 else actual as real / estimated as real
  }

  /** One more observation: the first ratio is taken as it is, later ones weigh a fifth. */
  function Recalibrated(previous: Option<Calibration>, actual: int, estimated: int): Calibration {
    var samples := (if previous.Some? then previous.value.samples else 0) + 1;
    var average := if previous.Some? then previous.value.ewma else 1.0;
    var ratio := Ratio(actual, estimated);
    var ewma := if samples == 1 then ratio else 0.2 * ratio + 0.8 * average;
    Calibration(samples, ewma, if ewma < 1.0 then 1.0 else ewma, estimated, actual)
  }

  /** The average of a run of ratios, oldest first. */
  function Ewma(ratios: seq<real>): real
    requires ratios != []
  {
    if |ratios| == 1 then ratios[0] else 0.2 * ratios[|ratios| - 1] + 0.8 * Ewma(ratios[..|ratios| - 1])
  }

  /** A calibration record stands for the ratios observed so far. */
  predicate Represents(c: Calibration, ratios: seq<real>) {
    && ratios != [] && c.samples == |ratios| && c.ewma == Ewma(ratios)
    && c.multiplier == (if c.ewma < 1.0 then 1.0 else c.ewma)
  }

  lemma CalibrationStep(previous: Option<Calibration>, ratios: seq<real>, actual: int, estimated: int)
    requires if previous.Some? then Represents(previous.value, ratios) else ratios == []
    ensures Represents(Recalibrated(previous, actual, estimated), ratios + [Ratio(actual, estimated)])
  {
    var grown := ratios + [Ratio(actual, estimated)];
    assert grown[..|grown| - 1] == ratios;
  }

  /**
   What one report teaches, in the numbers reported: a profile's first report is taken as it is, a
   later one weighs a fifth against the average before it, and a report on an estimate of nothing
   counts as exact. The multiplier is the average, but never below one.
   */
  predicate Learns(before: Option<Calibration>, after: Calibration, estimated: int, actual: int) {
    var e, a := estimated as real, actual as real;
    && after.samples == (if before.None? then 1 else before.value.samples + 1)
    && after.lastEstimated == estimated && after.lastActual == actual
    && (before.None? && estimated > 0 ==> after.ewma * e == a)
    && (before.None? && estimated <= 0 ==> after.ewma == 1.0)
    && (before.Some? && estimated > 0 ==> 5.0 * (after.ewma * e) == a + 4.0 * (before.value.ewma * e))
    && (before.Some? && estimated <= 0 ==> 5.0 * after.ewma == 1.0 + 4.0 * before.value.ewma)
    && after.multiplier >= 1.0 && after.multiplier >= after.ewma
    && (after.multiplier == 1.0 || after.multiplier == after.ewma)
  }

  lemma ReportTeaches(previous: Option<Calibration>, actual: int, estimated: int)
    requires previous.Some? ==> previous.value.samples > 0
    ensures Learns(previous, Recalibrated(previous, actual, estimated), estimated, actual)
  {
    var after := Recalibrated(previous, actual, estimated);
    if estimated > 0 {
      var e, a := estimated as real, actual as real;
      var ratio := a / e;
      assert ratio * e == a;
      if previous.Some? {
        var average := previous.value.ewma;
        Blend(ratio, average, e);
        assert after.ewma == 0.2 * ratio + 0.8 * average;
      }
    }
  }

  lemma Blend(x: real, y: real, e: real)
    ensures 5.0 * ((0.2 * x + 0.8 * y) * e) == x * e + 4.0 * (y * e)
  {
  }

  /** A first report over its estimate makes the multiplier actual over estimated; otherwise it stays one. */
  lemma FirstReportSetsMultiplier(after: Calibration, estimated: int, actual: int)
    requires Learns(None, after, estimated, actual) && estimated > 0
    ensures actual > estimated ==> after.multiplier * estimated as real == actual as real
    ensures actual <= estimated ==> after.multiplier == 1.0
  {
    var e, a := estimated as real, actual as real;
    if actual > estimated {
      if after.ewma <= 1.0 {
        ScaleMonotone(after.ewma, 1.0, e);
        assert false;
      }
    } else if after.ewma > 1.0 {
      ScaleMonotone(1.0, after.ewma, e);
      Times(after.ewma - 1.0, e);
      assert false;
    }
  }

  lemma Times(x: real, e: real)
    requires x > 0.0 && e > 0.0
    ensures x * e > 0.0
  {
  }

  lemma {:induction false} EwmaStaysBetween(ratios: seq<real>, lo: real, hi: real)
    requires ratios != [] && forall i | 0 <= i < |ratios| :: lo <= ratios[i] <= hi
    ensures lo <= Ewma(ratios) <= hi
  {
    if |ratios| > 1 {
      EwmaStaysBetween(ratios[..|ratios| - 1], lo, hi);
    }
  }

  /** The safety multiplier is at least one, and at most one or the largest ratio ever observed. */
  lemma MultiplierBounds(c: Calibration, ratios: seq<real>, lo: real, hi: real)
    requires Represents(c, ratios) && forall i | 0 <= i < |ratios| :: lo <= ratios[i] <= hi
    ensures lo <= c.ewma <= hi
    ensures 1.0 <= c.multiplier && c.multiplier <= (if hi < 1.0 then 1.0 else hi)
    ensures c.multiplier >= lo
  {
    EwmaStaysBetween(ratios, lo, hi);
  }
}
