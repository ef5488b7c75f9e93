/**
 The arena's mutable state, its transactions, and usage calibration. Ghost fields remember the
 whole run: every event ever committed, every prepare and observation, every observed ratio.
 */
module ArenaStates {
  import opened Basics
  import opened Texts
  import opened Layout
  import opened Leasing
  import opened Usage
  import opened EventLog
  import opened UsageIndex

  datatype CalibrationKey = CalibrationKey(model: Text, tokenizer: Text, version: Text)

  datatype RecentUsage = RecentUsage(key: CalibrationKey, estimated: int)

  /** A calibration as it is published, with the profile it belongs to. */
  datatype ShownCalibration = ShownCalibration(key: CalibrationKey, value: Calibration)

  /** `changeRates` holds the change rate of each module's usage row. */
  datatype Snapshot = Snapshot(snapshotSeq: nat, call: CallId, key: CalibrationKey, usedTokens: int, usable: int,
                               utilization: real, pressure: Pressure, modules: seq<ModuleUsage>,
                               changeRates: seq<real>, leases: seq<Lease>, calibration: Option<ShownCalibration>,
                               eventsDropped: nat, lastCalibration: Option<nat>)

  /** The snapshot shows a calibration of the profile it was taken for, and no other. */
  predicate ShowsOwnProfile(s: Snapshot) {
    s.calibration.Some? ==> s.calibration.value.key == s.key
  }

  /** What a ring has lost once `pushed` events have gone through it. */
  function RingDrops(inherited: nat, pushed: int): nat {
    inherited + Max(0, pushed - RING_CAPACITY)
  }

  lemma RingDropsOf(log: seq<Event>, start: nat, inherited: nat, events: seq<Event>, dropped: nat, eventSeq: nat)
    requires RingWindows(log, start, inherited, events, dropped, eventSeq)
    ensures dropped == RingDrops(inherited, |log| - start)
  {
  }

  datatype UsageError = InvalidObservation | UnknownRequest

  /** The ring windows the log past `start`, and every event is in it, dropped, or before it. */
  predicate RingWindows(log: seq<Event>, start: nat, inherited: nat, events: seq<Event>, dropped: nat, eventSeq: nat) {
    && start <= |log| && eventSeq == |log| && Numbered(log)
    && events == Tail(log[start..], RING_CAPACITY)
    && dropped + |events| == inherited + |log| - start
  }

  /** The usage index is what the run's prepares and accepted observations make of it. */
  ghost predicate IndexFollows(history: seq<IndexStep>, order: seq<CallId>, usage: map<CallId, RecentUsage>) {
    order == IndexAfter(history) && Accepted(history) && SameIds(usage, order)
  }

  ghost predicate CalibrationsFollow(calibrations: map<CalibrationKey, Calibration>,
                                     ratios: map<CalibrationKey, seq<real>>) {
    && calibrations.Keys == ratios.Keys
    && forall k | k in calibrations :: Represents(calibrations[k], ratios[k])
  }

  /** The lease events of the log add up to the leases in force. */
  ghost predicate LedgerBalances(log: seq<Event>, leases: ActiveLeases) {
    && (forall key | key in leases :: leases[key].granted > 0)
    && forall key :: Net(log, key) == GrantedIn(leases, key)
  }

  /** Events that move no lease. */
  predicate Neutral(kind: EventKind) {
    !kind.LeaseGranted? && !kind.LeaseReclaimed?
  }

  lemma NeutralKeepsLedger(log: seq<Event>, e: Event, leases: ActiveLeases)
    requires LedgerBalances(log, leases) && Neutral(e.kind)
    ensures LedgerBalances(log + [e], leases)
  {
    forall key ensures Net(log + [e], key) == GrantedIn(leases, key) {
      NetOfPush(log, e, key);
    }
  }

  ghost predicate SameIds(usage: map<CallId, RecentUsage>, order: seq<CallId>) {
    forall id :: id in usage <==> id in order
  }

  lemma PreparedIndex(history: seq<IndexStep>, order: seq<CallId>, call: CallId)
    requires order == IndexAfter(history) && Accepted(history)
    ensures var grown := history + [PreparedStep(call)];
            IndexAfter(grown) == Tail(Without(order, call) + [call], INDEX_CAPACITY) && Accepted(grown)
  {
    var grown := history + [PreparedStep(call)];
    assert grown[..|grown| - 1] == history;
  }

  lemma GrownFacts(order: seq<CallId>, call: CallId)
    requires NoDuplicates(order)
    ensures var grown := Without(order, call) + [call];
            NoDuplicates(grown) && forall x :: x in grown <==> x in order || x == call
  {
    WithoutFacts(order, call);
    var kept := Without(order, call);
    assert forall i | 0 <= i < |kept| :: kept[i] in kept;
  }

  lemma NoDuplicatesSuffix(order: seq<CallId>, k: nat)
    requires NoDuplicates(order) && k < |order|
    ensures order[k] !in order[k + 1..]
  {
  }

  lemma ObservedIndex(history: seq<IndexStep>, order: seq<CallId>, usage: map<CallId, RecentUsage>, call: CallId)
    requires IndexFollows(history, order, usage) && call in usage
    ensures IndexFollows(history + [ObservedStep(call)], Without(order, call), usage - {call})
  {
    WithoutFacts(order, call);
    var grown := history + [ObservedStep(call)];
    assert grown[..|grown| - 1] == history;
  }

  lemma CalibrationObserved(calibrations: map<CalibrationKey, Calibration>, ratios: map<CalibrationKey, seq<real>>,
                            key: CalibrationKey, actual: int, estimated: int)
    requires CalibrationsFollow(calibrations, ratios)
    ensures var previous := if key in calibrations then Some(calibrations[key]) else None;
            var seen := if key in ratios then ratios[key] else [];
            CalibrationsFollow(calibrations[key := Recalibrated(previous, actual, estimated)],
                               ratios[key := seen + [Ratio(actual, estimated)]])
  {
    var previous := if key in calibrations then Some(calibrations[key]) else None;
    CalibrationStep(previous, if key in ratios then ratios[key] else [], actual, estimated);
  }

  lemma KnownHasSamples(calibrations: map<CalibrationKey, Calibration>, ratios: map<CalibrationKey, seq<real>>,
                        key: CalibrationKey)
    requires CalibrationsFollow(calibrations, ratios)
    ensures key in calibrations ==> calibrations[key].samples > 0
  {
  }

  lemma LogLengthIsSeq(log: seq<Event>, start: nat, inherited: nat, events: seq<Event>, dropped: nat, eventSeq: nat)
    requires RingWindows(log, start, inherited, events, dropped, eventSeq)
    ensures eventSeq == |log|
  {
  }

  lemma RingMeans(log: seq<Event>, events: seq<Event>, dropped: nat, eventSeq: nat)
    requires RingWindows(log, 0, 0, events, dropped, eventSeq)
    ensures |events| <= RING_CAPACITY && dropped + |events| == eventSeq == |log|
    ensures forall i | 0 <= i < |events| :: events[i] == log[dropped + i] && events[i].seqNo == dropped + i + 1
  {
    assert log[0..] == log;
    assert events == Tail(log, RING_CAPACITY);
    assert events == log[dropped..];
    forall i | 0 <= i < |events| ensures events[i] == log[dropped + i] && events[i].seqNo == dropped + i + 1 {
      assert log[dropped + i].seqNo == dropped + i + 1;
    }
  }

  lemma IndexMeans(history: seq<IndexStep>, order: seq<CallId>, usage: map<CallId, RecentUsage>)
    requires IndexFollows(history, order, usage)
    ensures NoDuplicates(order) && |order| <= INDEX_CAPACITY && SameIds(usage, order)
    ensures forall id :: Occurrences(history, ObservedStep(id)) + (if id in usage then 1 else 0)
                         <= Occurrences(history, PreparedStep(id))
  {
    IndexIsBounded(history);
    forall id ensures Occurrences(history, ObservedStep(id)) + (if id in usage then 1 else 0)
                      <= Occurrences(history, PreparedStep(id)) {
      PreparesCoverObservations(history, id);
    }
  }

  /** A snapshot after a usage report. */
  function Stamped(s: Snapshot, shown: ShownCalibration, eventSeqNo: nat, eventsDropped: nat): Snapshot {
    s.(calibration := Some(shown), lastCalibration := Some(eventSeqNo), eventsDropped := eventsDropped)
  }

  /**
   The latest snapshot after a usage report is the one before, stamped: it shows its own profile
   exactly when the report was for that profile.
   */
  predicate StampedFrom(before: Option<Snapshot>, after: Option<Snapshot>, shown: ShownCalibration, eventSeqNo: nat,
                        eventsDropped: nat) {
    match before
    case None => after == None
    case Some(s) =>
      && after == Some(Stamped(s, shown, eventSeqNo, eventsDropped))
      && (ShowsOwnProfile(after.value) <==> shown.key == s.key)
  }

  class ArenaState {
    var requestSeq: nat
    var snapshotSeq: nat
    var eventSeq: nat
    var previousUsage: Amounts
    var activeLeases: ActiveLeases
    var calibrations: map<CalibrationKey, Calibration>
    var recentUsage: map<CallId, RecentUsage>
    var recentOrder: seq<CallId>
    var events: seq<Event>
    var eventsDropped: nat
    var latestSnapshot: Option<Snapshot>

    /** Every event numbered so far; the ring windows what came after `start`. */
    ghost var log: seq<Event>
    ghost var start: nat
    /** Events already dropped, or left behind in the committed ring, when this ring was opened. */
    ghost var inherited: nat
    ghost var history: seq<IndexStep>
    ghost var ratios: map<CalibrationKey, seq<real>>

    ghost predicate RingValid()
      reads this
    {
      RingWindows(log, start, inherited, events, eventsDropped, eventSeq)
    }

    ghost predicate UsageValid()
      reads this
    {
      IndexFollows(history, recentOrder, recentUsage)
    }

    ghost predicate CalibrationsValid()
      reads this
    {
      CalibrationsFollow(calibrations, ratios)
    }

    ghost predicate LedgerValid()
      reads this
    {
      LedgerBalances(log, activeLeases)
    }

    ghost predicate SnapshotValid()
      reads this
    {
      latestSnapshot.Some? ==> latestSnapshot.value.eventsDropped == eventsDropped
    }

    /** A calibration on show is the one in force for the profile it names. */
    ghost predicate ShowsCurrent()
      reads this
    {
      latestSnapshot.Some? && latestSnapshot.value.calibration.Some? ==>
        var shown := latestSnapshot.value.calibration.value;
        shown.key in calibrations && calibrations[shown.key] == shown.value
    }

    /** What holds of the arena between operations. */
    ghost predicate Committed()
      reads this
    {
      && RingValid() && start == 0 && inherited == 0
      && UsageValid() && CalibrationsValid() && LedgerValid() && SnapshotValid() && ShowsCurrent()
    }

    constructor ()
      ensures Committed() && log == [] && history == [] && calibrations == map[]
      ensures recentUsage == map[] && activeLeases == map[] && latestSnapshot == None
    {
      requestSeq, snapshotSeq, eventSeq := 0, 0, 0;
      previousUsage, activeLeases, calibrations := map[], map[], map[];
      recentUsage, recentOrder := map[], [];
      events, eventsDropped, latestSnapshot := [], 0, None;
      log, start, inherited, history, ratios := [], 0, 0, [], map[];
    }

    /** The multiplier a counter for this profile is built with. */
    function MultiplierFor(key: CalibrationKey): real
      reads this
    {
      if key in calibrations then calibrations[key].multiplier else 1.0
    }

    lemma MultiplierAtLeastOne(key: CalibrationKey)
      requires CalibrationsValid()
      ensures MultiplierFor(key) >= 1.0
    {
    }

    /**
     What the invariant means after any run: the ring holds the latest events, gap-free up to the
     last number; nothing is lost uncounted; the usage index is bounded, duplicate-free and in
     step with its map; no multiplier is below one; and the lease events ever committed sum to
     the leases in force.
     */
    lemma CommittedMeans()
      requires Committed()
      ensures |events| <= RING_CAPACITY && eventsDropped + |events| == eventSeq == |log|
      ensures forall i | 0 <= i < |events| ::
                events[i] == log[eventsDropped + i] && events[i].seqNo == eventsDropped + i + 1
      ensures NoDuplicates(recentOrder) && |recentOrder| <= INDEX_CAPACITY && SameIds(recentUsage, recentOrder)
      ensures forall id :: Occurrences(history, ObservedStep(id)) + (if id in recentUsage then 1 else 0)
                           <= Occurrences(history, PreparedStep(id))
      ensures forall key :: MultiplierFor(key) >= 1.0
      ensures forall key :: Net(log, key) == GrantedIn(activeLeases, key)
      ensures latestSnapshot.Some? ==> latestSnapshot.value.eventsDropped == eventsDropped == RingDrops(0, |log|)
      ensures ShowsCurrent()
    {
      RingDropsOf(log, 0, 0, events, eventsDropped, eventSeq);
      hide RingWindows, IndexFollows, CalibrationsFollow, Occurrences, Net, MultiplierFor, SameIds, NoDuplicates,
           GrantedIn;
      RingMeans(log, events, eventsDropped, eventSeq);
      IndexMeans(history, recentOrder, recentUsage);
      MultipliersMean();
    }

    lemma MultipliersMean()
      requires CalibrationsValid()
      ensures forall key :: MultiplierFor(key) >= 1.0
    {
      forall key ensures MultiplierFor(key) >= 1.0 {
        MultiplierAtLeastOne(key);
      }
    }

    // ----- The event ring -----

    method PushEvent(call: CallId, kind: EventKind) returns (e: Event)
      requires RingValid()
      modifies `eventSeq, `events, `eventsDropped, `log
      ensures RingValid()
      ensures e == Event(old(|log|) + 1, call, kind) && log == old(log) + [e]
    {
      eventSeq := eventSeq + 1;
      e := Event(eventSeq, call, kind);
      PushKeepsWindow(log[start..], e, RING_CAPACITY);
      assert log[start..] + [e] == (log + [e])[start..];
      if |events| == RING_CAPACITY {
        events := events[1..];
        eventsDropped := eventsDropped + 1;
      }
      events := events + [e];
      log := log + [e];
    }

    method ReadEvents(afterSeq: nat, limit: int) returns (r: seq<Event>)
      requires Committed()
      ensures r == LogSlice(log, if afterSeq > eventsDropped then afterSeq else eventsDropped, limit)
      ensures r == LogSlice(log, afterSeq, limit) <==> afterSeq >= eventsDropped
    {
      r := EventsAfter(events, afterSeq, limit);
      assert log[0..] == log;
      ReadingTheRing(log, RING_CAPACITY, afterSeq, limit);
      RingAnswersIff(log, RING_CAPACITY, afterSeq, limit);
    }

    // ----- Transactions -----

    /** A working copy: everything but the events, which start an empty ring of their own. */
    constructor Transaction(from: ArenaState)
      requires from.Committed()
      ensures RingValid() && UsageValid() && CalibrationsValid() && LedgerValid()
      ensures log == from.log && start == |log| && inherited == from.eventsDropped
      ensures requestSeq == from.requestSeq && snapshotSeq == from.snapshotSeq && previousUsage == from.previousUsage
      ensures activeLeases == from.activeLeases && calibrations == from.calibrations && ratios == from.ratios
      ensures recentUsage == from.recentUsage && recentOrder == from.recentOrder && history == from.history
      ensures latestSnapshot == from.latestSnapshot
    {
      requestSeq, snapshotSeq, eventSeq := from.requestSeq, from.snapshotSeq, from.eventSeq;
      previousUsage, activeLeases, calibrations := from.previousUsage, from.activeLeases, from.calibrations;
      recentUsage, recentOrder := from.recentUsage, from.recentOrder;
      events, eventsDropped, latestSnapshot := [], from.eventsDropped, from.latestSnapshot;
      log, start, inherited := from.log, |from.log|, from.eventsDropped;
      history, ratios := from.history, from.ratios;
    }

    /** Moves a transaction's events into the ring, one by one, each push paying its own drop. */
    method DrainEvents(moved: seq<Event>)
      modifies `events, `eventsDropped
      requires |events| <= RING_CAPACITY && |moved| <= RING_CAPACITY
      ensures events == Tail(old(events) + moved, RING_CAPACITY)
      ensures eventsDropped + |events| == old(eventsDropped) + old(|events|) + |moved|
    {
      assert old(events) + moved[..0] == old(events);
      for i := 0 to |moved|
        invariant events == Tail(old(events) + moved[..i], RING_CAPACITY)
        invariant eventsDropped + |events| == old(eventsDropped) + old(|events|) + i
      {
        PushKeepsWindow(old(events) + moved[..i], moved[i], RING_CAPACITY);
        assert old(events) + moved[..i] + [moved[i]] == old(events) + moved[..i + 1];
        if |events| == RING_CAPACITY {
          events := events[1..];
          eventsDropped := eventsDropped + 1;
        }
        events := events + [moved[i]];
      }
      assert moved[..|moved|] == moved;
    }

    method AdoptCounters(t: ArenaState)
      modifies `requestSeq, `snapshotSeq, `eventSeq, `previousUsage
      ensures requestSeq == t.requestSeq && snapshotSeq == t.snapshotSeq
      ensures eventSeq == t.eventSeq && previousUsage == t.previousUsage
    {
      requestSeq, snapshotSeq, eventSeq := t.requestSeq, t.snapshotSeq, t.eventSeq;
      previousUsage := t.previousUsage;
    }

    method AdoptRecords(t: ArenaState)
      modifies `activeLeases, `calibrations, `ratios, `recentUsage, `recentOrder, `history
      ensures activeLeases == t.activeLeases && calibrations == t.calibrations && ratios == t.ratios
      ensures recentUsage == t.recentUsage && recentOrder == t.recentOrder && history == t.history
    {
      activeLeases, calibrations, ratios := t.activeLeases, t.calibrations, t.ratios;
      recentUsage, recentOrder, history := t.recentUsage, t.recentOrder, t.history;
    }

    /** The transaction's events join the ring, which then windows the whole log. */
    method AdoptEvents(t: ArenaState)
      requires RingWindows(log, 0, 0, events, eventsDropped, |log|)
      requires t != this && t.RingValid() && t.start == |log| && t.inherited == eventsDropped && log == t.log[..|log|]
      modifies `events, `eventsDropped, `log
      ensures log == t.log && RingWindows(log, 0, 0, events, eventsDropped, t.eventSeq)
    {
      hide Numbered;
      ghost var before, own := log, t.log[t.start..];
      assert log[0..] == log;
      assert t.log == before + own;
      eventsDropped := t.eventsDropped;
      DrainEvents(t.events);
      TailOfTails(before, own, RING_CAPACITY);
      log := t.log;
      assert log[0..] == log;
    }

    method AdoptSnapshot(t: ArenaState)
      modifies `latestSnapshot
      ensures SnapshotValid()
      ensures latestSnapshot.Some? <==> t.latestSnapshot.Some?
      ensures t.latestSnapshot.Some? ==>
                latestSnapshot.value == t.latestSnapshot.value.(eventsDropped := eventsDropped)
    {
      latestSnapshot := t.latestSnapshot;
      if latestSnapshot.Some? {
        latestSnapshot := Some(latestSnapshot.value.(eventsDropped := eventsDropped));
      }
    }

    /** Everything a transaction holds becomes the arena's state; the ring windows the whole log. */
    method CommitTransaction(t: ArenaState)
      requires Committed() && t != this
      requires t.RingValid() && t.UsageValid() && t.CalibrationsValid() && t.LedgerValid() && t.ShowsCurrent()
      requires t.start == |log| && t.inherited == eventsDropped && log == t.log[..|log|]
      modifies this
      ensures Committed()
      ensures log == t.log && history == t.history && ratios == t.ratios
      ensures requestSeq == t.requestSeq && snapshotSeq == t.snapshotSeq && previousUsage == t.previousUsage
      ensures activeLeases == t.activeLeases && calibrations == t.calibrations
      ensures recentUsage == t.recentUsage && recentOrder == t.recentOrder
      ensures latestSnapshot.Some? <==> t.latestSnapshot.Some?
      ensures t.latestSnapshot.Some? ==>
                latestSnapshot.value == t.latestSnapshot.value.(eventsDropped := eventsDropped)
    {
      hide RingWindows, IndexFollows, CalibrationsFollow, LedgerBalances;
      LogLengthIsSeq(log, start, inherited, events, eventsDropped, eventSeq);
      AdoptEvents(t);
      AdoptCounters(t);
      AdoptRecords(t);
      AdoptSnapshot(t);
    }

    // ----- Usage -----

    /** Drops the oldest entries past capacity from the front of the order. */
    method EvictOldest()
      requires NoDuplicates(recentOrder) && SameIds(recentUsage, recentOrder)
      modifies `recentUsage, `recentOrder
      ensures recentOrder == Tail(old(recentOrder), INDEX_CAPACITY) && SameIds(recentUsage, recentOrder)
      ensures forall id | id in recentUsage :: id in old(recentUsage) && recentUsage[id] == old(recentUsage)[id]
    {
      hide NoDuplicates;
      ghost var all := recentOrder;
      while |recentOrder| > INDEX_CAPACITY
        invariant |recentOrder| <= |all| && recentOrder == all[|all| - |recentOrder|..]
        invariant |recentOrder| >= INDEX_CAPACITY || recentOrder == all
        invariant SameIds(recentUsage, recentOrder)
        invariant forall id | id in recentUsage :: id in old(recentUsage) && recentUsage[id] == old(recentUsage)[id]
      {
        ghost var earlier := recentOrder;
        var expired := recentOrder[0];
        recentOrder := recentOrder[1..];
        recentUsage := recentUsage - {expired};
        assert earlier == [expired] + recentOrder;
        NoDuplicatesSuffix(all, |all| - |earlier|);
      }
    }

    /** Files a prepared request under its id, newest last, evicting the oldest past capacity. */
    method RememberUsage(call: CallId, usage: RecentUsage)
      requires UsageValid()
      modifies `recentUsage, `recentOrder, `history
      ensures UsageValid()
      ensures history == old(history) + [PreparedStep(call)]
      ensures call in recentUsage && recentUsage[call] == usage
      ensures forall id | id in recentUsage && id != call ::
                id in old(recentUsage) && recentUsage[id] == old(recentUsage)[id]
    {
      IndexIsBounded(history);
      GrownFacts(recentOrder, call);
      PreparedIndex(history, recentOrder, call);
      recentUsage := recentUsage[call := usage];
      recentOrder := Without(recentOrder, call);
      recentOrder := recentOrder + [call];
      hide IndexAfter, Accepted, NoDuplicates, Without;
      EvictOldest();
      assert recentOrder[|recentOrder| - 1] == call;
      history := history + [PreparedStep(call)];
    }

    method ForgetUsage(call: CallId) returns (usage: RecentUsage)
      requires UsageValid() && call in recentUsage
      modifies `recentUsage, `recentOrder, `history
      ensures UsageValid() && usage == old(recentUsage[call])
      ensures recentUsage == old(recentUsage) - {call} && history == old(history) + [ObservedStep(call)]
    {
      hide IndexFollows;
      usage := recentUsage[call];
      ObservedIndex(history, recentOrder, recentUsage, call);
      recentUsage := recentUsage - {call};
      recentOrder := Without(recentOrder, call);
      history := history + [ObservedStep(call)];
    }

    method Recalibrate(key: CalibrationKey, actual: int, estimated: int) returns (calibration: Calibration)
      requires CalibrationsValid()
      modifies `calibrations, `ratios
      ensures CalibrationsValid()
      ensures Learns(old(if key in calibrations then Some(calibrations[key]) else None), calibration, estimated, actual)
      ensures calibrations == old(calibrations)[key := calibration]
      ensures ratios == old(ratios)[key := old(if key in ratios then ratios[key] else []) + [Ratio(actual, estimated)]]
    {
      KnownHasSamples(calibrations, ratios, key);
      hide CalibrationsFollow, Recalibrated, Learns;
      ReportTeaches(if key in calibrations then Some(calibrations[key]) else None, actual, estimated);
      CalibrationObserved(calibrations, ratios, key, actual, estimated);
      calibration := Recalibrated(if key in calibrations then Some(calibrations[key]) else None, actual, estimated);
      calibrations := calibrations[key := calibration];
      ratios := ratios[key := (if key in ratios then ratios[key] else []) + [Ratio(actual, estimated)]];
    }

    /** The latest snapshot, whatever profile it was taken for, shows this calibration. */
    method StampSnapshot(shown: ShownCalibration, eventSeqNo: nat)
      modifies `latestSnapshot
      ensures SnapshotValid()
      ensures latestSnapshot == match old(latestSnapshot)
                                case None => None
                                case Some(s) => Some(Stamped(s, shown, eventSeqNo, eventsDropped))
    {
      if latestSnapshot.Some? {
        latestSnapshot := Some(latestSnapshot.value.(
          calibration := Some(shown), lastCalibration := Some(eventSeqNo), eventsDropped := eventsDropped));
      }
    }

    /** A provider's report for a pending request, folded into that profile's calibration. */
    method RecordUsage(call: CallId, actual: int) returns (r: Result<Calibration, UsageError>)
      requires Committed()
      modifies this
      ensures Committed()
      ensures r.Ok? <==> old(!AllBlank(call) && actual >= 0 && call in recentUsage)
      ensures r.Err? ==> unchanged(this)
      ensures r.Err? ==> r.error == if AllBlank(call) || actual < 0 then InvalidObservation else UnknownRequest
      ensures r.Ok? ==>
                && calibrations == old(calibrations)[old(recentUsage[call].key) := r.value]
                && history == old(history) + [ObservedStep(call)]
                && recentUsage == old(recentUsage) - {call}
                && log == old(log) + [Event(old(|log|) + 1, call,
                     UsageCalibrated(r.value.samples, old(recentUsage[call].estimated), actual, r.value.multiplier))]
      ensures r.Ok? ==>
                var key := old(recentUsage[call].key);
                ratios == old(ratios)[key := old(if key in ratios then ratios[key] else [])
                                             + [Ratio(actual, old(recentUsage[call].estimated))]]
      ensures r.Ok? ==>
                var usage := old(recentUsage[call]);
                Learns(old(if recentUsage[call].key in calibrations then Some(calibrations[recentUsage[call].key])
                           else None),
                       r.value, usage.estimated, actual)
      ensures r.Ok? ==> StampedFrom(old(latestSnapshot), latestSnapshot,
                                    ShownCalibration(old(recentUsage[call].key), r.value), |log|, eventsDropped)
      ensures activeLeases == old(activeLeases) && requestSeq == old(requestSeq) && previousUsage == old(previousUsage)
      ensures snapshotSeq == old(snapshotSeq)
    {
      hide RingWindows, IndexFollows, CalibrationsFollow, LedgerBalances, AllBlank, Ratio, Learns;
      if AllBlank(call) || actual < 0 {
        return Err(InvalidObservation);
      }
      if call !in recentUsage {
        return Err(UnknownRequest);
      }
      var usage := ForgetUsage(call);
      var calibration := Recalibrate(usage.key, actual, usage.estimated);
      var e := PushEvent(call, UsageCalibrated(calibration.samples, usage.estimated, actual, calibration.multiplier));
      NeutralKeepsLedger(old(log), e, activeLeases);
      StampSnapshot(ShownCalibration(usage.key, calibration), e.seqNo);
      r := Ok(calibration);
    }
  }
}
