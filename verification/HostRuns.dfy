/**
 Long runs of a host over an arena that is never given anything: once the log outgrows the kernel's
 ring, what the store reports as lost is not what it lost, and a store that holds more than ten
 thousand events is told old ones again.
 */
module HostRuns {
  import opened Basics
  import opened Texts
  import opened Counting
  import opened Layout
  import opened Reclaim
  import opened Preparing
  import opened HostFailures
  import opened Admission
  import opened AdmissionBoundaries
  import opened EventLog
  import opened UsageIndex
  import opened ArenaStates
  import opened Arenas
  import opened Kernel
  import opened Observations
  import opened Host

  const ID: Text := Mark(1)

  const PROFILE := ModelProfile(CalibrationKey(ID, ID, ID), 1, 0, WordEstimator, false)

  const OTHER_ID: Text := Mark(2)

  const OTHER := PROFILE.(key := CalibrationKey(OTHER_ID, ID, ID))

  /** One module that holds nothing. */
  function IdleArena(): ArenaDefinition {
    ArenaDefinition([SizedModule(0, 0)], 0)
  }

  function IdleRequest(model: ModelProfile, id: CallId): Request {
    Request(model, map[], Some(id), None)
  }

  ghost predicate IsIdle(request: Request) {
    request == IdleRequest(PROFILE, ID) || request == IdleRequest(OTHER, OTHER_ID)
  }

  lemma IdleFits(counts: Calibrated)
    ensures ValidDefinition(IdleArena()) && FitsAsGiven(IdleArena(), map[], 1, counts)
  {
    var ms := IdleArena().modules;
    assert ms == [SizedModule(0, 0)] && ms[1..] == [];
    assert FloorTotal(ms[1..]) == 0 && RenderingModules(ms[1..], map[]) == 0 && AskedTotal(ms[1..], map[], counts) == 0;
    assert CountChunks([], counts) == 0;
  }

  lemma IdleOrder()
    ensures Sort(IdleArena().modules, ByLayout) == [SizedModule(0, 0)]
  {
    var ms := IdleArena().modules;
    assert ms == [SizedModule(0, 0)] && ms[1..] == [];
    assert Sort(ms[1..], ByLayout) == [];
  }

  lemma IdleIsPlanned(results: SemanticResults, counts: Calibrated)
    requires counts.CountsWords() && ValidDefinition(IdleArena())
    ensures PlanContext(IdleArena(), map[], 1, results, counts).Ok?
  {
    IdleFits(counts);
    IdleOrder();
    ScaledZero(counts.multiplier);
    hide PlanContext, FitsAsGiven, Scaled, ValidDefinition, Sort;
    var order := [SizedModule(0, 0)];
    assert order[1..] == [];
    assert GivenWords(order[1..], map[]) == 0 && GivenNulls(order[1..], map[]) == 0;
    assert GivenWords(order, map[]) == 0 && GivenNulls(order, map[]) == 0;
    FittingWordsAdmittedIff(IdleArena(), map[], 1, results, counts);
  }

  lemma IdleAsksNothing(counts: Calibrated)
    requires ValidDefinition(IdleArena())
    ensures PlanSemanticRequests(IdleArena(), map[], 1, counts) == Ok([])
  {
    IdleFits(counts);
    IdleOrder();
    var order := [SizedModule(0, 0)];
    var m := order[0];
    GrantedInFull(IdleArena(), map[], 1, counts, m);
    FitMeans(IdleArena(), map[], 1, counts);
    hide AllocationStage, FitsAsGiven, Sort, AskedBy, GrantedBy;
    var rows := AllocationStage(IdleArena(), map[], 1, counts).value.rows;
    assert RequestsFrom(order, 1, map[], rows, counts) == Ok([]);
    var none: seq<SemanticRequest> := [];
    assert none + none == none;
    assert RequestsFrom(order, 0, map[], rows, counts) == Ok(none);
  }

  lemma IdleIsAsked(request: Request, multiplier: real)
    requires multiplier >= 1.0 && ValidDefinition(IdleArena()) && IsIdle(request)
    ensures Asked(IdleArena(), request, multiplier) == Ok([])
  {
    hide PlanSemanticRequests, PlanningFails, ValidDefinition, ValidModules, Mark, SizedModule, NeverFails,
         PrepareFails;
    DefinitionModules(IdleArena());
    var counts := CounterFor(request, multiplier);
    IdleAsksNothing(counts);
    BuiltInNeverFails(counts);
    NothingFails(IdleArena(), map[], 1, counts);
  }

  lemma IdleIsReady(request: Request, multiplier: real)
    requires multiplier >= 1.0 && ValidDefinition(IdleArena()) && IsIdle(request)
    ensures Answer(IdleArena(), request, map[], multiplier).Ok?
  {
    hide PlanContext, PlanningFails, ValidDefinition, ValidModules, Mark, SizedModule, NeverFails, PrepareFails;
    DefinitionModules(IdleArena());
    var counts := CounterFor(request, multiplier);
    IdleIsPlanned(map[], counts);
    BuiltInNeverFails(counts);
    NothingFails(IdleArena(), map[], 1, counts);
  }

  /** An idle request is always prepared, whatever has been reported before. */
  lemma IdleIsAnswered(request: Request, providers: Providers, multiplier: real)
    requires multiplier >= 1.0 && ValidDefinition(IdleArena()) && IsIdle(request)
    ensures HostAnswer(IdleArena(), request, providers, multiplier).Ok?
  {
    hide Asked, Answer, ValidDefinition, HostAnswer;
    IdleIsAsked(request, multiplier);
    IdleIsReady(request, multiplier);
    NothingToSummarize(IdleArena(), request, providers, multiplier);
  }

  /** A prepare logs at least that it started, that it was ready, and that it was published. */
  lemma ThreeEventsAtLeast(events: seq<Event>, call: CallId, plan: Plan, before: ActiveLeases, snapshotSeq: nat)
    requires Narrates(events, call, plan, before, snapshotSeq)
    ensures |events| >= 3
  {
    hide Compressions, ChangesLeases, Tells;
  }

  lemma IdleCall(arenaId: Text, request: Request, requestSeq: nat)
    requires IsIdle(request)
    ensures CallIdFor(arenaId, request, requestSeq) == request.id.value && !AllBlank(ID) && ID != OTHER_ID
  {
    MarkIsVisible(1);
    MarkIsVisible(2);
    assert |ID| == 1 && |OTHER_ID| == 2;
  }

  /** One more prepare of nothing: at least three more events, and the call on file. */
  method IdlePrepare(host: HostArena, request: Request) returns (prepared: PreparedContext)
    requires host.Valid() && host.kernel.definition == IdleArena() && IsIdle(request)
    modifies host.kernel.state, host.store
    ensures host.Valid() && (old(host.Mirrors()) ==> host.Mirrors())
    ensures |host.kernel.state.log| >= old(|host.kernel.state.log|) + 3
    ensures host.kernel.state.history == old(host.kernel.state.history) + [PreparedStep(request.id.value)]
    ensures !AllBlank(ID) && ID != OTHER_ID && request.id.value in host.kernel.state.recentUsage
    ensures host.kernel.state.recentUsage[request.id.value].key == request.model.key
    ensures forall id | id in host.kernel.state.recentUsage && id != request.id.value ::
              id in old(host.kernel.state.recentUsage)
              && host.kernel.state.recentUsage[id] == old(host.kernel.state.recentUsage)[id]
    ensures host.kernel.state.latestSnapshot.Some?
    ensures host.kernel.state.latestSnapshot.value.key == request.model.key
    ensures host.kernel.arenaId in host.store.snapshots
    ensures host.ReportsItsLoss() ==> old(|host.kernel.state.log|) <= RING_CAPACITY
  {
    hide RingWindows, IndexFollows, CalibrationsFollow, LedgerBalances, ValidDefinition, HostAnswer, Narrates, ByKey,
         CallIdFor, AllBlank, ObservationStore.Valid, Mark;
    IdleIsAnswered(request, host.providers, host.kernel.Multiplier(request));
    IdleCall(host.kernel.arenaId, request, host.kernel.state.requestSeq + 1);
    ghost var leases := host.kernel.state.activeLeases;
    var r := host.Prepare(request);
    prepared := r.value;
    ThreeEventsAtLeast(prepared.events, prepared.call, prepared.plan, leases, host.kernel.state.snapshotSeq);
  }

  method NewHost(capacity: nat) returns (host: HostArena)
    requires capacity > 0
    ensures fresh(host.kernel.state) && fresh(host.store) && host.store.maxEvents == capacity
    ensures host.Valid() && host.Mirrors() && host.kernel.definition == IdleArena()
    ensures host.kernel.state.history == []
  {
    IdleFits(Counter(None, WordEstimator, 1.0));
    var kernel := new ContextLeaseArena(IdleArena(), ID);
    var store := new ObservationStore(capacity);
    host := new HostArena(kernel, store, _ => None);
  }

  /** Enough prepares to outgrow the ring. */
  method LongRun(capacity: nat) returns (host: HostArena)
    requires capacity > 0
    ensures fresh(host.kernel.state) && fresh(host.store) && host.store.maxEvents == capacity
    ensures host.Valid() && host.Mirrors() && host.kernel.definition == IdleArena()
    ensures |host.kernel.state.log| > RING_CAPACITY && !AllBlank(ID) && ID in host.kernel.state.recentUsage
    ensures host.kernel.state.latestSnapshot.Some?
  {
    hide ObservationStore.Valid, AllBlank, Mark;
    host := NewHost(capacity);
    var prepared := IdlePrepare(host, IdleRequest(PROFILE, ID));
    var n := 1;
    while n < 3334
      invariant 1 <= n <= 3334
      invariant fresh(host.kernel.state) && fresh(host.store) && host.store.maxEvents == capacity
      invariant host.Valid() && host.Mirrors() && host.kernel.definition == IdleArena()
      invariant |host.kernel.state.log| >= 3 * n && !AllBlank(ID) && ID in host.kernel.state.recentUsage
      invariant host.kernel.state.latestSnapshot.Some?
    {
      prepared := IdlePrepare(host, IdleRequest(PROFILE, ID));
      n := n + 1;
    }
  }

  /** Past the ring, a prepare's snapshot makes the store report a loss it did not have. */
  method LossIsMisreported() returns (host: HostArena)
    ensures host.Valid() && host.Mirrors() && host.store.maxEvents == 10_000
    ensures host.kernel.arenaId in host.store.snapshots && !host.ReportsItsLoss()
  {
    host := LongRun(10_000);
    var prepared := IdlePrepare(host, IdleRequest(PROFILE, ID));
  }

  /** Holding more than ten thousand events, the store is told old ones again by a usage report. */
  method ReportsRepeat() returns (host: HostArena)
    ensures host.Valid() && host.store.maxEvents == 10_001 && !host.Mirrors()
    ensures host.kernel.arenaId in host.store.snapshots && !host.ReportsItsLoss()
  {
    hide ObservationStore.Valid, AllBlank, Mark;
    host := LongRun(10_001);
    host.QueueFollows();
    var r := host.RecordUsage(ID, 0);
  }

  lemma BothOnFile(history: seq<IndexStep>, order: seq<CallId>, usage: map<CallId, RecentUsage>)
    requires history == [PreparedStep(ID), PreparedStep(OTHER_ID)] && IndexFollows(history, order, usage)
    requires ID != OTHER_ID
    ensures ID in usage
  {
    hide Mark;
    assert history[..1] == [PreparedStep(ID)] && history[..1][..0] == [];
    assert IndexAfter(history[..1]) == [ID];
    assert [ID][1..] == [] && Without([ID][1..], OTHER_ID) == [];
    assert Without([ID], OTHER_ID) == [ID];
    assert IndexAfter(history) == [ID] + [OTHER_ID];
    assert ([ID] + [OTHER_ID])[0] == ID;
    assert ID in order;
  }

  /** Two profiles in turn, then a report for the first: the second's snapshot shows the first's calibration. */
  method OtherProfileIsShown() returns (host: HostArena)
    ensures host.Valid() && host.kernel.state.latestSnapshot.Some?
    ensures !ShowsOwnProfile(host.kernel.state.latestSnapshot.value)
  {
    hide ObservationStore.Valid, AllBlank, Mark, IndexFollows;
    host := NewHost(10_000);
    var first := IdlePrepare(host, IdleRequest(PROFILE, ID));
    var second := IdlePrepare(host, IdleRequest(OTHER, OTHER_ID));
    assert [] + [PreparedStep(ID)] + [PreparedStep(OTHER_ID)] == [PreparedStep(ID), PreparedStep(OTHER_ID)];
    BothOnFile(host.kernel.state.history, host.kernel.state.recentOrder, host.kernel.state.recentUsage);
    var r := host.RecordUsage(ID, 0);
  }
}
