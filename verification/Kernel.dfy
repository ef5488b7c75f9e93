/** The arena object: prepare, two-phase prepare, usage reports and event reads, as callers see it. */
module Kernel {
  import opened Basics
  import opened Texts
  import opened Counting
  import opened Layout
  import opened Leasing
  import opened Reclaim
  import opened TwoPhase
  import opened Preparing
  import opened Usage
  import opened UsageHistory
  import opened HostFailures
  import opened Admission
  import opened CharAdmission
  import opened EventLog
  import opened UsageIndex
  import opened ArenaStates
  import opened Arenas
  import opened Requests
  import opened Plans

  /** The state after a successful prepare, field by field, against the state before. */
  twostate predicate PreparedFrom(state: ArenaState, arenaId: Text, request: Request, prepared: PreparedContext)
    reads state
  {
    var call := CallIdFor(arenaId, request, old(state.requestSeq) + 1);
    var plan := prepared.plan;
    && prepared.call == call
    && state.requestSeq == old(state.requestSeq) + 1
    && state.snapshotSeq == old(state.snapshotSeq) + 1
    && state.log == old(state.log) + prepared.events
    && Narrates(prepared.events, call, plan, old(state.activeLeases), state.snapshotSeq)
    && state.history == old(state.history) + [PreparedStep(call)]
    && state.activeLeases == ByKey(plan.allocation.leases)
    && state.previousUsage == UsageAfter(old(state.previousUsage), plan.outcomes)
    && state.calibrations == old(state.calibrations) && state.ratios == old(state.ratios)
    && RemembersUsage(old(state.recentUsage), state.recentUsage, call,
                      RecentUsage(request.model.key, plan.promptTokens))
    && Pictures(prepared.snapshot, state.snapshotSeq, call, request.model.key, plan,
                state.calibrations)
    && prepared.snapshot.changeRates == ChangeRates(old(state.previousUsage), plan.outcomes)
    && prepared.snapshot.eventsDropped == RingDrops(old(state.eventsDropped), |prepared.events| - 1)
    && state.latestSnapshot == Some(prepared.snapshot.(eventsDropped := state.eventsDropped))
  }

  /** The call's usage is on file, and whatever else is on file was there before. */
  predicate RemembersUsage(before: map<CallId, RecentUsage>, after: map<CallId, RecentUsage>, call: CallId,
                           usage: RecentUsage) {
    && call in after && after[call] == usage
    && forall id | id in after && id != call :: id in before && after[id] == before[id]
  }

  function ShownFor(calibrations: map<CalibrationKey, Calibration>, key: CalibrationKey): Option<ShownCalibration> {
    if key in calibrations then Some(ShownCalibration(key, calibrations[key])) else None
  }

  /** The snapshot shows an admitted plan, and its own profile's calibration. */
  predicate Pictures(s: Snapshot, snapshotSeq: nat, call: CallId, key: CalibrationKey, plan: Plan,
                     calibrations: map<CalibrationKey, Calibration>) {
    && s.snapshotSeq == snapshotSeq && s.call == call && s.key == key && s.leases == plan.allocation.leases
    && s.modules == plan.usage && Stands(s.pressure, plan.promptTokens, plan.usable)
    && s.usedTokens == plan.promptTokens <= plan.usable == s.usable
    && s.utilization * (if s.usable > 1 then s.usable else 1) as real == s.usedTokens as real
    && 0.0 <= s.utilization <= 1.0
    && (s.calibration.Some? <==> key in calibrations) && s.lastCalibration == None
    && (s.calibration.Some? ==> s.calibration.value.key == key && s.calibration.value.value == calibrations[key])
  }

  class ContextLeaseArena {
    const definition: ArenaDefinition
    const arenaId: Text
    const state: ArenaState

    ghost predicate Valid()
      reads state
    {
      ValidDefinition(definition) && state.Committed()
    }

    constructor (definition: ArenaDefinition, arenaId: Text)
      requires ValidDefinition(definition)
      ensures this.definition == definition && this.arenaId == arenaId
      ensures Valid() && fresh(state) && state.log == [] && state.history == []
    {
      this.definition := definition;
      this.arenaId := arenaId;
      state := new ArenaState();
    }

    lemma DropsFollowLog()
      requires Valid()
      ensures state.eventsDropped == RingDrops(0, |state.log|)
      ensures state.latestSnapshot.Some? ==> state.latestSnapshot.value.eventsDropped == state.eventsDropped
    {
      state.CommittedMeans();
    }

    lemma LogIsNumbered()
      requires Valid()
      ensures Numbered(state.log)
    {
    }

    /** One plain event of a transaction; the leases the log adds up to are left alone. */
    method PushPlain(t: ArenaState, call: CallId, kind: EventKind, ghost leases: ActiveLeases) returns (e: Event)
      requires t.RingValid() && LedgerBalances(t.log, leases) && Neutral(kind)
      modifies t`eventSeq, t`events, t`eventsDropped, t`log
      ensures t.RingValid() && LedgerBalances(t.log, leases)
      ensures e == Event(old(|t.log|) + 1, call, kind) && t.log == old(t.log) + [e]
    {
      hide RingWindows, LedgerBalances;
      e := t.PushEvent(call, kind);
      NeutralKeepsLedger(old(t.log), e, leases);
    }

    /** One event per reclaimed module, and every module's usage remembered. */
    method PushOutcomes(t: ArenaState, call: CallId, outcomes: seq<Outcome>, ghost leases: ActiveLeases)
      returns (pushed: seq<Event>, rates: seq<real>)
      requires t.RingValid() && LedgerBalances(t.log, leases)
      modifies t`eventSeq, t`events, t`eventsDropped, t`log, t`previousUsage
      ensures t.RingValid() && LedgerBalances(t.log, leases) && t.log == old(t.log) + pushed
      ensures Tells(pushed, call, Compressions(outcomes))
      ensures t.previousUsage == UsageAfter(old(t.previousUsage), outcomes)
      ensures rates == ChangeRates(old(t.previousUsage), outcomes)
    {
      hide RingWindows, LedgerBalances, ChangeRate;
      pushed, rates := [], [];
      for i := 0 to |outcomes|
        invariant t.RingValid() && LedgerBalances(t.log, leases) && t.log == old(t.log) + pushed
        invariant Tells(pushed, call, Compressions(outcomes[..i]))
        invariant t.previousUsage == UsageAfter(old(t.previousUsage), outcomes[..i])
        invariant rates == ChangeRates(old(t.previousUsage), outcomes[..i])
      {
        var o := outcomes[i];
        if o.used < o.before {
          var e := PushPlain(t, call, ChunkCompressed(o.id, o.before, o.used), leases);
          pushed := pushed + [e];
        }
        assert outcomes[..i + 1][..i] == outcomes[..i];
        var previous := if o.id in t.previousUsage then t.previousUsage[o.id] else o.used;
        rates := rates + [ChangeRate(previous, o.used)];
        t.previousUsage := t.previousUsage[o.id := o.used];
      }
      assert outcomes[..|outcomes|] == outcomes;
    }

    /** The snapshot of an admitted plan, numbered next, with what the transaction's ring has lost so far. */
    method TakeSnapshot(t: ArenaState, call: CallId, key: CalibrationKey, plan: Plan, rates: seq<real>)
      returns (snapshot: Snapshot)
      requires t.RingValid() && 0 <= plan.promptTokens <= plan.usable
      modifies t`snapshotSeq, t`latestSnapshot
      ensures t.snapshotSeq == old(t.snapshotSeq) + 1
      ensures Pictures(snapshot, t.snapshotSeq, call, key, plan, t.calibrations)
      ensures snapshot.changeRates == rates && snapshot.eventsDropped == RingDrops(t.inherited, |t.log| - t.start)
      ensures t.latestSnapshot == Some(snapshot) && t.ShowsCurrent()
    {
      UtilizationWithinOne(plan.promptTokens, plan.usable);
      PressureStands(plan.promptTokens, plan.usable);
      RingDropsOf(t.log, t.start, t.inherited, t.events, t.eventsDropped, t.eventSeq);
      hide RingWindows, Utilization, PressureOf, Stands, RingDrops;
      t.snapshotSeq := t.snapshotSeq + 1;
      snapshot := Snapshot(t.snapshotSeq, call, key, plan.promptTokens, plan.usable,
                           Utilization(plan.promptTokens, plan.usable), PressureOf(plan.promptTokens, plan.usable),
                           plan.usage, rates, plan.allocation.leases, ShownFor(t.calibrations, key),
                           t.eventsDropped, None);
      t.latestSnapshot := Some(snapshot);
    }

    /** The transaction's closing moves, once the context is admitted. */
    method Publish(t: ArenaState, call: CallId, model: ModelProfile, plan: Plan, rates: seq<real>)
      returns (snapshot: Snapshot, pushed: seq<Event>)
      requires t.RingValid() && t.UsageValid() && LedgerBalances(t.log, ByKey(plan.allocation.leases))
      requires 0 <= plan.promptTokens <= plan.usable
      modifies t`eventSeq, t`events, t`eventsDropped, t`log, t`activeLeases, t`snapshotSeq, t`latestSnapshot,
               t`recentUsage, t`recentOrder, t`history
      ensures t.RingValid() && t.UsageValid() && t.LedgerValid() && t.log == old(t.log) + pushed
      ensures t.activeLeases == ByKey(plan.allocation.leases)
      ensures t.snapshotSeq == old(t.snapshotSeq) + 1 && t.history == old(t.history) + [PreparedStep(call)]
      ensures Tells(pushed, call, [RequestPrepared(plan.promptTokens, plan.usable), SnapshotPublished(t.snapshotSeq)])
      ensures RemembersUsage(old(t.recentUsage), t.recentUsage, call, RecentUsage(model.key, plan.promptTokens))
      ensures Pictures(snapshot, t.snapshotSeq, call, model.key, plan, t.calibrations)
      ensures snapshot.changeRates == rates
      ensures snapshot.eventsDropped == RingDrops(t.inherited, |t.log| - 1 - t.start)
      ensures t.latestSnapshot == Some(snapshot) && t.ShowsCurrent()
    {
      hide RingWindows, LedgerBalances, IndexFollows, ByKey, Pictures, RingDrops;
      ghost var leases := ByKey(plan.allocation.leases);
      t.activeLeases := ByKey(plan.allocation.leases);
      var prepared := PushPlain(t, call, RequestPrepared(plan.promptTokens, plan.usable), leases);
      snapshot := TakeSnapshot(t, call, model.key, plan, rates);
      var published := PushPlain(t, call, SnapshotPublished(t.snapshotSeq), leases);
      t.RememberUsage(call, RecentUsage(model.key, plan.promptTokens));
      pushed := [prepared, published];
    }

    /** The transaction's working part, on its own copy of the state; it may still fail. */
    method Work(t: ArenaState, call: CallId, request: Request, a: Allocated, results: SemanticResults,
                counts: Calibrated)
      returns (r: Result<Plan, PrepareError>, snapshot: Snapshot, pushed: seq<Event>)
      requires t.RingValid() && t.UsageValid() && t.LedgerValid()
      requires DistinctKeys(a.leases) && forall l | l in a.leases :: l.granted > 0
      modifies t`eventSeq, t`events, t`eventsDropped, t`log, t`previousUsage, t`activeLeases, t`snapshotSeq,
               t`latestSnapshot, t`recentUsage, t`recentOrder, t`history
      ensures r == RenderStage(definition, a, request.contributions, InputBudget(request), results, counts)
      ensures t.RingValid() && t.log == old(t.log) + pushed
      ensures r.Ok? ==> t.UsageValid() && t.LedgerValid() && ReadyToCommit(t, call, request, r.value, snapshot)
      ensures r.Ok? ==> Narrates(pushed, call, r.value, old(t.activeLeases), t.snapshotSeq)
      ensures r.Ok? ==> RemembersUsage(old(t.recentUsage), t.recentUsage, call,
                                       RecentUsage(request.model.key, r.value.promptTokens))
      ensures r.Ok? ==> t.previousUsage == UsageAfter(old(t.previousUsage), r.value.outcomes)
      ensures r.Ok? ==> snapshot.changeRates == ChangeRates(old(t.previousUsage), r.value.outcomes)
      ensures r.Ok? ==> t.snapshotSeq == old(t.snapshotSeq) + 1
      ensures r.Ok? ==> t.history == old(t.history) + [PreparedStep(call)]
    {
      hide ChangeRates, RenderStage, RingWindows, IndexFollows, LedgerBalances, DistinctKeys, ByKey, Narrates, Tells,
           ChangesLeases,
           Pictures, RemembersUsage, UsageAfter, RingDrops, Compressions;
      snapshot := Snapshot(0, call, request.model.key, 0, 0, 0.0, Normal, [], [], [], None, 0, None);
      var started := PushPlain(t, call, RequestStarted, t.activeLeases);
      var changes := PushLeaseChanges(t, call, a.leases);
      pushed := [started] + changes;
      r := RenderAllocated(definition, a, request.contributions, InputBudget(request), results, counts);
      if r.Err? {
        return;
      }
      PlanCarries(definition, a, request.contributions, InputBudget(request), results, counts);
      var compressed, rates := PushOutcomes(t, call, r.value.outcomes, ByKey(a.leases));
      var closing;
      snapshot, closing := Publish(t, call, request.model, r.value, rates);
      NarrationFrom(started, changes, compressed, closing, call, r.value, old(t.activeLeases), t.snapshotSeq);
      pushed := pushed + compressed + closing;
    }

    /** The transaction itself, on a working copy; only a success is committed. */
    method Commit(request: Request, a: Allocated, results: SemanticResults, counts: Calibrated)
      returns (r: Result<PreparedContext, ArenaError>)
      requires Valid()
      requires DistinctKeys(a.leases) && forall l | l in a.leases :: l.granted > 0
      modifies state
      ensures Valid()
      ensures r.Err? ==> unchanged(state) && Completion(definition, a, request, results, counts) == Err(r.error)
      ensures r.Ok? ==> Completion(definition, a, request, results, counts) == Ok(r.value.plan)
      ensures r.Ok? ==> PreparedFrom(state, arenaId, request, r.value)
    {
      hide RenderStage, PrepareFails, RingWindows, IndexFollows, CalibrationsFollow, LedgerBalances, DistinctKeys,
           ByKey, CallIdFor,
           UsageAfter, ChangeRates, RingDrops, ValidDefinition, Narrates, RemembersUsage, Pictures;
      var t := new ArenaState.Transaction(state);
      t.requestSeq := t.requestSeq + 1;
      var call := CallIdFor(arenaId, request, t.requestSeq);
      var plan, snapshot, pushed := Work(t, call, request, a, results, counts);
      if plan.Err? {
        return Err(Failed(plan.error));
      }
      if PrepareFails(definition, request.contributions, results, plan.value, counts) {
        return Err(Failed(TokenizerFailed));
      }
      assert (state.log + pushed)[..|state.log|] == state.log;
      state.CommitTransaction(t);
      r := Ok(PreparedContext(call, plan.value, pushed, snapshot));
    }

    /**
     A prepare, for a counter built with any multiplier of at least one: reports are allowed to
     have moved the calibration since the multiplier was read.
     */
    method Transact(request: Request, results: SemanticResults, multiplier: real)
      returns (r: Result<PreparedContext, ArenaError>)
      requires Valid() && multiplier >= 1.0
      modifies state
      ensures Valid()
      ensures r.Err? ==> unchanged(state) && Answer(definition, request, results, multiplier) == Err(r.error)
      ensures r.Ok? ==> Answer(definition, request, results, multiplier) == Ok(r.value.plan)
      ensures r.Ok? ==> PreparedFrom(state, arenaId, request, r.value)
    {
      hide Answer, Completion, AllocationStage, RingWindows, IndexFollows, CalibrationsFollow, LedgerBalances,
           DistinctKeys,
           ValidDefinition, Narrates, RemembersUsage, Pictures, UsageAfter, ByKey, CallIdFor;
      DefinitionModules(definition);
      AnswerInStages(definition, request, results, multiplier);
      if request.model.exact && request.external.None? {
        return Err(TokenizerUnavailable);
      }
      var counts := CounterFor(request, multiplier);
      var stage := AllocateContext(definition, request.contributions, InputBudget(request), counts);
      if stage.Err? {
        return Err(Failed(stage.error));
      }
      AllocationLeases(definition, request.contributions, InputBudget(request), counts);
      r := Commit(request, stage.value, results, counts);
    }

    /** The multiplier a request is counted with, read under its own lock. */
    function Multiplier(request: Request): (m: real)
      requires Valid()
      reads state
      ensures m >= 1.0
    {
      state.MultiplierAtLeastOne(request.model.key);
      state.MultiplierFor(request.model.key)
    }

    /**
     One-step prepare. A failed prepare changes nothing at all; a successful one is admitted, and
     with a built-in estimator the admission check itself is never what fails.
     */
    method Prepare(request: Request, results: SemanticResults) returns (r: Result<PreparedContext, ArenaError>)
      requires Valid()
      modifies state
      ensures Valid()
      ensures r.Err? ==> unchanged(state)
      ensures r.Err? ==> old(Answer(definition, request, results, Multiplier(request))) == Err(r.error)
      ensures r.Ok? ==> old(Answer(definition, request, results, Multiplier(request))) == Ok(r.value.plan)
      ensures r.Ok? ==> PreparedFrom(state, arenaId, request, r.value)
      ensures r.Ok? ==> Promised(definition, request, old(InForce(state.calibrations, request.model.key)), r.value.plan)
      ensures r.Ok? ==> NamesCall(arenaId, request, old(state.requestSeq) + 1, r.value.call)
      ensures r == Err(TokenizerUnavailable) <==> request.model.exact && request.external.None?
      ensures AdmissionSafe(request) ==> r != Err(Failed(RenderedExceedsBudget))
      ensures request.external.None? ==> r != Err(Failed(TokenizerFailed))
    {
      TokenizerIsMissingIff(definition, request, results, Multiplier(request));
      hide PlanContext, RingWindows, IndexFollows, CalibrationsFollow, LedgerBalances, ValidDefinition,
           AdmissionSafe, Answer, Promised, NamesCall, Narrates, Pictures, RemembersUsage, UsageAfter, ChangeRates,
           ByKey, RingDrops, CallIdFor;
      CallIsNamed(arenaId, request, state.requestSeq + 1);
      var multiplier := Multiplier(request);
      if request.external.None? {
        BuiltInTokenizerNeverFails(definition, request, multiplier);
      }
      if AdmissionSafe(request) {
        SafeRequestsAreAdmitted(definition, request, results, multiplier);
      }
      r := Transact(request, results, multiplier);
      if r.Ok? {
        AnswersKeepPromises(definition, request, results, multiplier, r.value.plan);
      }
    }

    /** What planning asks the host for. */
    method Plan(request: Request) returns (r: Result<seq<SemanticRequest>, ArenaError>)
      requires Valid()
      ensures r == Asked(definition, request, Multiplier(request))
      ensures r.Ok? ==> AsksWell(definition, request, InForce(state.calibrations, request.model.key), r.value)
      ensures request.external.None? ==> r != Err(Failed(TokenizerFailed))
    {
      PlannedAsksWell(definition, request, Multiplier(request));
      hide PlanSemanticRequests, PlanningFails, RingWindows, IndexFollows, CalibrationsFollow, LedgerBalances,
           ValidDefinition;
      if request.model.exact && request.external.None? {
        return Err(TokenizerUnavailable);
      }
      DefinitionModules(definition);
      if request.external.None? {
        BuiltInTokenizerNeverFails(definition, request, Multiplier(request));
      }
      var counts := CounterFor(request, Multiplier(request));
      var requests := PlanRequests(definition, request.contributions, InputBudget(request), counts);
      if requests.Err? {
        return Err(Failed(requests.error));
      }
      if PlanningFails(definition, request.contributions, InputBudget(request), counts) {
        return Err(Failed(TokenizerFailed));
      }
      r := Ok(requests.value);
    }

    /**
     The first phase. It prepares at once only when no semantic result could matter; otherwise it
     changes nothing and hands out the planned requests.
     */
    method PrepareBegin(request: Request) returns (r: Result<BeginOutcome, ArenaError>)
      requires Valid()
      modifies state
      ensures Valid()
      ensures r.Err? || r.value.NeedsSemantic? ==> unchanged(state)
      ensures r.Err? ==>
                match old(Asked(definition, request, Multiplier(request)))
                case Err(e) => r == Err(e)
                case Ok(requests) =>
                  requests == [] && old(Answer(definition, request, map[], Multiplier(request))) == Err(r.error)
      ensures r.Ok? && r.value.NeedsSemantic? ==>
                && r.value.requests != []
                && old(Asked(definition, request, Multiplier(request))) == Ok(r.value.requests)
                && AsksWell(definition, request, old(InForce(state.calibrations, request.model.key)), r.value.requests)
      ensures r.Ok? && r.value.Ready? ==>
                && old(Asked(definition, request, Multiplier(request))) == Ok([])
                && PreparedFrom(state, arenaId, request, r.value.prepared)
                && Promised(definition, request, old(InForce(state.calibrations, request.model.key)),
                            r.value.prepared.plan)
                && NamesCall(arenaId, request, old(state.requestSeq) + 1, r.value.prepared.call)
                && AnsweredWhatever(definition, request, old(Multiplier(request)), r.value.prepared.plan)
    {
      hide PlanContext, RingWindows, IndexFollows, CalibrationsFollow, LedgerBalances, ValidDefinition, CallIdFor,
           UsageAfter, ByKey, AdmissionSafe, Answer, Asked, Promised, NamesCall, AsksWell, Narrates, Pictures,
           RemembersUsage, ChangeRates, RingDrops;
      var requests := Plan(request);
      if requests.Err? {
        return Err(requests.error);
      }
      if requests.value != [] {
        return Ok(NeedsSemantic(requests.value));
      }
      ghost var multiplier := Multiplier(request);
      forall results: SemanticResults
        ensures Answer(definition, request, results, multiplier) == Answer(definition, request, map[], multiplier)
      {
        AnswersAgree(definition, request, multiplier, results, map[]);
      }
      var prepared := Prepare(request, map[]);
      match prepared
      case Err(e) => r := Err(e);
      case Ok(p) => r := Ok(Ready(p));
    }

    /**
     The second phase. Results must name planned requests, each once; then the outcome is decided
     by the planned ids alone: any other results that agree on them give the same answer.
     */
    method PrepareCommit(request: Request, results: seq<SemanticResult>)
      returns (r: Result<PreparedContext, ArenaError>)
      requires Valid()
      modifies state
      ensures Valid()
      ensures r.Err? ==> unchanged(state)
      ensures r.Err? ==> old(CommitAnswer(definition, request, results, Multiplier(request))) == Err(r.error)
      ensures r.Ok? ==> old(CommitAnswer(definition, request, results, Multiplier(request))) == Ok(r.value.plan)
      ensures r.Ok? ==> PreparedFrom(state, arenaId, request, r.value)
      ensures r.Ok? ==> Promised(definition, request, old(InForce(state.calibrations, request.model.key)), r.value.plan)
      ensures r.Ok? ==> NamesCall(arenaId, request, old(state.requestSeq) + 1, r.value.call)
      ensures r.Ok? ==>
                var asked := old(Asked(definition, request, Multiplier(request)));
                && asked.Ok?
                && (forall i | 0 <= i < |results| :: AsksAbout(asked.value, results[i].id))
                && (forall i, j | 0 <= i < j < |results| :: results[i].id != results[j].id)
                && DecidedByPlanned(definition, request, old(Multiplier(request)), asked.value, ResultMap(results),
                                    r.value.plan)
      ensures AdmissionSafe(request) ==> r != Err(Failed(RenderedExceedsBudget))
      ensures request.external.None? ==> r != Err(Failed(TokenizerFailed))
    {
      hide PlanContext, RingWindows, IndexFollows, CalibrationsFollow, LedgerBalances, ValidDefinition, CallIdFor,
           UsageAfter, ByKey, AdmissionSafe, Answer, Asked, AgreeOn, ResultMap, AsksAbout, Promised, NamesCall,
             AsksWell,
           Narrates, Pictures, RemembersUsage, ChangeRates, RingDrops, FirstRefusal;
      PlanningIsNotAdmission(definition, request, Multiplier(request));
      var asked := Plan(request);
      if asked.Err? {
        return Err(asked.error);
      }
      var refused := CheckResults(results, asked.value);
      if refused.Some? {
        return Err(Refused(refused.value));
      }
      AcceptedResults(results, 0, asked.value);
      ghost var multiplier := Multiplier(request);
      forall others: SemanticResults | AgreeOn(asked.value, others, ResultMap(results))
        ensures Answer(definition, request, others, multiplier)
                == Answer(definition, request, ResultMap(results), multiplier)
      {
        AnswersAgree(definition, request, multiplier, others, ResultMap(results));
      }
      r := Prepare(request, ResultMap(results));
    }

    /** A usage report: it moves one profile's calibration, and no lease. */
    method RecordUsage(call: CallId, actual: int) returns (r: Result<Calibration, UsageError>)
      requires Valid()
      modifies state
      ensures Valid()
      ensures r.Ok? <==> old(!AllBlank(call) && actual >= 0 && call in state.recentUsage)
      ensures r.Ok? ==>
                var usage := old(state.recentUsage[call]);
                && state.recentUsage == old(state.recentUsage) - {call}
                && state.history == old(state.history) + [ObservedStep(call)]
                && state.calibrations == old(state.calibrations)[usage.key := r.value]
                && state.ratios == old(state.ratios)[usage.key :=
                     old(if state.recentUsage[call].key in state.ratios then state.ratios[state.recentUsage[call].key]
                         else [])
                     + [Ratio(actual, usage.estimated)]]
      ensures r.Ok? ==>
                var usage := old(state.recentUsage[call]);
                Learns(old(if state.recentUsage[call].key in state.calibrations
                           then Some(state.calibrations[state.recentUsage[call].key]) else None),
                       r.value, usage.estimated, actual)
      ensures r.Ok? ==>
                var usage := old(state.recentUsage[call]);
                && StampedFrom(old(state.latestSnapshot), state.latestSnapshot, ShownCalibration(usage.key, r.value),
                               |state.log|, state.eventsDropped)
                && state.log == old(state.log)
                                + [Event(old(|state.log|) + 1, call,
                                         UsageCalibrated(r.value.samples, usage.estimated, actual, r.value.multiplier))]
      ensures state.activeLeases == old(state.activeLeases) && state.requestSeq == old(state.requestSeq)
      ensures r.Err? ==> unchanged(state)
    {
      r := state.RecordUsage(call, actual);
    }

    /** Events after a sequence number: the log's own slice whenever nothing asked for was dropped. */
    method ReadEvents(afterSeq: nat, limit: int) returns (r: seq<Event>)
      requires Valid()
      ensures r == LogSlice(state.log, Max(afterSeq, state.eventsDropped), limit)
      ensures IsSlice(state.log, Max(afterSeq, state.eventsDropped), limit, r)
      ensures r == LogSlice(state.log, afterSeq, limit) <==> afterSeq >= state.eventsDropped
    {
      LogSliceIsSlice(state.log, Max(afterSeq, state.eventsDropped), limit);
      r := state.ReadEvents(afterSeq, limit);
    }
  }

  /** Requests for which admission is proved: built-in estimator, no nulls, separators covered. */
  predicate AdmissionSafe(request: Request) {
    && request.external.None? && NoNullContributions(request.contributions)
    && (request.model.estimator.WordEstimator? || AtMostChunks(request.contributions, 1))
  }

  lemma SafeRequestsAreAdmitted(d: ArenaDefinition, request: Request, results: SemanticResults, multiplier: real)
    requires ValidDefinition(d) && multiplier >= 1.0 && AdmissionSafe(request)
    ensures Answer(d, request, results, multiplier) != Err(Failed(RenderedExceedsBudget))
  {
    hide PlanContext, NoNullContributions, AtMostChunks;
    var counts := CounterFor(request, multiplier);
    if counts.CountsWords() {
      WordAdmissionNeverFails(d, request.contributions, InputBudget(request), results, counts);
    } else {
      CharAdmissionNeverFails(d, request.contributions, InputBudget(request), results, counts);
    }
  }

  lemma ContextsDoNotFailThus(d: ArenaDefinition, contributions: Contributions, budget: int, results: SemanticResults,
                              counts: Calibrated)
    requires ValidModules(d.modules)
    ensures PlanContext(d, contributions, budget, results, counts) != Err(TokenizerFailed)
    ensures PlanSemanticRequests(d, contributions, budget, counts) != Err(TokenizerFailed)
  {
    hide Allocation, Demands, SeparatorTokens, OutcomesFrom, RequestsFrom, RenderContext, UsageRows;
  }

  /** Only a host's tokenizer can fail: with a built-in estimator neither planning nor preparing says so. */
  lemma BuiltInTokenizerNeverFails(d: ArenaDefinition, request: Request, multiplier: real)
    requires ValidDefinition(d) && multiplier >= 1.0 && request.external.None?
    ensures Asked(d, request, multiplier) != Err(Failed(TokenizerFailed))
    ensures forall results: SemanticResults :: Answer(d, request, results, multiplier) != Err(Failed(TokenizerFailed))
  {
    var counts, budget := CounterFor(request, multiplier), InputBudget(request);
    BuiltInNeverFails(counts);
    DefinitionModules(d);
    NothingFails(d, request.contributions, budget, counts);
    hide PlanContext, PlanSemanticRequests, PrepareFails, PlanningFails, ValidDefinition;
    ContextsDoNotFailThus(d, request.contributions, budget, map[], counts);
    forall results: SemanticResults ensures Answer(d, request, results, multiplier) != Err(Failed(TokenizerFailed)) {
      ContextsDoNotFailThus(d, request.contributions, budget, results, counts);
    }
  }

  lemma TokenizerIsMissingIff(d: ArenaDefinition, request: Request, results: SemanticResults, multiplier: real)
    requires ValidDefinition(d) && multiplier >= 1.0
    ensures Answer(d, request, results, multiplier) == Err(TokenizerUnavailable)
            <==> request.model.exact && request.external.None?
    ensures Asked(d, request, multiplier) == Err(TokenizerUnavailable)
            <==> request.model.exact && request.external.None?
  {
    hide PlanContext, PlanSemanticRequests, PrepareFails, PlanningFails;
  }

  /** The safety multiplier in force for a profile: its calibration's, or one. */
  function InForce(calibrations: map<CalibrationKey, Calibration>, key: CalibrationKey): real {
    if key in calibrations then calibrations[key].multiplier else 1.0
  }

  /** Each request is that of a module over its grant, and says what it should. */
  ghost predicate AsksWell(d: ArenaDefinition, request: Request, multiplier: real, requests: seq<SemanticRequest>) {
    && multiplier >= 1.0 && ValidModules(d.modules)
    && var counts := Counter(request.external, request.model.estimator, multiplier);
       var stage := AllocationStage(d, request.contributions, request.model.contextLimit - request.model.reservedOutput,
                                    counts);
       requests != [] ==>
         stage.Ok? && forall r | r in requests :: SaysForArena(d, request.contributions, stage.value.rows, counts, r)
  }

  lemma AskedIsPlanned(d: ArenaDefinition, request: Request, multiplier: real)
    requires ValidDefinition(d) && multiplier >= 1.0 && Asked(d, request, multiplier).Ok?
    ensures ValidModules(d.modules)
    ensures PlanSemanticRequests(d, request.contributions, request.model.contextLimit - request.model.reservedOutput,
                                 Counter(request.external, request.model.estimator, multiplier))
            == Ok(Asked(d, request, multiplier).value)
  {
    hide PlanSemanticRequests, PlanningFails;
  }

  lemma PlannedAsksWell(d: ArenaDefinition, request: Request, multiplier: real)
    requires ValidDefinition(d) && multiplier >= 1.0
    ensures var asked := Asked(d, request, multiplier); asked.Ok? ==> AsksWell(d, request, multiplier, asked.value)
  {
    hide PlanSemanticRequests, AllocationStage, SaysForArena, ValidDefinition, ValidModules, Asked;
    var asked := Asked(d, request, multiplier);
    if asked.Ok? {
      AskedIsPlanned(d, request, multiplier);
      var counts := Counter(request.external, request.model.estimator, multiplier);
      var budget := request.model.contextLimit - request.model.reservedOutput;
      var stage := AllocationStage(d, request.contributions, budget, counts);
      forall r | r in asked.value
        ensures stage.Ok? && SaysForArena(d, request.contributions, stage.value.rows, counts, r)
      {
        PlansSay(d, request.contributions, budget, counts, r);
      }
      if asked.value != [] {
        assert asked.value[0] in asked.value;
      }
    }
  }

  /** What planning must answer, given the multiplier it counted with. */
  function Asked(d: ArenaDefinition, request: Request, multiplier: real): Result<seq<SemanticRequest>, ArenaError>
    requires ValidDefinition(d) && multiplier >= 1.0
  {
    if request.model.exact && request.external.None? then Err(TokenizerUnavailable)
    else
      match PlanSemanticRequests(d, request.contributions, InputBudget(request), CounterFor(request, multiplier))
      case Err(e) => Err(Failed(e))
      case Ok(requests) =>
        if PlanningFails(d, request.contributions, InputBudget(request), CounterFor(request, multiplier))
        then Err(Failed(TokenizerFailed)) else Ok(requests)
  }

  /** What a commit must answer: planning's error, the first objection to the results, or the prepare. */
  function CommitAnswer(d: ArenaDefinition, request: Request, results: seq<SemanticResult>,
                        multiplier: real): Result<Plan, ArenaError>
    requires ValidDefinition(d) && multiplier >= 1.0
  {
    match Asked(d, request, multiplier)
    case Err(e) => Err(e)
    case Ok(requests) =>
      match FirstRefusal(results, 0, requests)
      case Some(e) => Err(Refused(e))
      case None => Answer(d, request, ResultMap(results), multiplier)
  }

  /** No semantic result whatever would have changed the answer. */
  ghost predicate AnsweredWhatever(d: ArenaDefinition, request: Request, multiplier: real, plan: Plan)
    requires ValidDefinition(d) && multiplier >= 1.0
  {
    forall results: SemanticResults :: Answer(d, request, results, multiplier) == Ok(plan)
  }

  /** Any other results that agree on the requested ids would have been answered the same. */
  ghost predicate DecidedByPlanned(d: ArenaDefinition, request: Request, multiplier: real,
                                   requests: seq<SemanticRequest>,
                                   results: SemanticResults, plan: Plan)
    requires ValidDefinition(d) && multiplier >= 1.0
  {
    forall others: SemanticResults | AgreeOn(requests, others, results) :: Answer(d, request, others, multiplier)
      == Ok(plan)
  }

  lemma AnswersAgree(d: ArenaDefinition, request: Request, multiplier: real, a: SemanticResults, b: SemanticResults)
    requires ValidDefinition(d) && multiplier >= 1.0
    requires var asked := Asked(d, request, multiplier); asked.Ok? && AgreeOn(asked.value, a, b)
    ensures Answer(d, request, a, multiplier) == Answer(d, request, b, multiplier)
  {
    hide PlanContext, PlanSemanticRequests, AgreeOn, PrepareFails, PlanningFails;
    var counts, budget := CounterFor(request, multiplier), InputBudget(request);
    PrepareDependsOnPlannedIds(d, request.contributions, budget, counts, a, b);
    var plan := PlanContext(d, request.contributions, budget, a, counts);
    if plan.Ok? {
      FailuresFollowPlannedIds(d, request.contributions, budget, counts, a, b, plan.value);
    }
  }

  lemma PlanningIsNotAdmission(d: ArenaDefinition, request: Request, multiplier: real)
    requires ValidDefinition(d) && multiplier >= 1.0
    ensures Asked(d, request, multiplier) != Err(Failed(RenderedExceedsBudget))
  {
    AllocationStageErrors(d, request.contributions, InputBudget(request), CounterFor(request, multiplier));
    hide AllocationStage, RequestsFrom;
  }

  lemma DefinitionModules(d: ArenaDefinition)
    requires ValidDefinition(d)
    ensures ValidModules(d.modules)
  {
  }

  /** What publishing leaves in the transaction. */
  ghost predicate ReadyToCommit(t: ArenaState, call: CallId, request: Request, plan: Plan, snapshot: Snapshot)
    reads t
  {
    && t.activeLeases == ByKey(plan.allocation.leases)
    && Pictures(snapshot, t.snapshotSeq, call, request.model.key, plan, t.calibrations)
    && snapshot.eventsDropped == RingDrops(t.inherited, |t.log| - 1 - t.start)
    && t.latestSnapshot == Some(snapshot) && t.ShowsCurrent()
  }

  /** What a prepare answers once its budget is allocated. */
  function Completion(d: ArenaDefinition, a: Allocated, request: Request, results: SemanticResults, counts: Calibrated)
    : Result<Plan, ArenaError>
  {
    match RenderStage(d, a, request.contributions, InputBudget(request), results, counts)
    case Err(e) => Err(Failed(e))
    case Ok(plan) =>
      if PrepareFails(d, request.contributions, results, plan, counts) then Err(Failed(TokenizerFailed)) else Ok(plan)
  }

  /** The answer, stage by stage, as the prepare goes through them. */
  lemma AnswerInStages(d: ArenaDefinition, request: Request, results: SemanticResults, multiplier: real)
    requires ValidDefinition(d) && multiplier >= 1.0
    ensures var counts := CounterFor(request, multiplier);
            var stage := AllocationStage(d, request.contributions, InputBudget(request), counts);
            Answer(d, request, results, multiplier)
            == if request.model.exact && request.external.None? then Err(TokenizerUnavailable)
               else if stage.Err? then Err(Failed(stage.error))
               else Completion(d, stage.value, request, results, counts)
  {
    hide AllocationStage, RenderStage, PrepareFails;
  }

  lemma PlanCarries(d: ArenaDefinition, a: Allocated, contributions: Contributions, budget: int,
                    results: SemanticResults, counts: Calibrated)
    ensures var plan := RenderStage(d, a, contributions, budget, results, counts);
            plan.Ok? ==> plan.value.allocation == a && 0 <= plan.value.promptTokens <= plan.value.usable
  {
    hide OutcomesFrom;
  }
}
