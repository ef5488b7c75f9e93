/**
 The Python facade: it runs the two-phase prepare against the host's summary providers, and copies
 the kernel's events and snapshots into a telemetry store.
 */
module Host {
  import opened Basics
  import opened Texts
  import opened Reclaim
  import opened Layout
  import opened Preparing
  import opened HostFailures
  import opened UsageHistory
  import opened RoundTrip
  import opened EventLog
  import opened UsageIndex
  import opened ArenaStates
  import opened Arenas
  import opened Plans
  import opened Kernel
  import opened Observations

  datatype HostError = Native(error: ArenaError) | ProviderFailed(id: RequestId)

  /** What the host's summary providers answer; nothing when a provider is unknown or raises. */
  type Providers = SemanticRequest -> Option<Text>

  /** One result per request, in order, unless a provider fails. */
  function Summaries(requests: seq<SemanticRequest>, providers: Providers): Result<seq<SemanticResult>, HostError> {
    if requests == [] then Ok([])
    else
      match providers(requests[0])
      case None => Err(ProviderFailed(requests[0].id))
      case Some(text) => Following([SemanticResult(requests[0].id, text)], Summaries(requests[1..], providers))
  }

  function Following(first: seq<SemanticResult>, rest: Result<seq<SemanticResult>, HostError>)
    : Result<seq<SemanticResult>, HostError>
  {
    match rest
    case Err(e) => Err(e)
    case Ok(more) => Ok(first + more)
  }

  lemma FollowingMore(p: seq<SemanticResult>, q: seq<SemanticResult>, rest: Result<seq<SemanticResult>, HostError>)
    ensures Following(p + q, rest) == Following(p, Following(q, rest)) && Following([], rest) == rest
  {
    if rest.Ok? {
      assert p + q + rest.value == p + (q + rest.value) && [] + rest.value == rest.value;
    }
  }

  lemma {:induction false} SummariesAnswer(requests: seq<SemanticRequest>, providers: Providers)
    requires Summaries(requests, providers).Ok?
    ensures Answers(Summaries(requests, providers).value, requests)
    ensures forall i | 0 <= i < |requests| ::
              Some(Summaries(requests, providers).value[i].content) == providers(requests[i])
  {
    if requests != [] {
      SummariesAnswer(requests[1..], providers);
    }
  }

  /** What the host's prepare must answer. */
  function HostAnswer(d: ArenaDefinition, request: Request, providers: Providers,
                      multiplier: real): Result<Plan, HostError>
    requires ValidDefinition(d) && multiplier >= 1.0
  {
    match Asked(d, request, multiplier)
    case Err(e) => Err(Native(e))
    case Ok(requests) =>
      match Summaries(requests, providers)
      case Err(e) => Err(e)
      case Ok(results) =>
        match CommitAnswer(d, request, results, multiplier)
        case Err(e) => Err(Native(e))
        case Ok(plan) => Ok(plan)
  }

  /**
   Every provider may answer, and the host may hand each answer back under its own id: its results
   are still refused, exactly when a module that asks lists one provider twice.
   */
  lemma HostIsRefusedIff(d: ArenaDefinition, request: Request, providers: Providers, multiplier: real,
                         reason: CommitError)
    requires ValidDefinition(d) && multiplier >= 1.0
    ensures HostAnswer(d, request, providers, multiplier) == Err(Native(Refused(reason)))
            <==> var asked := Asked(d, request, multiplier);
                 && reason == DuplicateResult && asked.Ok? && Summaries(asked.value, providers).Ok?
                 && !AskersDoNotRepeat(d.modules, asked.value)
  {
    hide Asked, ValidDefinition, AskersDoNotRepeat, Answers, CommitAnswer, Summaries;
    var asked := Asked(d, request, multiplier);
    AskingIsNotRefused(d, request, multiplier);
    if asked.Ok? {
      SummariesFail(asked.value, providers);
      if Summaries(asked.value, providers).Ok? {
        SummariesAnswer(asked.value, providers);
        CommitIsRefusedIff(d, request, Summaries(asked.value, providers).value, multiplier, reason);
      }
    }
  }

  lemma CommitIsRefusedIff(d: ArenaDefinition, request: Request, results: seq<SemanticResult>, multiplier: real,
                           reason: CommitError)
    requires ValidDefinition(d) && multiplier >= 1.0
    requires Asked(d, request, multiplier).Ok? && Answers(results, Asked(d, request, multiplier).value)
    ensures CommitAnswer(d, request, results, multiplier) == Err(Refused(reason))
            <==> reason == DuplicateResult && !AskersDoNotRepeat(d.modules, Asked(d, request, multiplier).value)
  {
    hide Asked, ValidDefinition, AskersDoNotRepeat, Answers, FirstRefusal, Answer, ResultMap;
    AskedIsPlanned(d, request, multiplier);
    AnsweringEverything(d, request.contributions, InputBudget(request), CounterFor(request, multiplier), results);
    NeverRefusedLater(d, request, ResultMap(results), multiplier);
  }

  lemma {:induction false} SummariesFail(requests: seq<SemanticRequest>, providers: Providers)
    ensures Summaries(requests, providers).Err? ==> Summaries(requests, providers).error.ProviderFailed?
  {
    if requests != [] {
      SummariesFail(requests[1..], providers);
    }
  }

  /** With nothing to ask, what the host answers is the kernel's answer without results. */
  lemma NothingToSummarize(d: ArenaDefinition, request: Request, providers: Providers, multiplier: real)
    requires ValidDefinition(d) && multiplier >= 1.0 && Asked(d, request, multiplier) == Ok([])
    ensures HostAnswer(d, request, providers, multiplier)
            == match Answer(d, request, map[], multiplier)
               case Err(e) => Err(Native(e))
               case Ok(plan) => Ok(plan)
  {
    hide Asked, Answer, ValidDefinition;
    assert ResultMap([]) == map[] && FirstRefusal([], 0, []) == None;
  }

  lemma NeverRefusedLater(d: ArenaDefinition, request: Request, results: SemanticResults, multiplier: real)
    requires ValidDefinition(d) && multiplier >= 1.0
    ensures var answer := Answer(d, request, results, multiplier); answer.Err? ==> !answer.error.Refused?
  {
    hide PlanContext, PrepareFails, ValidDefinition;
  }

  lemma AskingIsNotRefused(d: ArenaDefinition, request: Request, multiplier: real)
    requires ValidDefinition(d) && multiplier >= 1.0
    ensures var asked := Asked(d, request, multiplier); asked.Err? ==> !asked.error.Refused?
  {
    hide PlanSemanticRequests, PlanningFails, ValidDefinition;
  }

  // ----- Catching up after a usage report -----

  /** The last event number among the first ten thousand the store holds. */
  function LastSeen(existing: seq<Event>): nat {
    if existing == [] then 0 else existing[|existing| - 1].seqNo
  }

  lemma SeesTheEndIff(log: seq<Event>, capacity: nat)
    requires Numbered(log) && capacity > 0
    ensures var queue := Tail(log, capacity);
            var seen := LastSeen(LogSlice(log, |log| - |queue|, RING_CAPACITY));
            seen <= |log| && (seen == |log| <==> |queue| <= RING_CAPACITY)
  {
    var queue := Tail(log, capacity);
    var dropped: nat := |log| - |queue|;
    if log != [] {
      assert dropped < |log|;
      var existing := LogSlice(log, dropped, RING_CAPACITY);
      assert existing == Take(log[dropped..], RING_CAPACITY);
      assert existing[|existing| - 1] == log[dropped + |existing| - 1];
    }
  }

  /** What is read after the last number seen is the one new event, exactly when that was the last number. */
  lemma CatchesUpIff(log: seq<Event>, e: Event, seen: nat, dropped: nat)
    requires seen <= |log| && dropped == RingDrops(0, |log| + 1)
    ensures log + LogSlice(log + [e], Max(seen, dropped), 1000) == log + [e] <==> seen == |log|
  {
    var grown := log + [e];
    var from := Max(seen, dropped);
    assert grown[|log|..] == [e];
    if seen < |log| {
      assert from < |log|;
      assert |LogSlice(grown, from, 1000)| >= 2;
      assert |log + LogSlice(grown, from, 1000)| > |grown|;
    }
  }

  class HostArena {
    const kernel: ContextLeaseArena
    const store: ObservationStore
    const providers: Providers

    ghost predicate Valid()
      reads kernel.state, store
    {
      kernel.Valid() && store.Valid()
    }

    /** The store has been told exactly the kernel's log. */
    ghost predicate Mirrors()
      reads kernel.state, store
    {
      store.LogOf(kernel.arenaId) == kernel.state.log
    }

    /** The loss reported for this arena is the loss the store has had. */
    ghost predicate ReportsItsLoss()
      reads store
    {
      && kernel.arenaId in store.snapshots
      && store.ReportedLoss(kernel.arenaId) == store.LostEvents(kernel.arenaId)
    }

    constructor (kernel: ContextLeaseArena, store: ObservationStore, providers: Providers)
      ensures this.kernel == kernel && this.store == store && this.providers == providers
    {
      this.kernel, this.store, this.providers := kernel, store, providers;
    }

    method Summarize(requests: seq<SemanticRequest>) returns (r: Result<seq<SemanticResult>, HostError>)
      ensures r == Summaries(requests, providers)
      ensures r.Ok? ==> |r.value| == |requests|
      ensures r.Ok? ==> forall i | 0 <= i < |requests| ::
                r.value[i].id == requests[i].id && Some(r.value[i].content) == providers(requests[i])
    {
      if Summaries(requests, providers).Ok? {
        SummariesAnswer(requests, providers);
      }
      var results: seq<SemanticResult> := [];
      FollowingMore([], [], Summaries(requests, providers));
      for i := 0 to |requests|
        invariant Summaries(requests, providers) == Following(results, Summaries(requests[i..], providers))
      {
        assert requests[i..][0] == requests[i] && requests[i..][1..] == requests[i + 1..];
        match providers(requests[i]) {
          case None => return Err(ProviderFailed(requests[i].id));
          case Some(text) =>
            var result := SemanticResult(requests[i].id, text);
            FollowingMore(results, [result], Summaries(requests[i + 1..], providers));
            results := results + [result];
        }
      }
      assert results + [] == results;
      r := Ok(results);
    }

    /** Both phases against the kernel; only a success changes it. */
    method Transact(request: Request) returns (r: Result<PreparedContext, HostError>)
      requires kernel.Valid()
      modifies kernel.state
      ensures kernel.Valid()
      ensures r.Err? ==> unchanged(kernel.state)
      ensures r.Err? ==>
                old(HostAnswer(kernel.definition, request, providers, kernel.Multiplier(request))) == Err(r.error)
      ensures r.Ok? ==>
                old(HostAnswer(kernel.definition, request, providers, kernel.Multiplier(request))) == Ok(r.value.plan)
      ensures r.Ok? ==> PreparedFrom(kernel.state, kernel.arenaId, request, r.value)
      ensures r.Ok? ==> Promised(kernel.definition, request,
                                 old(InForce(kernel.state.calibrations, request.model.key)), r.value.plan)
    {
      hide Promised, AsksWell, NamesCall, RingWindows, IndexFollows, CalibrationsFollow, LedgerBalances,
           ValidDefinition, CallIdFor,
           UsageAfter, ByKey,
           AdmissionSafe, Answer, Asked, Summaries, FirstRefusal, Narrates, Pictures, RemembersUsage, ChangeRates,
           RingDrops, DecidedByPlanned;
      ghost var multiplier := kernel.Multiplier(request);
      if Asked(kernel.definition, request, multiplier) == Ok([]) {
        NothingToSummarize(kernel.definition, request, providers, multiplier);
      }
      var begin := kernel.PrepareBegin(request);
      if begin.Err? {
        return Err(Native(begin.error));
      }
      match begin.value {
        case Ready(prepared) =>
          r := Ok(prepared);
        case NeedsSemantic(requests) =>
          var results := Summarize(requests);
          if results.Err? {
            return Err(results.error);
          }
          var committed := kernel.PrepareCommit(request, results.value);
          if committed.Err? {
            return Err(Native(committed.error));
          }
          r := Ok(committed.value);
      }
    }

    method PublishPrepared(prepared: PreparedContext)
      requires store.Valid()
      modifies store
      ensures store.Valid() && store.LogOf(kernel.arenaId) == old(store.LogOf(kernel.arenaId)) + prepared.events
      ensures store.snapshots == old(store.snapshots)[kernel.arenaId := prepared.snapshot]
      ensures ReportsItsLoss() <==> prepared.snapshot.eventsDropped == 0
    {
      store.PublishMany(kernel.arenaId, prepared.events);
      store.PublishSnapshot(kernel.arenaId, prepared.snapshot);
      assert store.Follows(kernel.arenaId);
    }

    /**
     A prepare through the host. The published snapshot was taken inside the transaction, so the loss
     reported is the store's exactly when the log fitted the ring before, and what the prepare logged up
     to the snapshot fits it too.
     */
    method Prepare(request: Request) returns (r: Result<PreparedContext, HostError>)
      requires Valid()
      modifies kernel.state, store
      ensures Valid()
      ensures r.Err? ==> unchanged(kernel.state) && unchanged(store)
      ensures r.Err? ==>
                old(HostAnswer(kernel.definition, request, providers, kernel.Multiplier(request))) == Err(r.error)
      ensures r.Ok? ==>
                old(HostAnswer(kernel.definition, request, providers, kernel.Multiplier(request))) == Ok(r.value.plan)
      ensures r.Ok? ==> PreparedFrom(kernel.state, kernel.arenaId, request, r.value)
      ensures r.Ok? ==> Promised(kernel.definition, request,
                                 old(InForce(kernel.state.calibrations, request.model.key)), r.value.plan)
      ensures r.Ok? ==> store.snapshots == old(store.snapshots)[kernel.arenaId := r.value.snapshot]
      ensures old(Mirrors()) ==> Mirrors()
      ensures r.Ok? ==> (ReportsItsLoss() <==> old(|kernel.state.log|) <= RING_CAPACITY
                                               && |r.value.events| - 1 <= RING_CAPACITY)
    {
      hide RingWindows, IndexFollows, CalibrationsFollow, LedgerBalances, ValidDefinition, HostAnswer, Narrates,
           Promised, Pictures, RemembersUsage, ByKey, UsageAfter, ChangeRates, CallIdFor;
      ghost var before := kernel.state.eventsDropped;
      kernel.DropsFollowLog();
      r := Transact(request);
      if r.Ok? {
        assert r.value.snapshot.eventsDropped == RingDrops(before, |r.value.events| - 1);
        PublishPrepared(r.value);
      }
    }

    lemma QueueFollows()
      requires store.Valid()
      ensures store.maxEvents > 0
      ensures var log, queue := store.LogOf(kernel.arenaId), store.QueueOf(kernel.arenaId);
              queue == Tail(log, store.maxEvents) && store.DroppedBy(kernel.arenaId) == |log| - |queue|
    {
      assert store.Follows(kernel.arenaId);
    }

    /** Tells the store what the kernel logged after the last number the store is seen to hold. */
    method CatchUp(ghost log: seq<Event>, ghost e: Event)
      requires Valid() && kernel.state.log == log + [e] && Numbered(log)
      modifies store
      ensures store.Valid() && store.snapshots == old(store.snapshots)
      ensures old(store.LogOf(kernel.arenaId)) == log ==>
                (Mirrors() <==> old(|store.QueueOf(kernel.arenaId)|) <= RING_CAPACITY)
    {
      hide RingWindows, IndexFollows, CalibrationsFollow, LedgerBalances, ValidDefinition, Tail, LogSlice, RingDrops,
           Numbered, EventsAfter, ObservationStore.Valid;
      kernel.DropsFollowLog();
      QueueFollows();
      var existing := store.ReadEvents(kernel.arenaId, 0, 10_000);
      var raw := kernel.ReadEvents(LastSeen(existing), 1000);
      if store.LogOf(kernel.arenaId) == log {
        SeesTheEndIff(log, store.maxEvents);
        CatchesUpIff(log, e, LastSeen(existing), kernel.state.eventsDropped);
      }
      store.PublishMany(kernel.arenaId, raw);
    }

    method PublishLatest()
      requires store.Valid()
      modifies store
      ensures store.Valid() && store.published == old(store.published) && store.queues == old(store.queues)
      ensures store.snapshots == match kernel.state.latestSnapshot
                                 case None => old(store.snapshots)
                                 case Some(s) => old(store.snapshots)[kernel.arenaId := s]
      ensures kernel.state.latestSnapshot.Some? ==>
                (ReportsItsLoss() <==> kernel.state.latestSnapshot.value.eventsDropped == 0)
    {
      hide ObservationStore.Valid;
      if kernel.state.latestSnapshot.Some? {
        store.PublishSnapshot(kernel.arenaId, kernel.state.latestSnapshot.value);
      }
      QueueFollows();
    }

    /**
     A usage report through the host. The store is caught up with the one new event exactly when it
     held no more than ten thousand before; holding more, it is told old events again. The loss
     reported is the store's exactly when the log, with the new event, fits the ring.
     */
    method RecordUsage(call: CallId, actual: int) returns (r: Result<Calibration, UsageError>)
      requires Valid()
      modifies kernel.state, store
      ensures Valid()
      ensures r.Err? ==> unchanged(kernel.state) && unchanged(store)
      ensures r.Ok? <==> old(!AllBlank(call) && actual >= 0 && call in kernel.state.recentUsage)
      ensures r.Ok? ==> |kernel.state.log| == old(|kernel.state.log|) + 1
      ensures r.Ok? ==> StampedFrom(old(kernel.state.latestSnapshot), kernel.state.latestSnapshot,
                                    ShownCalibration(old(kernel.state.recentUsage[call].key), r.value),
                                    |kernel.state.log|, kernel.state.eventsDropped)
      ensures r.Ok? && old(Mirrors()) ==>
                (Mirrors() <==> old(|store.QueueOf(kernel.arenaId)|) <= RING_CAPACITY)
      ensures r.Ok? && kernel.state.latestSnapshot.Some? ==>
                && store.snapshots == old(store.snapshots)[kernel.arenaId := kernel.state.latestSnapshot.value]
                && (ReportsItsLoss() <==> |kernel.state.log| <= RING_CAPACITY)
    {
      hide RingWindows, IndexFollows, CalibrationsFollow, LedgerBalances, ValidDefinition, StampedFrom, Numbered,
           ObservationStore.Valid, ObservationStore.LogOf, ObservationStore.QueueOf;
      ghost var log := kernel.state.log;
      kernel.LogIsNumbered();
      r := kernel.RecordUsage(call, actual);
      if r.Ok? {
        kernel.DropsFollowLog();
        CatchUp(log, kernel.state.log[|log|]);
        PublishLatest();
      }
    }
  }
}
