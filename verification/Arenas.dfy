/**
 The arena: prepares run as transactions over its state, in one step or in two around semantic
 results, and usage reports feed its calibration. Every operation keeps the run's invariants.
 */
module Arenas {
  import opened Basics
  import opened Texts
  import opened Counting
  import opened Layout
  import opened Leasing
  import opened LeaseIdentity
  import opened Reclaim
  import opened Preparing
  import opened HostFailures
  import opened Admission
  import opened EventLog
  import opened ArenaStates

  datatype ModelProfile = ModelProfile(key: CalibrationKey, contextLimit: int, reservedOutput: int,
                                       estimator: Estimator, exact: bool)

  datatype ArenaError =
    | TokenizerUnavailable
    | Failed(why: PrepareError)
    | Refused(reason: CommitError)

  datatype PreparedContext = PreparedContext(call: CallId, plan: Plan, events: seq<Event>, snapshot: Snapshot)

  datatype BeginOutcome = Ready(prepared: PreparedContext) | NeedsSemantic(requests: seq<SemanticRequest>)

  /** One prepare request, its contributions validated. */
  datatype Request = Request(model: ModelProfile, contributions: Contributions, id: Option<CallId>,
                             external: Option<Text -> int>)

  function CounterFor(request: Request, multiplier: real): Counter {
    Counter(request.external, request.model.estimator, multiplier)
  }

  function InputBudget(request: Request): int {
    request.model.contextLimit - request.model.reservedOutput
  }

  /** The host's request id if it gave a visible one, else the arena id and a counter. */
  function CallIdFor(arenaId: Text, request: Request, requestSeq: nat): CallId {
    if request.id.Some? && !AllBlank(request.id.value) then request.id.value
    else arenaId + [Letter(0x3A, Symbol)] + Decimal(requestSeq)
  }

  /** The id a call goes by: the host's, if visible, else one that ends in the number of the request. */
  ghost predicate NamesCall(arenaId: Text, request: Request, requestSeq: nat, call: CallId) {
    if request.id.Some? && exists i | 0 <= i < |request.id.value| :: !IsBlank(request.id.value[i])
    then call == request.id.value
    else exists digits: Text ::
           call == arenaId + [Letter(0x3A, Symbol)] + digits && AllDigits(digits) && Reading(digits) == requestSeq
  }

  lemma CallIsNamed(arenaId: Text, request: Request, requestSeq: nat)
    ensures NamesCall(arenaId, request, requestSeq, CallIdFor(arenaId, request, requestSeq))
  {
    DecimalReadsBack(requestSeq);
    hide Decimal, Reading, AllDigits;
  }

  /** Generated ids never clash within an arena: different numbers make different ids. */
  lemma GeneratedIdsDiffer(arenaId: Text, a: Request, b: Request, m: nat, n: nat)
    requires a.id.None? && b.id.None? && m != n
    ensures CallIdFor(arenaId, a, m) != CallIdFor(arenaId, b, n)
  {
    DecimalReadsBack(m);
    DecimalReadsBack(n);
    hide Decimal, Reading, AllDigits;
    var front := arenaId + [Letter(0x3A, Symbol)];
    assert (front + Decimal(m))[|front|..] == Decimal(m) && (front + Decimal(n))[|front|..] == Decimal(n);
  }

  /** What a prepare must answer, given the multiplier it counted with. */
  function Answer(d: ArenaDefinition, request: Request, results: SemanticResults,
                  multiplier: real): Result<Plan, ArenaError>
    requires ValidDefinition(d) && multiplier >= 1.0
  {
    if request.model.exact && request.external.None? then Err(TokenizerUnavailable)
    else
      match PlanContext(d, request.contributions, InputBudget(request), results, CounterFor(request, multiplier))
      case Err(e) => Err(Failed(e))
      case Ok(plan) =>
        if PrepareFails(d, request.contributions, results, plan, CounterFor(request, multiplier))
        then Err(Failed(TokenizerFailed)) else Ok(plan)
  }

  lemma AllocationLeases(d: ArenaDefinition, contributions: Contributions, inputBudget: int, counts: Calibrated)
    requires ValidModules(d.modules)
    ensures var a := AllocationStage(d, contributions, inputBudget, counts);
            a.Ok? ==> DistinctKeys(a.value.leases) && forall l | l in a.value.leases :: l.granted > 0
  {
    hide Allocation, Demands, SeparatorTokens, BudgetFitsFloors;
    var demands := Demands(d.modules, contributions, counts);
    var budget := inputBudget - SeparatorTokens(d.modules, contributions, counts);
    forall m | m in d.modules ensures Of(demands, m.id) >= 0 {
      DemandNonNegative(d.modules, contributions, counts, m.id);
    }
    LeaseKeysAreUnique(d, demands, budget);
    LeasesAreReleasable(d, demands, budget);
  }

  /** After the old leases are gone through: what both allocations have in common remains. */
  ghost predicate Reduced(log: seq<Event>, old_: ActiveLeases, next: ActiveLeases, pending: set<LeaseKey>) {
    forall key :: Net(log, key) == if key in pending then GrantedIn(old_, key)
                                   else Min(GrantedIn(old_, key), GrantedIn(next, key))
  }

  /** While the new leases are granted: the first `n` have their full amount. */
  ghost predicate Raised(log: seq<Event>, old_: ActiveLeases, leases: seq<Lease>, n: nat)
    requires n <= |leases|
  {
    forall key :: Net(log, key) == if HasKey(leases[..n], key) then GrantedIn(ByKey(leases), key)
                                   else Min(GrantedIn(old_, key), GrantedIn(ByKey(leases), key))
  }

  predicate Positive(leases: ActiveLeases) {
    forall key | key in leases :: leases[key].granted > 0
  }

  /** The event reports, in full, what one lease lost or gained between two allocations. */
  predicate ChangesLease(e: Event, before: ActiveLeases, after: ActiveLeases) {
    match e.kind
    case LeaseReclaimed(key, tokens) => tokens > 0 && tokens == GrantedIn(before, key) - GrantedIn(after, key)
    case LeaseGranted(key, tokens) => tokens > 0 && tokens == GrantedIn(after, key) - GrantedIn(before, key)
    case _ => false
  }

  predicate ChangesLeases(events: seq<Event>, call: CallId, before: ActiveLeases, after: ActiveLeases) {
    forall e | e in events :: e.call == call && ChangesLease(e, before, after)
  }

  /** The events are exactly these, in this order, for this call. */
  predicate Tells(events: seq<Event>, call: CallId, kinds: seq<EventKind>) {
    |events| == |kinds| && forall i | 0 <= i < |events| :: events[i].call == call && events[i].kind == kinds[i]
  }

  /** One compression event per module that ended smaller than it started, in layout order. */
  function Compressions(outcomes: seq<Outcome>): seq<EventKind> {
    if outcomes == [] then []
    else
      var o := outcomes[|outcomes| - 1];
      Compressions(outcomes[..|outcomes| - 1]) + (if o.used < o.before then [ChunkCompressed(o.id, o.before, o.used)]
                                                  else [])
  }

  /** Compression events tell of every module that shrank, each from more to less, and of no other. */
  lemma {:induction false} CompressionsTell(outcomes: seq<Outcome>)
    ensures forall e | e in Compressions(outcomes) ::
              e.ChunkCompressed? && e.after < e.before
              && exists o | o in outcomes :: o.id == e.owner && o.before == e.before && o.used == e.after
    ensures forall o | o in outcomes && o.used < o.before ::
              exists e | e in Compressions(outcomes) ::
                e.ChunkCompressed? && e.owner == o.id && e.before == o.before && e.after == o.used
  {
    if outcomes != [] {
      var rest, o := outcomes[..|outcomes| - 1], outcomes[|outcomes| - 1];
      assert outcomes == rest + [o];
      CompressionsTell(rest);
      if o.used < o.before {
        assert ChunkCompressed(o.id, o.before, o.used) in Compressions(outcomes);
      }
    }
  }

  /** The events of one prepare: started, the lease changes, the compressions, prepared, published. */
  predicate Narrates(events: seq<Event>, call: CallId, plan: Plan, before: ActiveLeases, snapshotSeq: nat) {
    var closing := Compressions(plan.outcomes)
                   + [RequestPrepared(plan.promptTokens, plan.usable), SnapshotPublished(snapshotSeq)];
    var n := |events| - |closing|;
    && n >= 1
    && Tells(events[..1], call, [RequestStarted])
    && ChangesLeases(events[1..n], call, before, ByKey(plan.allocation.leases))
    && Tells(events[n..], call, closing)
  }

  lemma NarrationFrom(started: Event, changes: seq<Event>, compressed: seq<Event>, closing: seq<Event>,
                      call: CallId, plan: Plan, before: ActiveLeases, snapshotSeq: nat)
    requires started.call == call && started.kind == RequestStarted
    requires ChangesLeases(changes, call, before, ByKey(plan.allocation.leases))
    requires Tells(compressed, call, Compressions(plan.outcomes))
    requires Tells(closing, call, [RequestPrepared(plan.promptTokens, plan.usable), SnapshotPublished(snapshotSeq)])
    ensures Narrates([started] + changes + compressed + closing, call, plan, before, snapshotSeq)
  {
    hide Compressions, ChangesLeases, ByKey;
    var events := [started] + changes + compressed + closing;
    var n := |events| - |compressed + closing|;
    assert events[..1] == [started];
    assert events[1..n] == changes;
    assert events[n..] == compressed + closing;
  }

  lemma ReducedStep(log: seq<Event>, old_: ActiveLeases, next: ActiveLeases, pending: set<LeaseKey>, key: LeaseKey)
    requires Reduced(log, old_, next, pending) && key in pending && Positive(next)
    ensures var reclaimed := GrantedIn(old_, key) - GrantedIn(next, key);
            if reclaimed > 0
            then forall e: Event | e.kind == LeaseReclaimed(key, reclaimed)
              :: Reduced(log + [e], old_, next, pending - {key})
            else Reduced(log, old_, next, pending - {key})
  {
    var reclaimed := GrantedIn(old_, key) - GrantedIn(next, key);
    if reclaimed > 0 {
      forall e: Event | e.kind == LeaseReclaimed(key, reclaimed)
        ensures Reduced(log + [e], old_, next, pending - {key})
      {
        forall other
          ensures Net(log + [e], other) == if other in pending - {key} then GrantedIn(old_, other)
                                           else Min(GrantedIn(old_, other), GrantedIn(next, other))
        {
          NetOfPush(log, e, other);
        }
      }
    }
  }

  method PushReclaims(t: ArenaState, call: CallId, next: ActiveLeases) returns (pushed: seq<Event>)
    requires t.RingValid() && LedgerBalances(t.log, t.activeLeases) && Positive(next)
    modifies t`eventSeq, t`events, t`eventsDropped, t`log
    ensures t.RingValid() && t.log == old(t.log) + pushed && ChangesLeases(pushed, call, t.activeLeases, next)
    ensures Reduced(t.log, t.activeLeases, next, {})
  {
    hide RingWindows;
    pushed := [];
    var pending := t.activeLeases.Keys;
    while pending != {}
      invariant t.RingValid() && t.log == old(t.log) + pushed && ChangesLeases(pushed, call, t.activeLeases, next)
      invariant pending <= t.activeLeases.Keys
      invariant Reduced(t.log, t.activeLeases, next, pending)
      decreases |pending|
    {
      var key :| key in pending;
      ReducedStep(t.log, t.activeLeases, next, pending, key);
      var reclaimed := t.activeLeases[key].granted - GrantedIn(next, key);
      if reclaimed > 0 {
        var e := t.PushEvent(call, LeaseReclaimed(key, reclaimed));
        pushed := pushed + [e];
      }
      pending := pending - {key};
    }
  }

  lemma RaisedStep(log: seq<Event>, old_: ActiveLeases, leases: seq<Lease>, n: nat)
    requires n < |leases| && DistinctKeys(leases) && Raised(log, old_, leases, n)
    ensures GrantedIn(ByKey(leases), KeyOf(leases[n])) == leases[n].granted
    ensures var key := KeyOf(leases[n]);
            var granted := leases[n].granted - GrantedIn(old_, key);
            if granted > 0
            then forall e: Event | e.kind == LeaseGranted(key, granted) :: Raised(log + [e], old_, leases, n + 1)
            else Raised(log, old_, leases, n + 1)
  {
    hide ByKey, Net, HasKey, DistinctKeys;
    var key := KeyOf(leases[n]);
    var granted := leases[n].granted - GrantedIn(old_, key);
    ByKeyFinds(leases);
    KeysOfPrefix(leases, n);
    if granted > 0 {
      forall e: Event | e.kind == LeaseGranted(key, granted) ensures Raised(log + [e], old_, leases, n + 1) {
        forall other
          ensures Net(log + [e], other) == if HasKey(leases[..n + 1], other) then GrantedIn(ByKey(leases), other)
                                           else Min(GrantedIn(old_, other), GrantedIn(ByKey(leases), other))
        {
          NetOfPush(log, e, other);
        }
      }
    }
  }

  lemma KeysOfPrefix(leases: seq<Lease>, n: nat)
    requires n < |leases| && DistinctKeys(leases)
    ensures forall key :: HasKey(leases[..n + 1], key) <==> HasKey(leases[..n], key) || key == KeyOf(leases[n])
    ensures !HasKey(leases[..n], KeyOf(leases[n]))
  {
    forall key ensures HasKey(leases[..n + 1], key) <==> HasKey(leases[..n], key) || key == KeyOf(leases[n]) {
      if HasKey(leases[..n], key) {
        var i :| 0 <= i < n && KeyOf(leases[..n][i]) == key;
        assert leases[..n + 1][i] == leases[..n][i];
      }
      if HasKey(leases[..n + 1], key) {
        var i :| 0 <= i < n + 1 && KeyOf(leases[..n + 1][i]) == key;
        assert i < n ==> leases[..n][i] == leases[..n + 1][i];
      }
      assert leases[..n + 1][n] == leases[n];
    }
  }

  method PushGrants(t: ArenaState, call: CallId, leases: seq<Lease>) returns (pushed: seq<Event>)
    requires t.RingValid() && DistinctKeys(leases) && Raised(t.log, t.activeLeases, leases, 0)
    modifies t`eventSeq, t`events, t`eventsDropped, t`log
    ensures t.RingValid() && t.log == old(t.log) + pushed && ChangesLeases(pushed, call, t.activeLeases, ByKey(leases))
    ensures Raised(t.log, t.activeLeases, leases, |leases|)
  {
    hide RingWindows, DistinctKeys, Raised, ByKey;
    pushed := [];
    for i := 0 to |leases|
      invariant t.RingValid() && t.log == old(t.log) + pushed
      invariant ChangesLeases(pushed, call, t.activeLeases, ByKey(leases))
      invariant Raised(t.log, t.activeLeases, leases, i)
    {
      RaisedStep(t.log, t.activeLeases, leases, i);
      var granted := leases[i].granted - GrantedIn(t.activeLeases, KeyOf(leases[i]));
      if granted > 0 {
        var e := t.PushEvent(call, LeaseGranted(KeyOf(leases[i]), granted));
        pushed := pushed + [e];
      }
    }
  }

  lemma LedgerHandover(log: seq<Event>, old_: ActiveLeases, leases: seq<Lease>)
    requires DistinctKeys(leases) && (forall l | l in leases :: l.granted > 0) && Positive(old_)
    ensures Positive(ByKey(leases))
    ensures Reduced(log, old_, ByKey(leases), {}) ==> Raised(log, old_, leases, 0)
    ensures Raised(log, old_, leases, |leases|) ==> LedgerBalances(log, ByKey(leases))
  {
    ByKeyFinds(leases);
    assert leases[..|leases|] == leases;
    forall key | key in ByKey(leases) ensures ByKey(leases)[key].granted > 0 {
      var i :| 0 <= i < |leases| && KeyOf(leases[i]) == key;
      assert leases[i] in leases;
    }
  }

  /** Reclaim and grant events take the ledger from the leases in force to the new ones. */
  method PushLeaseChanges(t: ArenaState, call: CallId, leases: seq<Lease>) returns (pushed: seq<Event>)
    requires t.RingValid() && LedgerBalances(t.log, t.activeLeases)
    requires DistinctKeys(leases) && forall l | l in leases :: l.granted > 0
    modifies t`eventSeq, t`events, t`eventsDropped, t`log
    ensures t.RingValid() && t.log == old(t.log) + pushed && ChangesLeases(pushed, call, t.activeLeases, ByKey(leases))
    ensures LedgerBalances(t.log, ByKey(leases))
  {
    assert Positive(t.activeLeases);
    hide RingWindows, DistinctKeys, Raised, Reduced, Positive;
    LedgerHandover(t.log, t.activeLeases, leases);
    var reclaims := PushReclaims(t, call, ByKey(leases));
    LedgerHandover(t.log, t.activeLeases, leases);
    var grants := PushGrants(t, call, leases);
    LedgerHandover(t.log, t.activeLeases, leases);
    pushed := reclaims + grants;
  }
}
