/**
 The host-side telemetry store: one bounded event queue per arena, a count of what each queue has
 dropped, and the latest snapshot. Ghost logs remember everything that was ever published.
 */
module Observations {
  import opened Basics
  import opened Texts
  import opened EventLog
  import opened ArenaStates

  type ArenaId = Text

  class ObservationStore {
    const maxEvents: nat
    var snapshots: map<ArenaId, Snapshot>
    var queues: map<ArenaId, seq<Event>>
    var dropped: map<ArenaId, nat>
    ghost var published: map<ArenaId, seq<Event>>

    function DroppedBy(arena: ArenaId): nat
      reads `dropped
    {
      if arena in dropped then dropped[arena] else 0
    }

    function QueueOf(arena: ArenaId): seq<Event>
      reads `queues
    {
      if arena in queues then queues[arena] else []
    }

    ghost function LogOf(arena: ArenaId): seq<Event>
      reads `published
    {
      if arena in published then published[arena] else []
    }

    /** A queue is the tail of its arena's log, and the drop counter accounts for the rest. */
    ghost predicate Follows(arena: ArenaId)
      reads `queues, `dropped, `published
    {
      && QueueOf(arena) == Tail(LogOf(arena), maxEvents)
      && DroppedBy(arena) + |QueueOf(arena)| == |LogOf(arena)|
    }

    ghost predicate Valid()
      reads `queues, `dropped, `published
    {
      maxEvents > 0 && forall arena :: Follows(arena)
    }

    constructor (maxEvents: nat)
      requires maxEvents > 0
      ensures Valid() && this.maxEvents == maxEvents && snapshots == map[] && published == map[]
    {
      this.maxEvents := maxEvents;
      snapshots, queues, dropped, published := map[], map[], map[], map[];
    }

    /** A store needs room for at least one event per arena. */
    static method Create(maxEvents: int) returns (r: Option<ObservationStore>)
      ensures r.Some? <==> maxEvents > 0
      ensures r.Some? ==> fresh(r.value) && r.value.Valid()
      ensures r.Some? ==> r.value.maxEvents == maxEvents && r.value.published == map[]
    {
      if maxEvents <= 0 {
        return None;
      }
      var store := new ObservationStore(maxEvents);
      r := Some(store);
    }

    method PublishSnapshot(arena: ArenaId, snapshot: Snapshot)
      requires Valid()
      modifies `snapshots
      ensures Valid() && snapshots == old(snapshots)[arena := snapshot]
    {
      snapshots := snapshots[arena := snapshot];
    }

    method PublishEvent(arena: ArenaId, e: Event)
      requires Valid()
      modifies `queues, `dropped, `published
      ensures Valid()
      ensures published == old(published)[arena := old(LogOf(arena)) + [e]]
    {
      assert Follows(arena);
      PushKeepsWindow(LogOf(arena), e, maxEvents);
      var queue := QueueOf(arena);
      if |queue| == maxEvents {
        dropped := dropped[arena := DroppedBy(arena) + 1];
        queue := queue[1..];
      }
      queues := queues[arena := queue + [e]];
      published := published[arena := LogOf(arena) + [e]];
      forall other ensures Follows(other) {
        assert old(Follows(other));
      }
    }

    method PublishMany(arena: ArenaId, events: seq<Event>)
      requires Valid()
      modifies `queues, `dropped, `published
      ensures Valid()
      ensures LogOf(arena) == old(LogOf(arena)) + events
      ensures forall other | other != arena :: LogOf(other) == old(LogOf(other))
    {
      for i := 0 to |events|
        invariant Valid()
        invariant LogOf(arena) == old(LogOf(arena)) + events[..i]
        invariant forall other | other != arena :: LogOf(other) == old(LogOf(other))
      {
        PublishEvent(arena, events[i]);
      }
      assert events[..|events|] == events;
    }

    /** What the store has lost of an arena's log. */
    ghost function LostEvents(arena: ArenaId): int
      reads `queues, `published
    {
      |LogOf(arena)| - |QueueOf(arena)|
    }

    /** The loss the store reports: the snapshot's own count and the store's together. */
    function ReportedLoss(arena: ArenaId): nat
      requires arena in snapshots
      reads `snapshots, `dropped
    {
      snapshots[arena].eventsDropped + DroppedBy(arena)
    }

    /** The reported loss is the store's own and, on top of it, what the published snapshot counts. */
    method GetSnapshot(arena: ArenaId) returns (r: Option<Snapshot>)
      requires Valid()
      ensures r.Some? <==> arena in snapshots
      ensures r.Some? ==> r.value == snapshots[arena].(eventsDropped := ReportedLoss(arena))
      ensures r.Some? ==> r.value.eventsDropped == LostEvents(arena) + snapshots[arena].eventsDropped
    {
      if arena !in snapshots {
        return None;
      }
      assert Follows(arena);
      var snapshot := snapshots[arena];
      r := Some(snapshot.(eventsDropped := snapshot.eventsDropped + DroppedBy(arena)));
    }

    /** An arena whose events arrive numbered reads back its own log whenever nothing asked for was dropped. */
    method ReadEvents(arena: ArenaId, afterSeq: nat, limit: int) returns (r: seq<Event>)
      requires Valid()
      ensures r == EventsAfter(QueueOf(arena), afterSeq, limit)
      ensures Numbered(LogOf(arena)) ==>
                && r == LogSlice(LogOf(arena), if afterSeq > DroppedBy(arena) then afterSeq else DroppedBy(arena),
                                 limit)
                && IsSlice(LogOf(arena), if afterSeq > DroppedBy(arena) then afterSeq else DroppedBy(arena), limit, r)
                && (r == LogSlice(LogOf(arena), afterSeq, limit) <==> afterSeq >= DroppedBy(arena))
    {
      assert Follows(arena);
      r := EventsAfter(QueueOf(arena), afterSeq, limit);
      if Numbered(LogOf(arena)) {
        ReadingTheRing(LogOf(arena), maxEvents, afterSeq, limit);
        RingAnswersIff(LogOf(arena), maxEvents, afterSeq, limit);
        LogSliceIsSlice(LogOf(arena), if afterSeq > DroppedBy(arena) then afterSeq else DroppedBy(arena), limit);
      }
    }

    /** The oldest number still held: one past what was dropped. */
    method MinimumEventSeq(arena: ArenaId) returns (r: Option<nat>)
      requires Valid()
      ensures r.Some? <==> QueueOf(arena) != []
      ensures r.Some? && Numbered(LogOf(arena)) ==> r.value == DroppedBy(arena) + 1
    {
      assert Follows(arena);
      var queue := QueueOf(arena);
      r := if queue == [] then None else Some(queue[0].seqNo);
    }
  }
}
