/**
 The bounded event ring as a window on an unbounded log, reading it back by sequence number, and
 the lease events as a ledger.
 */
module EventLog {
  import opened Texts
  import opened Layout
  import opened Leasing

  /** A request id: the host's own, or one generated from the arena id and a counter. */
  type CallId = Text

  datatype EventKind =
    | RequestStarted
    | LeaseReclaimed(lease: LeaseKey, tokens: int)
    | LeaseGranted(lease: LeaseKey, tokens: int)
    | ChunkCompressed(owner: ModuleId, before: int, after: int)
    | RequestPrepared(promptTokens: int, budget: int)
    | SnapshotPublished(snapshotSeq: nat)
    | UsageCalibrated(samples: nat, estimated: int, actual: int, multiplier: real)

  datatype Event = Event(seqNo: nat, call: CallId, kind: EventKind)

  const RING_CAPACITY: nat := 10_000

  /** The last `n` elements. */
  function Tail<T>(xs: seq<T>, n: nat): (r: seq<T>)
    ensures |r| == if |xs| <= n then |xs| else n
  {
    if |xs| <= n then xs else xs[|xs| - n..]
  }

  /** One push: the oldest event goes when the ring is full. */
  function Pushed(ring: seq<Event>, e: Event, capacity: nat): seq<Event>
    requires capacity > 0
  {
    (if |ring| == capacity then ring[1..] else ring) + [e]
  }

  lemma PushKeepsWindow(log: seq<Event>, e: Event, capacity: nat)
    requires capacity > 0
    ensures Pushed(Tail(log, capacity), e, capacity) == Tail(log + [e], capacity)
  {
    if |log| > capacity {
      assert (log + [e])[|log| + 1 - capacity..] == log[|log| + 1 - capacity..] + [e];
    }
  }

  /** Draining one window into another leaves the window of the concatenated logs. */
  lemma TailOfTails<T>(a: seq<T>, b: seq<T>, n: nat)
    ensures Tail(Tail(a, n) + Tail(b, n), n) == Tail(a + b, n)
  {
    var s := Tail(a, n) + Tail(b, n);
    if |b| >= n {
      assert Tail(s, n) == Tail(b, n);
      assert Tail(a + b, n) == Tail(b, n);
    } else if |a| > n {
      assert (a + b)[|a + b| - n..] == a[|a| + |b| - n..] + b;
    }
  }

  // ----- Reading back -----

  predicate Numbered(log: seq<Event>) {
    forall i | 0 <= i < |log| :: log[i].seqNo == i + 1
  }

  function Clamp(limit: int): nat {
    if limit < 1 then 1 else if limit > RING_CAPACITY then RING_CAPACITY else limit
  }

  function After(events: seq<Event>, afterSeq: nat): seq<Event> {
    if events == [] then []
    else (if events[0].seqNo > afterSeq then [events[0]] else []) + After(events[1..], afterSeq)
  }

  function Take<T>(xs: seq<T>, n: nat): seq<T> {
    if |xs| <= n then xs else xs[..n]
  }

  function EventsAfter(events: seq<Event>, afterSeq: nat, limit: int): seq<Event> {
    Take(After(events, afterSeq), Clamp(limit))
  }

  lemma {:induction false} AfterIsSuffix(log: seq<Event>, i: nat, afterSeq: nat)
    requires Numbered(log) && i <= |log|
    ensures After(log[i..], afterSeq)
            == if afterSeq >= |log| then [] else log[if afterSeq > i then afterSeq else i..]
    decreases |log| - i
  {
    if i < |log| {
      AfterIsSuffix(log, i + 1, afterSeq);
      var tail := log[i..];
      assert tail[0] == log[i] && tail[0].seqNo == i + 1 && tail[1..] == log[i + 1..];
      hide Numbered;
      if afterSeq <= i {
        assert tail == [log[i]] + log[i + 1..];
      } else {
        assert After(tail, afterSeq) == [] + After(tail[1..], afterSeq) == After(tail[1..], afterSeq);
      }
    }
  }

  function LogSlice(log: seq<Event>, afterSeq: nat, limit: int): seq<Event> {
    if afterSeq >= |log| then [] else Take(log[afterSeq..], Clamp(limit))
  }

  /** Reading the ring reads the log after the requested number, or after what was dropped. */
  lemma ReadingTheRing(log: seq<Event>, capacity: nat, afterSeq: nat, limit: int)
    requires Numbered(log)
    ensures var ring := Tail(log, capacity);
            var dropped := |log| - |ring|;
            EventsAfter(ring, afterSeq, limit)
            == LogSlice(log, if afterSeq > dropped then afterSeq else dropped, limit)
  {
    var ring := Tail(log, capacity);
    var dropped := |log| - |ring|;
    assert ring == log[dropped..];
    AfterIsSuffix(log, dropped, afterSeq);
  }

  /** The ring answers exactly as the unbounded log would when nothing asked for was dropped. */
  lemma RingAnswersIff(log: seq<Event>, capacity: nat, afterSeq: nat, limit: int)
    requires Numbered(log) && capacity > 0
    ensures var ring := Tail(log, capacity);
            EventsAfter(ring, afterSeq, limit) == LogSlice(log, afterSeq, limit)
            <==> afterSeq >= |log| - |ring|
  {
    ReadingTheRing(log, capacity, afterSeq, limit);
    var ring := Tail(log, capacity);
    var dropped := |log| - |ring|;
    if afterSeq < dropped {
      assert LogSlice(log, afterSeq, limit)[0] == log[afterSeq];
      assert dropped < |log|;
      assert LogSlice(log, dropped, limit)[0] == log[dropped];
    }
  }

  /**
   Events of the log in their order from a position on: never more than ten thousand, nor more than
   asked for, nor fewer than there are unless that many; asking for none is asking for one.
   */
  ghost predicate IsSlice(log: seq<Event>, from: nat, limit: int, r: seq<Event>) {
    && (forall i | 0 <= i < |r| :: from + i < |log| && r[i] == log[from + i])
    && |r| <= 10_000 && (1 <= limit ==> |r| <= limit) && (limit < 1 ==> |r| <= 1)
    && (from + |r| < |log| ==> |r| == 10_000 || |r| == limit || (limit < 1 && |r| == 1))
  }

  lemma LogSliceIsSlice(log: seq<Event>, from: nat, limit: int)
    ensures IsSlice(log, from, limit, LogSlice(log, from, limit))
  {
  }

  // ----- The lease ledger -----

  function Effect(e: Event, key: LeaseKey): int {
    match e.kind
    case LeaseGranted(lease, tokens) => if lease == key then tokens else 0
    case LeaseReclaimed(lease, tokens) => if lease == key then -tokens else 0
    case _ => 0
  }

  /** Everything ever granted on a lease, less everything reclaimed. */
  function Net(log: seq<Event>, key: LeaseKey): int {
    if log == [] then 0 else Net(log[..|log| - 1], key) + Effect(log[|log| - 1], key)
  }

  lemma NetOfPush(log: seq<Event>, e: Event, key: LeaseKey)
    ensures Net(log + [e], key) == Net(log, key) + Effect(e, key)
  {
    assert (log + [e])[..|log + [e]| - 1] == log;
  }

  type ActiveLeases = map<LeaseKey, Lease>

  function GrantedIn(leases: ActiveLeases, key: LeaseKey): int {
    if key in leases then leases[key].granted else 0
  }

  function ByKey(leases: seq<Lease>): ActiveLeases {
    if leases == [] then map[] else ByKey(leases[..|leases| - 1])[KeyOf(leases[|leases| - 1]) := leases[|leases| - 1]]
  }

  predicate HasKey(leases: seq<Lease>, key: LeaseKey) {
    exists i | 0 <= i < |leases| :: KeyOf(leases[i]) == key
  }

  /** With distinct keys, looking a lease up by its key finds that lease. */
  lemma {:induction false} ByKeyFinds(leases: seq<Lease>)
    requires DistinctKeys(leases)
    ensures forall i | 0 <= i < |leases| ::
              KeyOf(leases[i]) in ByKey(leases) && ByKey(leases)[KeyOf(leases[i])] == leases[i]
    ensures forall key :: key in ByKey(leases) <==> HasKey(leases, key)
    ensures forall key | key in ByKey(leases) :: KeyOf(ByKey(leases)[key]) == key
  {
    if leases != [] {
      var n := |leases| - 1;
      ByKeyFinds(leases[..n]);
      assert forall i | 0 <= i < n :: leases[..n][i] == leases[i];
      forall key ensures key in ByKey(leases) <==> HasKey(leases, key) {
        assert HasKey(leases, key) <==> HasKey(leases[..n], key) || key == KeyOf(leases[n]);
      }
    }
  }
}
