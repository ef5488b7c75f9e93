/** Host-side compression in Python: the selector that keeps message groups whole. */
module PythonGroups {
  import opened Basics
  import opened Texts

  // ----- Group selection -----

  /** A message's fields that matter here; an empty text stands for a missing or empty field. */
  datatype Message = Message(dependencyGroup: Text, toolCallId: Text, id: Text, system: bool, content: int)

  const MESSAGE_PREFIX: Text := [
    Letter(0x6D, WordChar), Letter(0x65, WordChar), Letter(0x73, WordChar), Letter(0x73, WordChar),
    Letter(0x61, WordChar), Letter(0x67, WordChar), Letter(0x65, WordChar), Letter(0x3A, Symbol)]

  /** The first field that says something, or the message's own position. */
  function KeyOf(m: Message, index: nat): Text {
    if m.dependencyGroup != [] then m.dependencyGroup
    else if m.toolCallId != [] then m.toolCallId
    else if m.id != [] then m.id
    else MESSAGE_PREFIX + Decimal(index)
  }

  /**
   Messages share a key when they share the first field they have, of dependency group, tool call and
   id; messages that have none stand alone.
   */
  lemma KeysMean(a: Message, i: nat, b: Message, j: nat)
    ensures a.dependencyGroup != [] && b.dependencyGroup != [] ==>
              (KeyOf(a, i) == KeyOf(b, j) <==> a.dependencyGroup == b.dependencyGroup)
    ensures a.dependencyGroup == b.dependencyGroup == [] && a.toolCallId != [] && b.toolCallId != [] ==>
              (KeyOf(a, i) == KeyOf(b, j) <==> a.toolCallId == b.toolCallId)
    ensures a.dependencyGroup == b.dependencyGroup == a.toolCallId == b.toolCallId == [] && a.id != [] && b.id != [] ==>
              (KeyOf(a, i) == KeyOf(b, j) <==> a.id == b.id)
    ensures a.dependencyGroup == b.dependencyGroup == a.toolCallId == b.toolCallId == a.id == b.id == [] ==>
              (KeyOf(a, i) == KeyOf(b, j) <==> i == j)
  {
    DecimalReadsBack(i);
    DecimalReadsBack(j);
    hide Decimal, Reading;
    var n := |MESSAGE_PREFIX|;
    assert (MESSAGE_PREFIX + Decimal(i))[n..] == Decimal(i) && (MESSAGE_PREFIX + Decimal(j))[n..] == Decimal(j);
  }

  /** A message at its place in the list, under its group key. */
  datatype Entry = Entry(index: nat, key: Text, message: Message)

  function Entries(messages: seq<Message>): seq<Entry> {
    seq(|messages|, i requires 0 <= i < |messages| => Entry(i, KeyOf(messages[i], i), messages[i]))
  }

  function Messages(entries: seq<Entry>): seq<Message> {
    seq(|entries|, i requires 0 <= i < |entries| => entries[i].message)
  }

  type Group = seq<Entry>

  function KeyIndex(groups: seq<Group>, key: Text): (k: nat)
    ensures k <= |groups|
  {
    if groups == [] then 0
    else if groups[0] != [] && groups[0][0].key == key then 0
    else 1 + KeyIndex(groups[1..], key)
  }

  /** Messages gathered by key, groups in order of first appearance. */
  function Grouped(entries: seq<Entry>): seq<Group> {
    if entries == [] then []
    else
      Placed(Grouped(entries[..|entries| - 1]), entries[|entries| - 1])
  }

  function Flatten(groups: seq<Group>): seq<Entry> {
    if groups == [] then [] else groups[0] + Flatten(groups[1..])
  }

  predicate HasSystem(g: Group) {
    exists e | e in g :: e.message.system
  }

  predicate OneKey(g: Group) {
    g != [] && forall i | 0 <= i < |g| :: g[i].key == g[0].key
  }

  predicate OneKeyEach(groups: seq<Group>) {
    && (forall k | 0 <= k < |groups| :: OneKey(groups[k]))
    && (forall j, k | 0 <= j < k < |groups| && groups[j] != [] && groups[k] != []
        :: groups[j][0].key != groups[k][0].key)
  }

  lemma {:induction false} KeyIndexFinds(groups: seq<Group>, key: Text)
    ensures var k := KeyIndex(groups, key);
            && (k < |groups| ==> groups[k] != [] && groups[k][0].key == key)
            && (forall j | 0 <= j < k :: groups[j] == [] || groups[j][0].key != key)
  {
    if groups != [] && !(groups[0] != [] && groups[0][0].key == key) {
      KeyIndexFinds(groups[1..], key);
      assert forall j | 0 < j < |groups| :: groups[j] == groups[1..][j - 1];
    }
  }

  lemma FlattenFirst(groups: seq<Group>)
    requires groups != []
    ensures multiset(Flatten(groups)) == multiset(groups[0]) + multiset(Flatten(groups[1..]))
  {
  }

  lemma {:induction false} FlattenOfUpdate(groups: seq<Group>, k: nat, m: Entry)
    requires k < |groups|
    ensures multiset(Flatten(groups[k := groups[k] + [m]])) == multiset(Flatten(groups)) + multiset{m}
  {
    hide Flatten;
    var updated := groups[k := groups[k] + [m]];
    FlattenFirst(groups);
    FlattenFirst(updated);
    if k == 0 {
      assert updated[1..] == groups[1..];
    } else {
      FlattenOfUpdate(groups[1..], k - 1, m);
      assert updated[1..] == groups[1..][k - 1 := groups[1..][k - 1] + [m]];
    }
  }

  lemma {:induction false} FlattenOfAppend(groups: seq<Group>, g: Group)
    ensures Flatten(groups + [g]) == Flatten(groups) + g
  {
    if groups == [] {
      assert groups + [g] == [g] && [g][1..] == [];
      assert Flatten([g]) == g + [];
    } else {
      assert (groups + [g])[1..] == groups[1..] + [g];
      FlattenOfAppend(groups[1..], g);
    }
  }

  function Placed(groups: seq<Group>, m: Entry): seq<Group> {
    var k := KeyIndex(groups, m.key);
    if k < |groups| then groups[k := groups[k] + [m]] else groups + [[m]]
  }

  lemma PlacedKeepsKeys(groups: seq<Group>, m: Entry)
    requires OneKeyEach(groups)
    ensures OneKeyEach(Placed(groups, m))
  {
    KeyIndexFinds(groups, m.key);
    var k, placed := KeyIndex(groups, m.key), Placed(groups, m);
    if k < |groups| {
      assert (groups[k] + [m])[0] == groups[k][0];
      assert OneKey(groups[k] + [m]);
      assert forall j | 0 <= j < |groups| && j != k :: placed[j] == groups[j];
    } else {
      assert OneKey([m]);
      assert forall j | 0 <= j < |groups| :: placed[j] == groups[j];
    }
  }

  /** Grouping loses nothing, and messages share a group exactly when they share a key. */
  lemma {:induction false} GroupingIsComplete(entries: seq<Entry>)
    ensures multiset(Flatten(Grouped(entries))) == multiset(entries)
    ensures OneKeyEach(Grouped(entries))
    ensures entries != [] ==> Grouped(entries) != []
  {
    if entries != [] {
      var rest, m := entries[..|entries| - 1], entries[|entries| - 1];
      var groups := Grouped(rest);
      GroupingIsComplete(rest);
      PlacedKeepsKeys(groups, m);
      assert entries == rest + [m];
      var k := KeyIndex(groups, m.key);
      if k < |groups| {
        FlattenOfUpdate(groups, k, m);
      } else {
        FlattenOfAppend(groups, [m]);
      }
    }
  }

  function KeptGroups(groups: seq<Group>, selected: set<nat>): seq<Group> {
    if groups == [] then []
    else KeptGroups(groups[..|groups| - 1], selected) + (if |groups| - 1 in selected then [groups[|groups| - 1]]
                                                         else [])
  }

  function DroppedGroups(groups: seq<Group>, selected: set<nat>): seq<Group> {
    if groups == [] then []
    else DroppedGroups(groups[..|groups| - 1], selected) + (if |groups| - 1 in selected then []
                                                            else [groups[|groups| - 1]])
  }

  predicate Within(groups: seq<Group>, order: seq<nat>) {
    forall j | 0 <= j < |order| :: order[j] < |groups|
  }

  /** The messages of the groups at the given positions, in that order. */
  function InOrder(groups: seq<Group>, order: seq<nat>): seq<Entry>
    requires Within(groups, order)
  {
    if order == [] then [] else groups[order[0]] + InOrder(groups, order[1..])
  }

  predicate AlreadyIn(groups: seq<Group>, order: seq<nat>, i: nat)
    requires i < |groups| && Within(groups, order)
  {
    exists j | 0 <= j < |order| :: Messages(groups[order[j]]) == Messages(groups[i])
  }

  function SystemGroups(groups: seq<Group>, n: nat): (order: seq<nat>)
    requires n <= |groups|
    ensures Within(groups, order)
    ensures forall k: nat | k < n && HasSystem(groups[k]) :: k in order
  {
    if n == 0 then [] else SystemGroups(groups, n - 1) + (if HasSystem(groups[n - 1]) then [n - 1] else [])
  }

  /** The latest groups join, from position `i` down, while everything considered so far still fits. */
  function ConsiderFrom(groups: seq<Group>, i: nat, order: seq<nat>, count: seq<Message> -> int,
                        target: int): (r: seq<nat>)
    requires i <= |groups| && Within(groups, order)
    ensures Within(groups, r) && order <= r
  {
    if i == 0 then order
    else if !AlreadyIn(groups, order, i - 1) && (count(Messages(InOrder(groups, order + [i - 1]))) <= target
                                                 || order == [])
    then ConsiderFrom(groups, i - 1, order + [i - 1], count, target)
    else ConsiderFrom(groups, i - 1, order, count, target)
  }

  /** System groups first, then the latest groups that fit beside them. */
  function Considered(groups: seq<Group>, count: seq<Message> -> int, target: int): (order: seq<nat>)
    ensures Within(groups, order)
  {
    ConsiderFrom(groups, |groups|, SystemGroups(groups, |groups|), count, target)
  }

  function Positions(order: seq<nat>): set<nat> {
    set k | k in order
  }

  /** One pass over the messages, each joining the group of its key or opening a new one. */
  method GroupMessages(messages: seq<Message>) returns (groups: seq<Group>)
    ensures groups == Grouped(Entries(messages))
  {
    groups := [];
    ghost var entries := Entries(messages);
    for i := 0 to |messages|
      invariant groups == Grouped(entries[..i])
    {
      var e := Entry(i, KeyOf(messages[i], i), messages[i]);
      assert entries[..i + 1][..i] == entries[..i] && entries[..i + 1][i] == e;
      var k := KeyIndex(groups, e.key);
      groups := if k < |groups| then groups[k := groups[k] + [e]] else groups + [[e]];
    }
    assert entries[..|messages|] == entries;
  }

  /** Groups are kept or dropped whole and in order. */
  method MessageGroupSelect(messages: seq<Message>, count: seq<Message> -> int, target: int)
    returns (kept: seq<Message>, removed: seq<Group>)
    ensures var groups := Grouped(Entries(messages));
            var selected := Positions(Considered(groups, count, target));
            var entries := Flatten(KeptGroups(groups, selected));
            && kept == Messages(entries) && removed == DroppedGroups(groups, selected)
            && |kept| == |entries| && forall i | 0 <= i < |kept| :: kept[i] == entries[i].message
  {
    hide  InOrder, AlreadyIn, KeptGroups, DroppedGroups, Flatten, Grouped, Positions;
    var groups := GroupMessages(messages);
    var order: seq<nat> := SystemGroups(groups, |groups|);
    var i := |groups|;
    while i > 0
      invariant 0 <= i <= |groups| && Within(groups, order)
      invariant Considered(groups, count, target) == ConsiderFrom(groups, i, order, count, target)
    {
      i := i - 1;
      if !AlreadyIn(groups, order, i) {
        var wider: seq<nat> := order + [i];
        if count(Messages(InOrder(groups, wider))) <= target || order == [] {
          order := wider;
        }
      }
    }
    kept := [];
    var entries := Flatten(KeptGroups(groups, Positions(order)));
    for n := 0 to |entries|
      invariant kept == Messages(entries)[..n]
    {
      kept := kept + [entries[n].message];
    }
    removed := DroppedGroups(groups, Positions(order));
  }

  predicate NoRepeats(order: seq<nat>) {
    forall j, k | 0 <= j < k < |order| :: order[j] != order[k]
  }

  lemma {:induction false} SystemGroupsAscend(groups: seq<Group>, n: nat)
    requires n <= |groups|
    ensures NoRepeats(SystemGroups(groups, n)) && forall k | k in SystemGroups(groups, n) :: k < n
    ensures var order := SystemGroups(groups, n); forall i, j | 0 <= i < j < |order| :: order[i] < order[j]
  {
    hide HasSystem;
    if n > 0 {
      SystemGroupsAscend(groups, n - 1);
      var rest := SystemGroups(groups, n - 1);
      assert forall k | 0 <= k < |rest| :: rest[k] in rest;
    }
  }

  lemma AppendNew(groups: seq<Group>, order: seq<nat>, x: nat)
    requires Within(groups, order) && NoRepeats(order) && x < |groups| && !AlreadyIn(groups, order, x)
    ensures Within(groups, order + [x]) && NoRepeats(order + [x])
  {
  }

  /** The position sequence is the one it started from, or one group, or fits as considered. */
  predicate Fits(groups: seq<Group>, order: seq<nat>, start: seq<nat>, count: seq<Message> -> int, target: int) {
    Within(groups, order) && (order == start || |order| == 1 || count(Messages(InOrder(groups, order))) <= target)
  }

  lemma {:induction false} ConsiderFromFits(groups: seq<Group>, i: nat, order: seq<nat>, start: seq<nat>,
                                            count: seq<Message> -> int, target: int)
    requires i <= |groups| && NoRepeats(order) && Fits(groups, order, start, count, target)
    ensures var r := ConsiderFrom(groups, i, order, count, target);
            NoRepeats(r) && Fits(groups, r, start, count, target) && (i > 0 ==> r != [])
  {
    hide InOrder, AlreadyIn, NoRepeats;
    if i > 0 {
      if !AlreadyIn(groups, order, i - 1) && (count(Messages(InOrder(groups, order + [i - 1]))) <= target
                                              || order == []) {
        AppendNew(groups, order, i - 1);
        ConsiderFromFits(groups, i - 1, order + [i - 1], start, count, target);
      } else {
        if order == [] {
          NothingIsIn(groups, i - 1);
        }
        ConsiderFromFits(groups, i - 1, order, start, count, target);
      }
    }
  }

  lemma NothingIsIn(groups: seq<Group>, i: nat)
    requires i < |groups|
    ensures !AlreadyIn(groups, [], i)
  {
  }

  /** How often `m` occurs among the messages of the kept groups. */
  function CopiesKept(groups: seq<Group>, selected: set<nat>, m: Entry): nat {
    multiset(Flatten(KeptGroups(groups, selected)))[m]
  }

  lemma CopiesOfLast(groups: seq<Group>, selected: set<nat>, m: Entry)
    requires groups != []
    ensures var n := |groups| - 1;
            CopiesKept(groups, selected, m)
            == CopiesKept(groups[..n], selected, m) + (if n in selected then multiset(groups[n])[m] else 0)
  {
    var n := |groups| - 1;
    var rest := KeptGroups(groups[..n], selected);
    FlattenOfAppend(rest, groups[n]);
    assert rest + [] == rest;
  }

  lemma {:induction false} KeptGroupsGrow(groups: seq<Group>, selected: set<nat>, x: nat, m: Entry)
    requires x !in selected
    ensures CopiesKept(groups, selected + {x}, m)
            == CopiesKept(groups, selected, m) + (if x < |groups| then multiset(groups[x])[m] else 0)
  {
    hide CopiesKept;
    if groups == [] {
      assert KeptGroups(groups, selected + {x}) == KeptGroups(groups, selected);
      NothingToCopy(selected, m);
      NothingToCopy(selected + {x}, m);
    } else {
      CopiesOfLast(groups, selected, m);
      CopiesOfLast(groups, selected + {x}, m);
      KeptGroupsGrow(groups[..|groups| - 1], selected, x, m);
    }
  }

  lemma NothingToCopy(selected: set<nat>, m: Entry)
    ensures CopiesKept([], selected, m) == 0
  {
  }

  lemma {:induction false} NothingKept(groups: seq<Group>)
    ensures KeptGroups(groups, {}) == []
  {
    if groups != [] {
      NothingKept(groups[..|groups| - 1]);
    }
  }

  lemma {:induction false} InOrderOfAppend(groups: seq<Group>, order: seq<nat>, x: nat)
    requires Within(groups, order) && x < |groups|
    ensures Within(groups, order + [x])
    ensures InOrder(groups, order + [x]) == InOrder(groups, order) + groups[x]
    decreases order
  {
    if order == [] {
      assert [] + [x] == [x] && [x][1..] == [];
      assert InOrder(groups, [x]) == groups[x] + [];
    } else {
      var wider := order + [x];
      assert wider[0] == order[0] && wider[1..] == order[1..] + [x];
      InOrderOfAppend(groups, order[1..], x);
    }
  }

  lemma {:induction false} CopiesConsidered(groups: seq<Group>, order: seq<nat>, m: Entry)
    requires Within(groups, order) && NoRepeats(order)
    ensures CopiesKept(groups, Positions(order), m) == multiset(InOrder(groups, order))[m]
  {
    if order == [] {
      NothingKept(groups);
      assert Positions(order) == {};
    } else {
      var rest, x := order[..|order| - 1], order[|order| - 1];
      assert order == rest + [x];
      assert Positions(order) == Positions(rest) + {x};
      hide CopiesKept, KeptGroups, Flatten, InOrder;
      CopiesConsidered(groups, rest, m);
      KeptGroupsGrow(groups, Positions(rest), x, m);
      InOrderOfAppend(groups, rest, x);
    }
  }

  /** What is kept is what was considered, put back in the original order. */
  lemma KeptIsConsidered(groups: seq<Group>, order: seq<nat>)
    requires Within(groups, order) && NoRepeats(order)
    ensures multiset(Flatten(KeptGroups(groups, Positions(order)))) == multiset(InOrder(groups, order))
  {
    hide KeptGroups, Flatten, InOrder, NoRepeats, Positions;
    var kept, considered := Flatten(KeptGroups(groups, Positions(order))), InOrder(groups, order);
    forall m ensures multiset(kept)[m] == multiset(considered)[m] {
      CopiesConsidered(groups, order, m);
      assert multiset(kept)[m] == CopiesKept(groups, Positions(order), m);
    }
  }

  function Without<T>(xs: seq<T>, k: nat): seq<T>
    requires k < |xs|
  {
    xs[..k] + xs[k + 1..]
  }

  lemma WithoutOne<T>(xs: seq<T>, k: nat)
    requires k < |xs|
    ensures multiset(xs) == multiset{xs[k]} + multiset(Without(xs, k))
  {
    assert xs == xs[..k] + [xs[k]] + xs[k + 1..];
  }

  lemma MessagesWithout(entries: seq<Entry>, k: nat)
    requires k < |entries|
    ensures multiset(Messages(entries)) == multiset{entries[k].message} + multiset(Messages(Without(entries, k)))
  {
    WithoutOne(Messages(entries), k);
    assert Without(Messages(entries), k) == Messages(Without(entries, k));
  }

  lemma SameWithout<T>(a: seq<T>, b: seq<T>, k: nat)
    requires multiset(a) == multiset(b) && a != [] && k < |b| && b[k] == a[0]
    ensures multiset(Without(a, 0)) == multiset(Without(b, k)) && |Without(a, 0)| < |a|
  {
    WithoutOne(a, 0);
    WithoutOne(b, k);
    assert multiset(Without(a, 0)) == multiset(a) - multiset{a[0]};
    assert multiset(Without(b, k)) == multiset(b) - multiset{a[0]};
  }

  lemma Findable<T>(a: seq<T>, b: seq<T>) returns (k: nat)
    requires multiset(a) == multiset(b) && a != []
    ensures k < |b| && b[k] == a[0]
  {
    assert a[0] in multiset(a);
    assert a[0] in b;
    k :| 0 <= k < |b| && b[k] == a[0];
  }

  lemma {:induction false} MessagesPermute(a: seq<Entry>, b: seq<Entry>)
    requires multiset(a) == multiset(b)
    ensures multiset(Messages(a)) == multiset(Messages(b))
    decreases |a|
  {
    hide Messages, Without;
    if a == [] {
      assert |multiset(b)| == 0;
    } else {
      var k := Findable(a, b);
      SameWithout(a, b, k);
      MessagesPermute(Without(a, 0), Without(b, k));
      MessagesWithout(a, 0);
      MessagesWithout(b, k);
    }
  }

  ghost predicate IgnoresOrder(count: seq<Message> -> int) {
    forall a: seq<Message>, b: seq<Message> | multiset(a) == multiset(b) :: count(a) == count(b)
  }

  /**
   Every group with a system message is kept and something is always kept. As it was considered,
   systems first and then latest first, what is kept fits the target, unless it is the system groups
   alone or one single group; and it is put back in the original order, which a counter that ignores
   message order does not notice.
   */
  lemma GroupSelectionFits(messages: seq<Message>, count: seq<Message> -> int, target: int)
    ensures var groups := Grouped(Entries(messages));
            var order := Considered(groups, count, target);
            var considered, kept := InOrder(groups, order), Flatten(KeptGroups(groups, Positions(order)));
            && (forall k: nat, e | k < |groups| && e in groups[k] && e.message.system :: k in Positions(order))
            && (messages != [] ==> order != [])
            && multiset(kept) == multiset(considered)
            && (count(Messages(considered)) <= target || |order| == 1 || order == SystemGroups(groups, |groups|))
            && (IgnoresOrder(count) ==> count(Messages(kept)) == count(Messages(considered)))
  {
    hide Grouped, SystemGroups, KeptGroups, Flatten, InOrder, Messages, AlreadyIn;
    var groups := Grouped(Entries(messages));
    GroupingIsComplete(Entries(messages));
    SystemGroupsAscend(groups, |groups|);
    var start := SystemGroups(groups, |groups|);
    ConsiderFromFits(groups, |groups|, start, start, count, target);
    var order := Considered(groups, count, target);
    assert forall k | k in start :: k in order;
    KeptIsConsidered(groups, order);
    MessagesPermute(Flatten(KeptGroups(groups, Positions(order))), InOrder(groups, order));
  }

  /** From `k` down, what was considered before stays in front, and only positions below `k` join. */
  lemma {:induction false} ConsiderExtends(groups: seq<Group>, k: nat, order: seq<nat>, count: seq<Message> -> int,
                                           target: int)
    requires k <= |groups| && Within(groups, order)
    ensures var r := ConsiderFrom(groups, k, order, count, target);
            order <= r && forall x | x in r[|order|..] :: x < k
    decreases k
  {
    hide AlreadyIn, InOrder, Messages;
    if k > 0 {
      var wider: seq<nat> := order + [k - 1];
      ConsiderExtends(groups, k - 1, order, count, target);
      ConsiderExtends(groups, k - 1, wider, count, target);
      var r := ConsiderFrom(groups, k - 1, wider, count, target);
      assert r[|order|..] == [k - 1] + r[|wider|..];
    }
  }

  /** Whether position `k - 1` joins, given what was taken before it. */
  predicate Joins(groups: seq<Group>, k: nat, order: seq<nat>, count: seq<Message> -> int, target: int)
    requires 0 < k <= |groups| && Within(groups, order)
  {
    !AlreadyIn(groups, order, k - 1)
    && (count(Messages(InOrder(groups, order + [k - 1]))) <= target || order == [])
  }

  lemma ConsiderStep(groups: seq<Group>, k: nat, order: seq<nat>, count: seq<Message> -> int, target: int)
    returns (next: seq<nat>)
    requires 0 < k <= |groups| && Within(groups, order)
    ensures next == (if Joins(groups, k, order, count, target) then order + [k - 1] else order)
    ensures Within(groups, next)
    ensures ConsiderFrom(groups, k, order, count, target) == ConsiderFrom(groups, k - 1, next, count, target)
    ensures var r := ConsiderFrom(groups, k, order, count, target);
            next <= r && forall x | x in r[|next|..] :: x < k - 1
  {
    hide AlreadyIn, InOrder, Messages;
    next := if Joins(groups, k, order, count, target) then order + [k - 1] else order;
    ConsiderExtends(groups, k - 1, next, count, target);
  }

  lemma JoinsNow(groups: seq<Group>, k: nat, order: seq<nat>, count: seq<Message> -> int, target: int)
    requires 0 < k <= |groups| && Within(groups, order) && k - 1 !in order
    ensures var r := ConsiderFrom(groups, k, order, count, target);
            && order <= r && (forall x | x in r[|order|..] :: x <= k - 1)
            && (k - 1 in r <==> Joins(groups, k, order, count, target))
  {
    hide Joins, ConsiderFrom;
    var next := ConsiderStep(groups, k, order, count, target);
    var r := ConsiderFrom(groups, k, order, count, target);
    var tail := r[|next|..];
    assert r == next + tail;
    if Joins(groups, k, order, count, target) {
      assert next[|order|] == k - 1;
      assert r[|order|..] == [k - 1] + tail;
    } else {
      assert k - 1 !in tail;
    }
  }

  lemma {:induction false} JoinsFrom(groups: seq<Group>, k: nat, order: seq<nat>, count: seq<Message> -> int,
                                     target: int,
                                     i: nat)
    returns (ahead: seq<nat>)
    requires i < k <= |groups| && Within(groups, order) && i !in order
    ensures order <= ahead && Within(groups, ahead) && ahead <= ConsiderFrom(groups, k, order, count, target)
    ensures forall x | x in ahead[|order|..] :: i < x < k
    ensures forall x | x in ConsiderFrom(groups, k, order, count, target)[|ahead|..] :: x <= i
    ensures i in ConsiderFrom(groups, k, order, count, target) <==> Joins(groups, i + 1, ahead, count, target)
    decreases k
  {
    hide Joins, ConsiderFrom;
    if k - 1 == i {
      ahead := order;
      JoinsNow(groups, k, order, count, target);
    } else {
      var next := ConsiderStep(groups, k, order, count, target);
      ahead := JoinsFrom(groups, k - 1, next, count, target, i);
      var tail := ahead[|next|..];
      assert ahead == next + tail;
      assert ahead[|order|..] == next[|order|..] + tail;
    }
  }

  /**
   A group without a system message is kept exactly when no group taken before it, systems first and
   then later ones, holds the same messages, and it fits beside those, or there are none.
   */
  lemma GroupJoinsIff(groups: seq<Group>, count: seq<Message> -> int, target: int, i: nat) returns (ahead: seq<nat>)
    requires i < |groups| && forall e | e in groups[i] :: !e.message.system
    ensures Within(groups, ahead) && ahead <= Considered(groups, count, target)
    ensures forall x: nat | x < |groups| && HasSystem(groups[x]) :: x in ahead
    ensures forall x | x in ahead :: HasSystem(groups[x]) || x > i
    ensures forall x | x in Considered(groups, count, target)[|ahead|..] :: x <= i
    ensures i in Considered(groups, count, target)
            <==> (forall j | 0 <= j < |ahead| :: Messages(groups[ahead[j]]) != Messages(groups[i]))
                 && (ahead == [] || count(Messages(InOrder(groups, ahead + [i]))) <= target)
  {
    var systems := SystemGroups(groups, |groups|);
    SystemsAreSystems(groups, |groups|);
    hide InOrder, Messages, ConsiderFrom;
    ahead := JoinsFrom(groups, |groups|, systems, count, target, i);
    forall x | x in ahead ensures HasSystem(groups[x]) || x > i {
      if x !in systems {
        assert ahead == systems + ahead[|systems|..];
      }
    }
  }

  lemma {:induction false} SystemsAreSystems(groups: seq<Group>, n: nat)
    requires n <= |groups|
    ensures forall x | x in SystemGroups(groups, n) :: HasSystem(groups[x])
  {
    if n > 0 {
      SystemsAreSystems(groups, n - 1);
    }
  }

  // ----- Counters over serialised lists -----

  const OPEN := Letter(0x5B, Symbol)
  const COMMA := Letter(0x2C, Symbol)
  const CLOSE := Letter(0x5D, Symbol)

  function Written(messages: seq<Message>, render: Message -> Text): seq<Text> {
    seq(|messages|, i requires 0 <= i < |messages| => render(messages[i]))
  }

  /** A list of messages as JSON writes it, whatever it writes for a message. */
  function Serialized(messages: seq<Message>, render: Message -> Text): Text {
    [OPEN] + Join(Written(messages, render), [COMMA]) + [CLOSE]
  }

  function PatternCount(render: Message -> Text): seq<Message> -> int {
    (messages: seq<Message>) => Words(Serialized(messages, render))
  }

  function CharacterCount(render: Message -> Text): seq<Message> -> int {
    (messages: seq<Message>) => |Serialized(messages, render)|
  }

  /** The messages' own weights, and one for each comma. */
  function Weight(messages: seq<Message>, weigh: Message -> int): int {
    if messages == [] then -1 else weigh(messages[0]) + 1 + Weight(messages[1..], weigh)
  }

  lemma {:induction false} WeightWithout(messages: seq<Message>, k: nat, weigh: Message -> int)
    requires k < |messages|
    ensures Weight(messages, weigh) == weigh(messages[k]) + 1 + Weight(Without(messages, k), weigh)
  {
    if k == 0 {
      assert Without(messages, 0) == messages[1..];
    } else {
      WeightWithout(messages[1..], k - 1, weigh);
      var less := Without(messages, k);
      assert less[0] == messages[0] && less[1..] == Without(messages[1..], k - 1);
    }
  }

  lemma {:induction false} WeightOfPermutation(a: seq<Message>, b: seq<Message>, weigh: Message -> int)
    requires multiset(a) == multiset(b)
    ensures Weight(a, weigh) == Weight(b, weigh)
    decreases |a|
  {
    if a == [] {
      assert |multiset(b)| == 0;
    } else {
      var k := Findable(a, b);
      SameWithout(a, b, k);
      WeightWithout(a, 0, weigh);
      WeightWithout(b, k, weigh);
      WeightOfPermutation(Without(a, 0), Without(b, k), weigh);
    }
  }

  lemma WordsAcrossSymbol(a: Text, c: Letter, b: Text)
    requires c.kind == Symbol
    ensures Words(a + [c] + b) == Words(a) + 1 + Words(b)
  {
    var tail := [c] + b;
    assert tail[0] == c && tail[1..] == b;
    ScanOfConcat(a, tail, false);
    assert a + [c] + b == a + tail;
  }

  lemma {:induction false} WrittenWeighs(messages: seq<Message>, render: Message -> Text)
    requires messages != []
    ensures var t := Join(Written(messages, render), [COMMA]);
            && Words(t) == Weight(messages, (m: Message) => Words(render(m)))
            && |t| == Weight(messages, (m: Message) => |render(m)|)
  {
    var parts := Written(messages, render);
    assert parts[1..] == Written(messages[1..], render);
    if |messages| > 1 {
      hide Words;
      WrittenWeighs(messages[1..], render);
      WordsAcrossSymbol(parts[0], COMMA, Join(parts[1..], [COMMA]));
    }
  }

  lemma SerializedWeighs(messages: seq<Message>, render: Message -> Text)
    ensures messages != [] ==>
              && PatternCount(render)(messages) == Weight(messages, (m: Message) => Words(render(m))) + 2
              && CharacterCount(render)(messages) == Weight(messages, (m: Message) => |render(m)|) + 2
  {
    if messages != [] {
      WrittenWeighs(messages, render);
      hide Words, Join;
      var t := Join(Written(messages, render), [COMMA]);
      assert [OPEN] + t + [CLOSE] == [] + [OPEN] + (t + [CLOSE] + []);
      NoWords();
      WordsAcrossSymbol([], OPEN, t + [CLOSE] + []);
      WordsAcrossSymbol(t, CLOSE, []);
    }
  }

  lemma NoWords()
    ensures Words([]) == 0
  {
  }

  /** The pattern counter and the character counter do not notice the order of a list. */
  lemma OwnCountersIgnoreOrder(render: Message -> Text)
    ensures IgnoresOrder(PatternCount(render)) && IgnoresOrder(CharacterCount(render))
  {
    forall a: seq<Message>, b: seq<Message> | multiset(a) == multiset(b)
      ensures PatternCount(render)(a) == PatternCount(render)(b)
      ensures CharacterCount(render)(a) == CharacterCount(render)(b)
    {
      hide PatternCount, CharacterCount;
      assert |multiset(a)| == |multiset(b)|;
      if a != [] {
        SerializedWeighs(a, render);
        SerializedWeighs(b, render);
        WeightOfPermutation(a, b, (m: Message) => Words(render(m)));
        WeightOfPermutation(a, b, (m: Message) => |render(m)|);
      }
    }
  }

  // ----- A counter that minds the order -----

  const FIRST := Message([], [], [OPEN], false, 1)
  const SECOND := Message([], [], [CLOSE], false, 2)

  /** Charges five for the two messages in this order, and one for each message otherwise. */
  function Fussy(): seq<Message> -> int {
    (messages: seq<Message>) => if messages == [FIRST, SECOND] then 5 else |messages|
  }

  lemma TwoGroups()
    ensures Grouped(Entries([FIRST, SECOND])) == PAIR
  {
    var entries := Entries([FIRST, SECOND]);
    var first, second := Entry(0, [OPEN], FIRST), Entry(1, [CLOSE], SECOND);
    assert entries == [first, second];
    assert entries[..1] == [first] && entries[..1][..0] == [];
    assert Grouped(entries[..1]) == [[first]];
    assert KeyIndex([[first]], [CLOSE]) == 1;
  }

  const PAIR: seq<Group> := [[Entry(0, [OPEN], FIRST)], [Entry(1, [CLOSE], SECOND)]]

  lemma BackInOrder(order: seq<nat>)
    requires order == [1, 0]
    ensures Within(PAIR, order) && InOrder(PAIR, order) == PAIR[1] + PAIR[0]
    ensures Messages(InOrder(PAIR, order)) == [SECOND, FIRST]
  {
    assert order[1..] == [0] && order[1..][1..] == [];
    assert InOrder(PAIR, []) == [];
    assert InOrder(PAIR, order[1..]) == PAIR[0] + InOrder(PAIR, []);
    assert InOrder(PAIR, order) == PAIR[1] + InOrder(PAIR, order[1..]);
  }

  lemma NoSystems()
    ensures SystemGroups(PAIR, 2) == []
  {
    assert !HasSystem(PAIR[0]) && !HasSystem(PAIR[1]);
    assert SystemGroups(PAIR, 0) == [] && SystemGroups(PAIR, 1) == [];
  }

  lemma FirstIsNotIn(order: seq<nat>)
    requires order == [1]
    ensures Within(PAIR, order) && !AlreadyIn(PAIR, order, 0)
  {
    assert Messages(PAIR[0])[0] == FIRST && Messages(PAIR[1])[0] == SECOND;
  }

  lemma BothConsidered()
    ensures Considered(PAIR, Fussy(), 2) == [1, 0]
  {
    hide InOrder, AlreadyIn, SystemGroups, Messages;
    NoSystems();
    NothingIsIn(PAIR, 1);
    var one: seq<nat>, both: seq<nat> := [1], [1, 0];
    assert [] + [1] == one && one + [0] == both;
    FirstIsNotIn(one);
    BackInOrder(both);
    assert ConsiderFrom(PAIR, 0, both, Fussy(), 2) == both;
    assert ConsiderFrom(PAIR, 1, one, Fussy(), 2) == both;
  }

  lemma BothKept(selected: set<nat>)
    requires selected == {0, 1}
    ensures Messages(Flatten(KeptGroups(PAIR, selected))) == [FIRST, SECOND]
  {
    assert PAIR[..1] == [PAIR[0]] && PAIR[..1][..0] == [];
    assert KeptGroups(PAIR[..1], selected) == [] + [PAIR[0]];
    assert KeptGroups(PAIR, selected) == PAIR;
    assert PAIR[1..] == [PAIR[1]] && PAIR[1..][1..] == [];
    assert Flatten([]) == [] && Flatten(PAIR[1..]) == PAIR[1] + [];
  }

  /** Two messages considered latest first for two tokens, and put back in order for five. */
  lemma OrderCanMatter()
    ensures var groups := Grouped(Entries([FIRST, SECOND]));
            var order := Considered(groups, Fussy(), 2);
            && |order| == 2 && SystemGroups(groups, |groups|) == []
            && Fussy()(Messages(InOrder(groups, order))) == 2
            && Fussy()(Messages(Flatten(KeptGroups(groups, Positions(order))))) == 5
  {
    hide Grouped, Entries, Considered, SystemGroups, InOrder, Messages, Flatten, KeptGroups;
    TwoGroups();
    BothConsidered();
    NoSystems();
    var order := Considered(PAIR, Fussy(), 2);
    BackInOrder(order);
    BothKept(Positions(order));
  }

  /** Kept groups, and dropped ones, stay in the order of the groups. */
  lemma {:induction false} GroupSelectionKeepsOrder(groups: seq<Group>, selected: set<nat>)
    ensures IsSubsequence(KeptGroups(groups, selected), groups) && IsSubsequence(DroppedGroups(groups, selected),
                                                                                 groups)
  {
    if groups != [] {
      var rest, last := groups[..|groups| - 1], groups[|groups| - 1];
      GroupSelectionKeepsOrder(rest, selected);
      assert groups == rest + [last];
      assert KeptGroups(rest, selected) + [] == KeptGroups(rest, selected);
      assert DroppedGroups(rest, selected) + [] == DroppedGroups(rest, selected);
      hide IsSubsequence;
      SubsequenceOfSnoc(KeptGroups(rest, selected), rest, last);
      SubsequenceOfSnoc(DroppedGroups(rest, selected), rest, last);
    }
  }

  /** A group's messages are in list order, groups are in the order of their first messages. */
  ghost predicate InListOrder(groups: seq<Group>, n: nat) {
    && (forall k | 0 <= k < |groups| :: groups[k] != [])
    && (forall k, i | 0 <= k < |groups| && 0 <= i < |groups[k]| :: groups[k][i].index < n)
    && (forall k, i, j | 0 <= k < |groups| && 0 <= i < j < |groups[k]| :: groups[k][i].index < groups[k][j].index)
    && forall a, b | 0 <= a < b < |groups| :: groups[a][0].index < groups[b][0].index
  }

  lemma PlacedInListOrder(groups: seq<Group>, e: Entry)
    requires InListOrder(groups, e.index)
    ensures InListOrder(Placed(groups, e), e.index + 1)
  {
    var k, placed := KeyIndex(groups, e.key), Placed(groups, e);
    if k < |groups| {
      var g := groups[k] + [e];
      assert g[0] == groups[k][0];
      assert forall i, j | 0 <= i < j < |g| :: g[i].index < g[j].index;
      assert forall h | 0 <= h < |groups| && h != k :: placed[h] == groups[h];
    } else {
      assert forall h | 0 <= h < |groups| :: placed[h] == groups[h];
    }
  }

  lemma {:induction false} GroupsInListOrder(messages: seq<Message>, n: nat)
    requires n <= |messages|
    ensures InListOrder(Grouped(Entries(messages)[..n]), n)
  {
    var entries := Entries(messages);
    if n == 0 {
      assert entries[..0] == [];
    } else {
      GroupsInListOrder(messages, n - 1);
      var before, e := entries[..n - 1], entries[n - 1];
      assert entries[..n] == before + [e] && e.index == n - 1;
      hide InListOrder, Placed, Entries;
      PlacedInListOrder(Grouped(before), e);
      GroupedOfSnoc(before, e);
    }
  }

  lemma GroupedOfSnoc(before: seq<Entry>, e: Entry)
    ensures Grouped(before + [e]) == Placed(Grouped(before), e)
  {
    hide Placed;
    assert (before + [e])[..|before|] == before;
  }

  /** Kept and dropped groups together are all the groups. */
  lemma {:induction false} GroupSelectionPartitions(groups: seq<Group>, selected: set<nat>)
    ensures multiset(KeptGroups(groups, selected)) + multiset(DroppedGroups(groups, selected)) == multiset(groups)
  {
    if groups != [] {
      GroupSelectionPartitions(groups[..|groups| - 1], selected);
      assert groups == groups[..|groups| - 1] + [groups[|groups| - 1]];
    }
  }
}
