/**
 Multi-master replication, the last writer by timestamp winning: any number of replicas in a full
 mesh, writes at any of them and deliveries of the resulting messages in any order.
 */
module MultiMaster {

  datatype DataEntry = DataEntry(value: string, timestamp: int)
  datatype Message = Message(to: nat, key: string, entry: DataEntry)
  datatype Write = Write(key: string, entry: DataEntry)

  type Store = map<string, DataEntry>

  /** The stores, the messages on their way, and every write so far. */
  datatype State = State(stores: seq<Store>, flight: multiset<Message>, log: seq<Write>)

  /** What a replica makes of an entry sent to it. */
  function Receive(store: Store, key: string, entry: DataEntry): Store {
    if key in store && store[key].timestamp >= entry.timestamp then store else store[key := entry]
  }

  datatype Event =
    | WriteAt(node: nat, key: string, entry: DataEntry)
    | Deliver(message: Message)

  /** One message for every replica below `n` except the writer. */
  function Broadcast(n: nat, node: nat, key: string, entry: DataEntry): multiset<Message> {
    if n == 0 then multiset{}
    else Broadcast(n - 1, node, key, entry) + if n - 1 == node then multiset{} else multiset{Message(n - 1, key, entry)}
  }

  predicate Enabled(s: State, e: Event) {
    match e
    case WriteAt(node, _, _) => node < |s.stores|
    case Deliver(message) => message in s.flight && message.to < |s.stores|
  }

  function WriteStep(s: State, node: nat, key: string, entry: DataEntry): State
    requires node < |s.stores|
  {
    State(s.stores[node := s.stores[node][key := entry]],
          s.flight + Broadcast(|s.stores|, node, key, entry),
          s.log + [Write(key, entry)])
  }

  function DeliverStep(s: State, m: Message): State
    requires m in s.flight && m.to < |s.stores|
  {
    s.(stores := s.stores[m.to := Receive(s.stores[m.to], m.key, m.entry)], flight := s.flight - multiset{m})
  }

  function Apply(s: State, e: Event): State
    requires Enabled(s, e)
  {
    match e
    case WriteAt(node, key, entry) => WriteStep(s, node, key, entry)
    case Deliver(message) => DeliverStep(s, message)
  }

  function Initial(n: nat): State {
    State(seq(n, i => map[]), multiset{}, [])
  }

  // ----- the invariant -----

  /** The replica has this write or a newer one for its key. */
  predicate Covers(store: Store, w: Write) {
    w.key in store && (store[w.key] == w.entry || store[w.key].timestamp > w.entry.timestamp)
  }

  predicate DistinctTimestamps(log: seq<Write>) {
    forall i, j :: 0 <= i < j < |log| && log[i].key == log[j].key ==>
      log[i].entry.timestamp != log[j].entry.timestamp
  }

  /** Everything stored was written. */
  predicate Stored(s: State) {
    forall i, k :: 0 <= i < |s.stores| && k in s.stores[i] ==> Write(k, s.stores[i][k]) in s.log
  }

  /** Everything on its way was written, is on its way once, and has not arrived. */
  ghost predicate Pending(s: State) {
    forall m :: m in s.flight ==>
      && m.to < |s.stores| && Write(m.key, m.entry) in s.log && s.flight[m] == 1
      && (m.key in s.stores[m.to] ==> s.stores[m.to][m.key] != m.entry)
  }

  /** Every write is covered at, or on its way to, every replica. */
  predicate Propagated(s: State) {
    forall w, i :: w in s.log && 0 <= i < |s.stores| ==>
      Covers(s.stores[i], w) || Message(i, w.key, w.entry) in s.flight
  }

  ghost predicate Inv(s: State) {
    DistinctTimestamps(s.log) && Stored(s) && Pending(s) && Propagated(s)
  }

  lemma {:induction false} BroadcastCount(n: nat, node: nat, key: string, entry: DataEntry, m: Message)
    ensures Broadcast(n, node, key, entry)[m] ==
            if m.to < n && m.to != node && m.key == key && m.entry == entry then 1 else 0
  {
    if n == 0 {
    } else {
      BroadcastCount(n - 1, node, key, entry, m);
    }
  }

  /** The timestamp is new for the key, and newer than what the writer holds. */
  predicate Fresh(s: State, node: nat, key: string, timestamp: int)
    requires node < |s.stores|
  {
    && (key in s.stores[node] ==> s.stores[node][key].timestamp < timestamp)
    && forall w :: w in s.log && w.key == key ==> w.entry.timestamp != timestamp
  }

  lemma {:induction false} LogElement(log: seq<Write>, w: Write, x: Write)
    ensures x in log + [w] <==> x in log || x == w
  {
  }

  lemma {:induction false} DistinctExtend(log: seq<Write>, w: Write)
    requires DistinctTimestamps(log)
    ensures DistinctTimestamps(log + [w]) <==>
            forall x :: x in log && x.key == w.key ==> x.entry.timestamp != w.entry.timestamp
  {
    var log' := log + [w];
    if DistinctTimestamps(log') {
      forall x | x in log && x.key == w.key ensures x.entry.timestamp != w.entry.timestamp {
        var i :| 0 <= i < |log| && log[i] == x;
        assert log'[i] == x && log'[|log|] == w;
      }
    }
  }

  lemma {:induction false} WriteStored(s: State, node: nat, key: string, entry: DataEntry)
    requires node < |s.stores| && Stored(s)
    ensures Stored(WriteStep(s, node, key, entry))
  {
  }

  lemma {:induction false} WritePending(s: State, node: nat, key: string, entry: DataEntry)
    requires node < |s.stores| && Stored(s) && Pending(s) && Fresh(s, node, key, entry.timestamp)
    ensures Pending(WriteStep(s, node, key, entry))
  {
    var s' := WriteStep(s, node, key, entry);
    forall m | m in s'.flight
      ensures m.to < |s'.stores| && Write(m.key, m.entry) in s'.log && s'.flight[m] == 1
      ensures m.key in s'.stores[m.to] ==> s'.stores[m.to][m.key] != m.entry
    {
      BroadcastCount(|s.stores|, node, key, entry, m);
      if m in s.flight {
        assert Write(m.key, m.entry) in s.log;
      }
    }
  }

  lemma {:induction false} WritePropagated(s: State, node: nat, key: string, entry: DataEntry)
    requires node < |s.stores| && Propagated(s) && Fresh(s, node, key, entry.timestamp)
    ensures Propagated(WriteStep(s, node, key, entry))
  {
    var s' := WriteStep(s, node, key, entry);
    forall w, i | w in s'.log && 0 <= i < |s'.stores|
      ensures Covers(s'.stores[i], w) || Message(i, w.key, w.entry) in s'.flight
    {
      LogElement(s.log, Write(key, entry), w);
      if w in s.log {
        assert Covers(s.stores[i], w) || Message(i, w.key, w.entry) in s.flight;
      } else {
        BroadcastCount(|s.stores|, node, key, entry, Message(i, key, entry));
      }
    }
  }

  /** The write keeps the invariant exactly when its timestamp is fresh. */
  lemma {:induction false} WriteKeepsInvIff(s: State, node: nat, key: string, entry: DataEntry)
    requires node < |s.stores| && Inv(s)
    ensures Inv(WriteStep(s, node, key, entry)) <==> Fresh(s, node, key, entry.timestamp)
  {
    DistinctExtend(s.log, Write(key, entry));
    if Fresh(s, node, key, entry.timestamp) {
      WriteStored(s, node, key, entry);
      WritePending(s, node, key, entry);
      WritePropagated(s, node, key, entry);
    } else if Inv(WriteStep(s, node, key, entry)) {
      StaleWriteLost(s, node, key, entry);
    }
  }

  /** A write older than the writer's own entry hides it from the writer, and no message brings it back. */
  lemma {:induction false} StaleWriteLost(s: State, node: nat, key: string, entry: DataEntry)
    requires node < |s.stores| && Inv(s)
    requires key in s.stores[node] && s.stores[node][key].timestamp > entry.timestamp
    ensures !Propagated(WriteStep(s, node, key, entry))
  {
    var s', own := WriteStep(s, node, key, entry), s.stores[node][key];
    var w := Write(key, own);
    LogElement(s.log, Write(key, entry), w);
    assert w in s'.log && !Covers(s'.stores[node], w);
    BroadcastCount(|s.stores|, node, key, entry, Message(node, key, own));
    assert Message(node, key, own) !in s'.flight;
  }

  lemma {:induction false} DeliverStored(s: State, m: Message)
    requires Inv(s) && m in s.flight
    ensures Stored(DeliverStep(s, m))
  {
  }

  lemma {:induction false} DeliverPending(s: State, m: Message)
    requires Inv(s) && m in s.flight
    ensures Pending(DeliverStep(s, m))
  {
    var s' := DeliverStep(s, m);
    forall x | x in s'.flight
      ensures x.to < |s'.stores| && Write(x.key, x.entry) in s'.log && s'.flight[x] == 1
      ensures x.key in s'.stores[x.to] ==> s'.stores[x.to][x.key] != x.entry
    {
      assert x in s.flight && x != m;
    }
  }

  lemma {:induction false} SameTimestamp(log: seq<Write>, x: Write, y: Write)
    requires DistinctTimestamps(log) && x in log && y in log
    requires x.key == y.key && x.entry.timestamp == y.entry.timestamp
    ensures x == y
  {
  }

  lemma {:induction false} DeliverPropagated(s: State, m: Message)
    requires Inv(s) && m in s.flight
    ensures Propagated(DeliverStep(s, m))
  {
    var s' := DeliverStep(s, m);
    forall w, i | w in s'.log && 0 <= i < |s'.stores|
      ensures Covers(s'.stores[i], w) || Message(i, w.key, w.entry) in s'.flight
    {
      assert Covers(s.stores[i], w) || Message(i, w.key, w.entry) in s.flight;
      if Message(i, w.key, w.entry) == m && w.key in s.stores[i] && s.stores[i][w.key].timestamp == w.entry.timestamp {
        SameTimestamp(s.log, w, Write(w.key, s.stores[i][w.key]));
      }
    }
  }

  lemma {:induction false} DeliverKeepsInv(s: State, m: Message)
    requires Inv(s) && m in s.flight
    ensures Inv(DeliverStep(s, m))
  {
    DeliverStored(s, m);
    DeliverPending(s, m);
    DeliverPropagated(s, m);
  }

  // ----- runs -----

  /** An event that is not enabled does nothing. */
  function Next(s: State, e: Event): State {
    if Enabled(s, e) then Apply(s, e) else s
  }

  function Continue(s: State, events: seq<Event>): State {
    if events == [] then s else Next(Continue(s, events[..|events| - 1]), events[|events| - 1])
  }

  /** Every write of the run has a fresh timestamp when it is made. */
  predicate FreshWrites(s: State, events: seq<Event>) {
    events == [] ||
    var s', e := Continue(s, events[..|events| - 1]), events[|events| - 1];
    && FreshWrites(s, events[..|events| - 1])
    && (e.WriteAt? && Enabled(s', e) ==> Fresh(s', e.node, e.key, e.entry.timestamp))
  }

  lemma {:induction false} RunKeepsInv(s: State, events: seq<Event>)
    requires Inv(s) && FreshWrites(s, events)
    ensures Inv(Continue(s, events)) && |Continue(s, events).stores| == |s.stores|
  {
    if events == [] {
    } else {
      var init, e := events[..|events| - 1], events[|events| - 1];
      RunKeepsInv(s, init);
      var s' := Continue(s, init);
      if Enabled(s', e) {
        match e
        case WriteAt(node, key, entry) => WriteKeepsInvIff(s', node, key, entry);
        case Deliver(message) => DeliverKeepsInv(s', message);
      }
    }
  }

  lemma {:induction false} NextKeepsInvIff(s: State, e: Event)
    requires Inv(s)
    ensures Inv(Next(s, e)) <==> (e.WriteAt? && Enabled(s, e) ==> Fresh(s, e.node, e.key, e.entry.timestamp))
  {
    if Enabled(s, e) {
      match e
      case WriteAt(node, key, entry) => WriteKeepsInvIff(s, node, key, entry);
      case Deliver(message) => DeliverKeepsInv(s, message);
    }
  }

  lemma {:induction false} PrefixFresh(s: State, events: seq<Event>, k: nat)
    requires FreshWrites(s, events) && k <= |events|
    ensures FreshWrites(s, events[..k])
  {
    if k == |events| {
      assert events[..k] == events;
    } else {
      PrefixFresh(s, events[..|events| - 1], k);
      assert events[..|events| - 1][..k] == events[..k];
    }
  }

  lemma {:induction false} InvThroughoutFresh(s: State, events: seq<Event>)
    requires forall k :: 0 <= k <= |events| ==> Inv(Continue(s, events[..k]))
    ensures FreshWrites(s, events)
  {
    if events == [] {
    } else {
      var init := events[..|events| - 1];
      forall k | 0 <= k <= |init| ensures Inv(Continue(s, init[..k])) {
        assert init[..k] == events[..k];
      }
      InvThroughoutFresh(s, init);
      assert events[..|events|] == events && events[..|init|] == init;
      assert Inv(Continue(s, events[..|init|])) && Inv(Continue(s, events[..|events|]));
      NextKeepsInvIff(Continue(s, init), events[|events| - 1]);
    }
  }

  /** The replication invariant holds throughout a run exactly when every write is fresh when it is made. */
  lemma {:induction false} InvThroughoutIff(s: State, events: seq<Event>)
    requires Inv(s)
    ensures FreshWrites(s, events) <==> forall k :: 0 <= k <= |events| ==> Inv(Continue(s, events[..k]))
  {
    if FreshWrites(s, events) {
      forall k | 0 <= k <= |events| ensures Inv(Continue(s, events[..k])) {
        PrefixFresh(s, events, k);
        RunKeepsInv(s, events[..k]);
      }
    } else if forall k :: 0 <= k <= |events| ==> Inv(Continue(s, events[..k])) {
      InvThroughoutFresh(s, events);
    }
  }

  datatype Option = None | Some(entry: DataEntry)

  function Lookup(store: Store, key: string): Option {
    if key in store then Some(store[key]) else None
  }

  /** The write of a key with the greatest timestamp. */
  function Latest(log: seq<Write>, key: string): Option {
    if log == [] then None
    else
      var before, w := Latest(log[..|log| - 1], key), log[|log| - 1];
      if w.key == key && (before.None? || before.entry.timestamp < w.entry.timestamp) then Some(w.entry) else before
  }

  lemma {:induction false} LatestIsGreatest(log: seq<Write>, key: string)
    ensures Latest(log, key).None? <==> forall w :: w in log ==> w.key != key
    ensures Latest(log, key).Some? ==>
              && Write(key, Latest(log, key).entry) in log
              && forall w :: w in log && w.key == key ==> w.entry.timestamp <= Latest(log, key).entry.timestamp
  {
    if log == [] {
    } else {
      var init, last := log[..|log| - 1], log[|log| - 1];
      LatestIsGreatest(init, key);
      assert log == init + [last];
      forall w ensures w in log <==> w in init || w == last {
        LogElement(init, last, w);
      }
    }
  }

  lemma {:induction false} QuiescentReplica(s: State, i: nat, key: string)
    requires Inv(s) && s.flight == multiset{} && i < |s.stores|
    ensures Lookup(s.stores[i], key) == Latest(s.log, key)
  {
    LatestIsGreatest(s.log, key);
    assert key in s.stores[i] ==> Write(key, s.stores[i][key]) in s.log;
    if Latest(s.log, key).Some? {
      assert Covers(s.stores[i], Write(key, Latest(s.log, key).entry));
    }
  }

  lemma {:induction false} InitialInv(n: nat)
    ensures Inv(Initial(n))
  {
  }

  /** Whenever nothing is on its way, every replica holds the latest write of every key. */
  lemma {:induction false} Convergence(n: nat, events: seq<Event>, i: nat, key: string)
    requires FreshWrites(Initial(n), events) && i < n
    requires Continue(Initial(n), events).flight == multiset{}
    ensures |Continue(Initial(n), events).stores| == n
    ensures Lookup(Continue(Initial(n), events).stores[i], key) == Latest(Continue(Initial(n), events).log, key)
  {
    InitialInv(n);
    RunKeepsInv(Initial(n), events);
    QuiescentReplica(Continue(Initial(n), events), i, key);
  }

  predicate OnlyDeliveries(events: seq<Event>) {
    forall i :: 0 <= i < |events| ==> events[i].Deliver?
  }

  lemma {:induction false} DeliveriesKeepLog(s: State, events: seq<Event>)
    requires OnlyDeliveries(events)
    ensures Continue(s, events).log == s.log && FreshWrites(s, events)
  {
    if events == [] {
    } else {
      DeliveriesKeepLog(s, events[..|events| - 1]);
    }
  }

  /** From any reachable state, all orders of delivering what is on its way end in the same stores. */
  lemma {:induction false} DeliveryOrderIrrelevant(s: State, a: seq<Event>, b: seq<Event>)
    requires Inv(s) && OnlyDeliveries(a) && OnlyDeliveries(b)
    requires Continue(s, a).flight == multiset{} && Continue(s, b).flight == multiset{}
    ensures Continue(s, a).stores == Continue(s, b).stores
  {
    var x, y := Continue(s, a), Continue(s, b);
    DeliveriesKeepLog(s, a);
    DeliveriesKeepLog(s, b);
    RunKeepsInv(s, a);
    RunKeepsInv(s, b);
    forall i | 0 <= i < |s.stores| ensures x.stores[i] == y.stores[i] {
      forall key ensures Lookup(x.stores[i], key) == Lookup(y.stores[i], key) {
        QuiescentReplica(x, i, key);
        QuiescentReplica(y, i, key);
      }
      SameLookups(x.stores[i], y.stores[i]);
    }
  }

  lemma {:induction false} SameLookups(a: Store, b: Store)
    requires forall key :: Lookup(a, key) == Lookup(b, key)
    ensures a == b
  {
    forall key ensures key in a <==> key in b {
      assert Lookup(a, key) == Lookup(b, key);
    }
    forall key | key in a ensures a[key] == b[key] {
      assert Lookup(a, key) == Lookup(b, key);
    }
  }

  lemma {:induction false} ContinueOne(s: State, events: seq<Event>, e: Event)
    ensures Continue(s, events + [e]) == Next(Continue(s, events), e)
  {
    assert (events + [e])[..|events|] == events;
  }

  lemma {:induction false} OneMoreDelivery(events: seq<Event>, e: Event)
    requires OnlyDeliveries(events) && e.Deliver?
    ensures OnlyDeliveries(events + [e])
  {
  }

  lemma {:induction false} SomeDelivery(s: State) returns (e: Event)
    requires Inv(s) && s.flight != multiset{}
    ensures e.Deliver? && Inv(Next(s, e)) && |Next(s, e).flight| < |s.flight|
  {
    var m :| m in s.flight;
    DeliverKeepsInv(s, m);
    e := Deliver(m);
  }

  /** Everything on its way can be delivered. */
  lemma {:induction false} Drain(s: State, sofar: seq<Event>) returns (events: seq<Event>)
    requires Inv(Continue(s, sofar)) && OnlyDeliveries(sofar)
    ensures OnlyDeliveries(events) && Continue(s, events).flight == multiset{}
    decreases |Continue(s, sofar).flight|
  {
    if Continue(s, sofar).flight == multiset{} {
      events := sofar;
    } else {
      var e := SomeDelivery(Continue(s, sofar));
      ContinueOne(s, sofar, e);
      OneMoreDelivery(sofar, e);
      events := Drain(s, sofar + [e]);
    }
  }

  // ----- one write to replicas at rest -----

  /** The stores once a write and its deliveries are done. */
  function Settled(stores: seq<Store>, node: nat, key: string, entry: DataEntry): seq<Store> {
    seq(|stores|, i requires 0 <= i < |stores| =>
      if i == node then stores[i][key := entry] else Receive(stores[i], key, entry))
  }

  /** Only messages of the write are on their way, and a replica is settled unless its own is among them. */
  ghost predicate PartlySettled(before: seq<Store>, node: nat, key: string, entry: DataEntry, s: State, i: nat) {
    && |s.stores| == |before| && i < |before|
    && (forall m :: m in s.flight ==> m == Message(m.to, key, entry) && m.to != node && s.flight[m] == 1)
    && s.stores[i] == if Message(i, key, entry) in s.flight then before[i] else Settled(before, node, key, entry)[i]
  }

  lemma {:induction false} DeliverySettles(before: seq<Store>, node: nat, key: string, entry: DataEntry, s: State,
                                           m: Message, i: nat)
    requires PartlySettled(before, node, key, entry, s, i) && m in s.flight && m.to < |s.stores|
    ensures PartlySettled(before, node, key, entry, DeliverStep(s, m), i)
  {
    var s' := DeliverStep(s, m);
    if m.to != i {
      assert Message(i, key, entry) in s'.flight <==> Message(i, key, entry) in s.flight;
    } else {
      assert m !in s'.flight && s'.stores[i] == Receive(before[i], key, entry);
    }
  }

  lemma {:induction false} DeliveriesSettle(s: State, node: nat, key: string, entry: DataEntry, events: seq<Event>,
                                            i: nat)
    requires node < |s.stores| && s.flight == multiset{} && OnlyDeliveries(events) && i < |s.stores|
    ensures PartlySettled(s.stores, node, key, entry, Continue(WriteStep(s, node, key, entry), events), i)
  {
    if events == [] {
      forall m ensures Broadcast(|s.stores|, node, key, entry)[m] ==
                       if m.to < |s.stores| && m.to != node && m.key == key && m.entry == entry then 1 else 0 {
        BroadcastCount(|s.stores|, node, key, entry, m);
      }
    } else {
      var init, m := events[..|events| - 1], events[|events| - 1].message;
      DeliveriesSettle(s, node, key, entry, init, i);
      var s' := Continue(WriteStep(s, node, key, entry), init);
      if Enabled(s', Deliver(m)) {
        DeliverySettles(s.stores, node, key, entry, s', m, i);
      }
    }
  }

  predicate AllEqual(stores: seq<Store>) {
    forall i, j :: 0 <= i < j < |stores| ==> stores[i] == stores[j]
  }

  /**
   Two or more equal replicas at rest take a write: once its messages are delivered, in any order,
   they are equal again exactly when the write is newer than what was there, or the same.
   */
  lemma {:induction false} WriteAtRestIff(s: State, node: nat, key: string, entry: DataEntry, events: seq<Event>)
    requires node < |s.stores| && |s.stores| >= 2 && s.flight == multiset{} && AllEqual(s.stores)
    requires OnlyDeliveries(events) && Continue(WriteStep(s, node, key, entry), events).flight == multiset{}
    ensures AllEqual(Continue(WriteStep(s, node, key, entry), events).stores) <==>
            (key in s.stores[node] && s.stores[node][key] != entry ==> s.stores[node][key].timestamp < entry.timestamp)
  {
    var after := Continue(WriteStep(s, node, key, entry), events).stores;
    DeliveriesSettle(s, node, key, entry, events, node);
    forall i | 0 <= i < |after| ensures after[i] == Settled(s.stores, node, key, entry)[i] {
      DeliveriesSettle(s, node, key, entry, events, i);
    }
    assert after == Settled(s.stores, node, key, entry);
    SettledEqualIff(s.stores, node, key, entry);
  }

  lemma {:induction false} SettledEqualIff(stores: seq<Store>, node: nat, key: string, entry: DataEntry)
    requires node < |stores| && |stores| >= 2 && AllEqual(stores)
    ensures AllEqual(Settled(stores, node, key, entry)) <==>
            (key in stores[node] && stores[node][key] != entry ==> stores[node][key].timestamp < entry.timestamp)
  {
    var after := Settled(stores, node, key, entry);
    var other := if node == 0 then 1 else 0;
    assert stores[other] == stores[node];
    assert AllEqual(after) ==> after[other] == after[node];
    assert after[node][key] == entry;
    if key in stores[node] && stores[node][key] == entry {
      assert stores[node][key := entry] == stores[node];
    }
  }

  /** All replicas have the same entry of the key, or none has one. */
  predicate Agree(stores: seq<Store>, key: string) {
    forall i, j :: 0 <= i < j < |stores| ==> Lookup(stores[i], key) == Lookup(stores[j], key)
  }

  lemma {:induction false} SettledAgreeIff(stores: seq<Store>, node: nat, key: string, entry: DataEntry)
    requires node < |stores|
    ensures Agree(Settled(stores, node, key, entry), key) <==>
            forall i :: 0 <= i < |stores| && i != node && key in stores[i] && stores[i][key] != entry ==>
              stores[i][key].timestamp < entry.timestamp
  {
    var after := Settled(stores, node, key, entry);
    assert Lookup(after[node], key) == Some(entry);
    forall i | 0 <= i < |stores| && i != node
      ensures Lookup(after[i], key) == Some(entry) <==>
              (key in stores[i] && stores[i][key] != entry ==> stores[i][key].timestamp < entry.timestamp)
    {
    }
    if Agree(after, key) {
      forall i | 0 <= i < |stores| && i != node ensures Lookup(after[i], key) == Some(entry) {
        assert i < node || node < i;
      }
    }
  }

  /**
   Replicas at rest, equal or not, take a write: once its messages are delivered, in any order,
   they agree on its key exactly when the write is newer than what the others had, or the same;
   so they stay apart on a key until a write of it that is newer than all of them. On other keys
   nothing changes.
   */
  lemma {:induction false} NewerWriteReunitesIff(s: State, node: nat, key: string, entry: DataEntry, events: seq<Event>)
    requires node < |s.stores| && s.flight == multiset{}
    requires OnlyDeliveries(events) && Continue(WriteStep(s, node, key, entry), events).flight == multiset{}
    ensures var after := Continue(WriteStep(s, node, key, entry), events).stores;
            && |after| == |s.stores|
            && (Agree(after, key) <==>
                forall i :: 0 <= i < |s.stores| && i != node && key in s.stores[i] && s.stores[i][key] != entry ==>
                  s.stores[i][key].timestamp < entry.timestamp)
            && forall i, other :: 0 <= i < |after| && other != key ==>
               Lookup(after[i], other) == Lookup(s.stores[i], other)
  {
    var after := Continue(WriteStep(s, node, key, entry), events).stores;
    DeliveriesSettle(s, node, key, entry, events, node);
    forall i | 0 <= i < |after| ensures after[i] == Settled(s.stores, node, key, entry)[i] {
      DeliveriesSettle(s, node, key, entry, events, i);
    }
    assert after == Settled(s.stores, node, key, entry);
    SettledAgreeIff(s.stores, node, key, entry);
  }

  // ----- the nodes -----

  class MasterNode {
    var dataStore: Store
    var peers: seq<MasterNode>

    constructor ()
      ensures dataStore == map[] && peers == []
    {
      dataStore, peers := map[], [];
    }

    method AddPeer(peer: MasterNode)
      modifies this`peers
      ensures peers == old(peers) + [peer]
    {
      peers := peers + [peer];
    }

    method ReplicateData(key: string, value: string, timestamp: int)
      modifies this`dataStore
      ensures dataStore == Receive(old(dataStore), key, DataEntry(value, timestamp))
    {
      if key in dataStore {
        if dataStore[key].timestamp < timestamp {
          dataStore := dataStore[key := DataEntry(value, timestamp)];
        }
      } else {
        dataStore := dataStore[key := DataEntry(value, timestamp)];
      }
    }

    /** The clock is read by the caller. A node is not its own peer: its lock is held during the replication. */
    method WriteData(key: string, value: string, currentTime: int)
      requires this !in peers
      modifies this`dataStore, peers
      ensures dataStore == old(dataStore)[key := DataEntry(value, currentTime)]
      ensures peers == old(peers)
      ensures forall p :: p in peers ==>
                p.peers == old(p.peers) && p.dataStore == Receive(old(p.dataStore), key, DataEntry(value, currentTime))
    {
      dataStore := dataStore[key := DataEntry(value, currentTime)];
      for i := 0 to |peers|
        modifies peers
        invariant forall p :: p in peers ==> p.peers == old(p.peers)
        invariant forall p :: p in peers ==>
          p.dataStore == if p in peers[..i] then Receive(old(p.dataStore), key, DataEntry(value, currentTime))
                         else old(p.dataStore)
      {
        peers[i].ReplicateData(key, value, currentTime);
      }
    }

    method ReadData(key: string) returns (value: string)
      ensures value == if key in dataStore then dataStore[key].value else "Key not found"
    {
      value := if key in dataStore then dataStore[key].value else "Key not found";
    }
  }
}
