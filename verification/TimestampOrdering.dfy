/**
 Basic timestamp ordering.

 Every public operation of the scheduler holds one mutex, so a run of the system is a
 sequence of atomic requests. The scheduler keeps, per data item, the largest timestamp
 that has read it and the largest that has written it, and refuses an access that comes too late.
 An abort does not undo the writes granted before it, so the history below records every
 granted access, including those of transactions that abort afterwards.

 The main result is that every history the scheduler can produce is equivalent to the
 history sorted by transaction timestamp, which is serial when timestamps are distinct.
 */
module TimestampOrdering {

  /** Timestamps are compared and never computed with, so their 64-bit width plays no role. */
  datatype DataItem = DataItem(readTs: nat, writeTs: nat, value: int)

  /**
   One access that the scheduler granted, with the timestamp of the transaction that made it.
   Transaction ids can be used again, so `owner` says which of the begun transactions it was.
   */
  datatype Access =
    | ReadAccess(txn: int, ts: nat, item: int, value: int, owner: nat)
    | WriteAccess(txn: int, ts: nat, item: int, value: int, owner: nat)

  datatype Fate = Running | Committed | Aborted

  datatype Transaction = Transaction(txn: int, ts: nat, fate: Fate)

  datatype Request =
    | Begin(txn: int, ts: nat)
    | Read(txn: int, item: int)
    | Write(txn: int, item: int, value: int)
    | Commit(txn: int, ts: nat)
    | Abort(txn: int)

  /**
   `begun` lists the transactions started so far and what became of them, `current` the place in
   it of each active one, `history` the accesses granted so far.
   */
  datatype State = State(items: map<int, DataItem>, active: map<int, nat>,
                         current: map<int, nat>, begun: seq<Transaction>, history: seq<Access>)

  const INITIAL: State := State(map[], map[], map[], [], [])

  function Max(a: nat, b: nat): nat {
    if a < b then b else a
  }

  /** Whether the request succeeds; for a read or a write this is the boolean the source returns. */
  predicate Granted(s: State, r: Request) {
    match r
    case Begin(txn, _) => txn !in s.active
    case Read(txn, item) =>
      txn in s.active && item in s.items && s.items[item].writeTs <= s.active[txn]
    case Write(txn, item, _) =>
      txn in s.active &&
      (item in s.items ==> s.items[item].readTs <= s.active[txn] && s.items[item].writeTs <= s.active[txn])
    case Commit(txn, _) => txn in s.active
    case Abort(txn) => txn in s.active
  }

  function Owner(s: State, txn: int): nat {
    if txn in s.current then s.current[txn] else 0
  }

  /** The access that a granted read or write adds to the history. */
  function AccessOf(s: State, r: Request): Access
    requires (r.Read? || r.Write?) && Granted(s, r)
  {
    match r
    case Read(txn, item) => ReadAccess(txn, s.active[txn], item, s.items[item].value, Owner(s, txn))
    case Write(txn, item, value) => WriteAccess(txn, s.active[txn], item, value, Owner(s, txn))
  }

  function ItemAfter(s: State, r: Request): DataItem
    requires (r.Read? || r.Write?) && Granted(s, r)
  {
    match r
    case Read(txn, item) =>
      s.items[item].(readTs := Max(s.items[item].readTs, s.active[txn]))
    case Write(txn, item, value) =>
      var before := if item in s.items then s.items[item] else DataItem(0, 0, 0);
      before.(writeTs := Max(before.writeTs, s.active[txn]), value := value)
  }

  function SetFate(begun: seq<Transaction>, i: nat, fate: Fate): seq<Transaction> {
    if i < |begun| then begun[i := Transaction(begun[i].txn, begun[i].ts, fate)] else begun
  }

  /** An active transaction ends; nothing it wrote is touched. */
  function Finish(s: State, txn: int, fate: Fate): State {
    if txn in s.active then
      s.(active := s.active - {txn}, current := s.current - {txn}, begun := SetFate(s.begun, Owner(s, txn), fate))
    else s
  }

  function Step(s: State, r: Request): State {
    match r
    case Begin(txn, ts) =>
      if Granted(s, r) then
        s.(active := s.active[txn := ts], current := s.current[txn := |s.begun|],
           begun := s.begun + [Transaction(txn, ts, Running)])
      else s
    case Commit(txn, _) => Finish(s, txn, Committed)
    case Abort(txn) => Finish(s, txn, Aborted)
    case _ =>
      if Granted(s, r) then
        s.(items := s.items[r.item := ItemAfter(s, r)], history := s.history + [AccessOf(s, r)])
      else if r.Read? ==> r.item in s.items then Finish(s, r.txn, Aborted)    // a conflict aborts the transaction
      else s
  }

  function Run(rs: seq<Request>): State {
    if rs == [] then INITIAL else Step(Run(rs[..|rs| - 1]), rs[|rs| - 1])
  }

  // ----- what a history means -----

  function Apply(store: map<int, int>, a: Access): map<int, int> {
    if a.WriteAccess? then store[a.item := a.value] else store
  }

  /** The contents of the items after the writes of a history, in order. */
  function Replay(h: seq<Access>): map<int, int> {
    if h == [] then map[] else Apply(Replay(h[..|h| - 1]), h[|h| - 1])
  }

  /** An access can follow a store: a read must return the value the store holds. */
  predicate Fits(store: map<int, int>, a: Access) {
    a.ReadAccess? ==> a.item in store && store[a.item] == a.value
  }

  /** Every read of the history returns the most recent value written before it in the history. */
  predicate Legal(h: seq<Access>) {
    h == [] || (Legal(h[..|h| - 1]) && Fits(Replay(h[..|h| - 1]), h[|h| - 1]))
  }

  predicate Conflict(a: Access, b: Access) {
    a.item == b.item && (a.WriteAccess? || b.WriteAccess?)
  }

  function Values(items: map<int, DataItem>): map<int, int> {
    map i | i in items :: items[i].value
  }

  // ----- stable sorting by timestamp -----

  /** Insert an access after every access whose timestamp is not larger. */
  function InsertByTs(h: seq<Access>, a: Access): seq<Access> {
    if h == [] || h[|h| - 1].ts <= a.ts then h + [a]
    else InsertByTs(h[..|h| - 1], a) + [h[|h| - 1]]
  }

  function SortByTs(h: seq<Access>): seq<Access> {
    if h == [] then [] else InsertByTs(SortByTs(h[..|h| - 1]), h[|h| - 1])
  }

  predicate Sorted(h: seq<Access>) {
    forall i, j :: 0 <= i < j < |h| ==> h[i].ts <= h[j].ts
  }

  /** The accesses made at one timestamp, in the order of the history. */
  function AtTs(h: seq<Access>, ts: nat): seq<Access> {
    if h == [] then []
    else
      var rest := AtTs(h[..|h| - 1], ts);
      if h[|h| - 1].ts == ts then rest + [h[|h| - 1]] else rest
  }

  lemma {:induction false} InsertPermutes(h: seq<Access>, a: Access)
    ensures multiset(InsertByTs(h, a)) == multiset(h) + multiset{a}
  {
    if h == [] {
    } else {
      assert h == h[..|h| - 1] + [h[|h| - 1]];
      if h[|h| - 1].ts > a.ts {
        InsertPermutes(h[..|h| - 1], a);
      }
    }
  }

  lemma {:induction false} InsertedElement(h: seq<Access>, a: Access, x: Access)
    requires x in InsertByTs(h, a)
    ensures x == a || x in h
  {
    InsertPermutes(h, a);
    assert x in multiset(InsertByTs(h, a));
  }

  lemma {:induction false} InsertKeepsSorted(h: seq<Access>, a: Access)
    requires Sorted(h)
    ensures Sorted(InsertByTs(h, a))
  {
    if h != [] && h[|h| - 1].ts > a.ts {
      var init, last := h[..|h| - 1], h[|h| - 1];
      InsertKeepsSorted(init, a);
      var r := InsertByTs(init, a);
      forall i | 0 <= i < |r| ensures r[i].ts <= last.ts {
        InsertedElement(init, a, r[i]);
        if r[i] != a {
          var j :| 0 <= j < |init| && init[j] == r[i];
          assert h[j] == r[i];
        }
      }
    }
  }

  lemma {:induction false} InsertKeepsTsOrder(h: seq<Access>, a: Access, ts: nat)
    ensures AtTs(InsertByTs(h, a), ts) == AtTs(h, ts) + (if a.ts == ts then [a] else [])
  {
    var r := InsertByTs(h, a);
    if h == [] || h[|h| - 1].ts <= a.ts {
      assert r[..|r| - 1] == h;
    } else {
      assert r[..|r| - 1] == InsertByTs(h[..|h| - 1], a);
      InsertKeepsTsOrder(h[..|h| - 1], a, ts);
    }
  }

  /** SortByTs is the stable sort: ordered, with each timestamp's accesses in their original order. */
  lemma {:induction false} SortIsStable(h: seq<Access>, ts: nat)
    ensures Sorted(SortByTs(h))
    ensures multiset(SortByTs(h)) == multiset(h)
    ensures AtTs(SortByTs(h), ts) == AtTs(h, ts)
  {
    if h == [] {
    } else {
      var init, last := h[..|h| - 1], h[|h| - 1];
      assert h == init + [last];
      SortIsStable(init, ts);
      InsertKeepsSorted(SortByTs(init), last);
      InsertPermutes(SortByTs(init), last);
      InsertKeepsTsOrder(SortByTs(init), last, ts);
    }
  }

  // ----- moving an access to its place -----

  lemma {:induction false} Append(h: seq<Access>, a: Access)
    ensures Replay(h + [a]) == Apply(Replay(h), a)
    ensures Legal(h + [a]) <==> Legal(h) && Fits(Replay(h), a)
  {
    assert (h + [a])[..|h|] == h;
  }

  /** Two accesses that do not conflict may change places. */
  lemma {:induction false} Swap(store: map<int, int>, first: Access, second: Access)
    requires !Conflict(first, second)
    ensures Fits(store, second) && Fits(Apply(store, second), first) <==>
            Fits(store, first) && Fits(Apply(store, first), second)
    ensures Apply(Apply(store, second), first) == Apply(Apply(store, first), second)
  {
  }

  /**
   An access that conflicts with nothing of a larger timestamp can be moved from the end of a
   history to its timestamp's place without changing what anything reads; the one history is
   legal exactly when the other is.
   */
  lemma {:induction false} InsertKeepsMeaning(h: seq<Access>, a: Access)
    requires forall x :: x in h && x.ts > a.ts ==> !Conflict(x, a)
    ensures Legal(InsertByTs(h, a)) <==> Legal(h) && Fits(Replay(h), a)
    ensures Replay(InsertByTs(h, a)) == Apply(Replay(h), a)
    decreases |h|, 0
  {
    if h == [] || h[|h| - 1].ts <= a.ts {
      Append(h, a);
    } else {
      InsertBeforeLast(h[..|h| - 1], h[|h| - 1], a);
      assert h == h[..|h| - 1] + [h[|h| - 1]];
    }
  }

  lemma {:induction false} InsertBeforeLast(init: seq<Access>, last: Access, a: Access)
    requires forall x :: x in init + [last] && x.ts > a.ts ==> !Conflict(x, a)
    requires last.ts > a.ts
    ensures Legal(InsertByTs(init, a) + [last]) <==> Legal(init + [last]) && Fits(Replay(init + [last]), a)
    ensures Replay(InsertByTs(init, a) + [last]) == Apply(Replay(init + [last]), a)
    decreases |init|, 1
  {
    assert last in init + [last];
    assert forall x :: x in init ==> x in init + [last];
    Append(init, last);
    Swap(Replay(init), last, a);
    InsertKeepsMeaning(init, a);
    Append(InsertByTs(init, a), last);
  }

  lemma {:induction false} SortAppend(h: seq<Access>, a: Access)
    ensures SortByTs(h + [a]) == InsertByTs(SortByTs(h), a)
  {
    assert (h + [a])[..|h|] == h;
  }

  lemma {:induction false} SortedElement(h: seq<Access>, x: Access)
    ensures x in SortByTs(h) <==> x in h
  {
    SortIsStable(h, 0);
    assert x in SortByTs(h) <==> x in multiset(SortByTs(h));
  }

  /** No access conflicts with an earlier one of a larger timestamp. */
  predicate NotLate(h: seq<Access>) {
    if h == [] then true
    else
      var init, last := h[..|h| - 1], h[|h| - 1];
      NotLate(init) && forall x :: x in init && x.ts > last.ts ==> !Conflict(x, last)
  }

  /** Sorting keeps the meaning of a history that grows by accesses that are not late. */
  lemma {:induction false} SortedAppend(h: seq<Access>, a: Access)
    requires Replay(SortByTs(h)) == Replay(h)
    requires forall x :: x in h && x.ts > a.ts ==> !Conflict(x, a)
    ensures Legal(SortByTs(h + [a])) <==> Legal(SortByTs(h)) && Fits(Replay(h), a)
    ensures Replay(SortByTs(h + [a])) == Replay(h + [a])
  {
    forall x | x in SortByTs(h) && x.ts > a.ts ensures !Conflict(x, a) {
      SortedElement(h, x);
    }
    InsertKeepsMeaning(SortByTs(h), a);
    SortAppend(h, a);
    Append(h, a);
  }

  /**
   So a history without late accesses leaves the same contents when it is sorted, and is legal
   exactly when its sorted form is.
   */
  lemma {:induction false} SortingKeepsMeaning(h: seq<Access>)
    requires NotLate(h)
    ensures Legal(SortByTs(h)) <==> Legal(h)
    ensures Replay(SortByTs(h)) == Replay(h)
  {
    if h == [] {
    } else {
      var init, last := h[..|h| - 1], h[|h| - 1];
      SortingKeepsMeaning(init);
      SortedAppend(init, last);
      assert h == init + [last];
    }
  }

  // ----- the invariant of the scheduler -----

  ghost predicate Bounded(s: State) {
    forall a :: a in s.history ==>
      && a.item in s.items
      && (a.ReadAccess? ==> a.ts <= s.items[a.item].readTs)
      && (a.WriteAccess? ==> a.ts <= s.items[a.item].writeTs)
  }

  /** An active transaction is the one begun at its place and is running. */
  ghost predicate Tracked(s: State) {
    && s.current.Keys == s.active.Keys
    && forall t :: t in s.active ==>
         s.current[t] < |s.begun| && s.begun[s.current[t]] == Transaction(t, s.active[t], Running)
  }

  /** An access carries the id and the timestamp of its owner. */
  predicate Owned(begun: seq<Transaction>, a: Access) {
    a.owner < |begun| && begun[a.owner].txn == a.txn && begun[a.owner].ts == a.ts
  }

  ghost predicate Attributed(s: State) {
    forall a :: a in s.history ==> Owned(s.begun, a)
  }

  ghost predicate Consistent(s: State) {
    Legal(s.history) && NotLate(s.history) && Replay(s.history) == Values(s.items)
  }

  ghost predicate Inv(s: State) {
    Bounded(s) && Tracked(s) && Attributed(s) && Consistent(s)
  }

  /** The timestamp test is what makes a granted access conflict with nothing of a larger timestamp. */
  lemma {:induction false} GrantedAccessIsNotLate(s: State, r: Request)
    requires Bounded(s) && (r.Read? || r.Write?) && Granted(s, r)
    ensures forall x :: x in s.history && x.ts > AccessOf(s, r).ts ==> !Conflict(x, AccessOf(s, r))
  {
    forall x | x in s.history && x.ts > AccessOf(s, r).ts
      ensures !Conflict(x, AccessOf(s, r))
    {
      assert x.item in s.items;
    }
  }

  lemma {:induction false} AccessKeepsBounded(s: State, r: Request)
    requires Bounded(s) && (r.Read? || r.Write?) && Granted(s, r)
    ensures Bounded(Step(s, r))
  {
    var s' := Step(s, r);
    forall a | a in s'.history
      ensures && a.item in s'.items
              && (a.ReadAccess? ==> a.ts <= s'.items[a.item].readTs)
              && (a.WriteAccess? ==> a.ts <= s'.items[a.item].writeTs)
    {
      assert a in s.history || a == AccessOf(s, r);
    }
  }

  lemma {:induction false} AccessKeepsConsistent(s: State, r: Request)
    requires Bounded(s) && Consistent(s) && (r.Read? || r.Write?) && Granted(s, r)
    ensures Consistent(Step(s, r))
  {
    var h, a := s.history, AccessOf(s, r);
    Append(h, a);
    ValuesUpdate(s.items, r.item, ItemAfter(s, r));
    GrantedAccessIsNotLate(s, r);
    assert (h + [a])[..|h|] == h;
  }

  lemma {:induction false} ValuesUpdate(items: map<int, DataItem>, i: int, d: DataItem)
    ensures Values(items[i := d]) == Values(items)[i := d.value]
    ensures i in items && d.value == items[i].value ==> Values(items[i := d]) == Values(items)
  {
  }

  lemma {:induction false} AccessKeepsInv(s: State, r: Request)
    requires Inv(s) && (r.Read? || r.Write?) && Granted(s, r)
    ensures Inv(Step(s, r))
  {
    AccessKeepsBounded(s, r);
    AccessKeepsConsistent(s, r);
    forall a | a in Step(s, r).history ensures Owned(s.begun, a) {
      assert a in s.history || a == AccessOf(s, r);
    }
  }

  lemma {:induction false} FinishKeepsInv(s: State, txn: int, fate: Fate)
    requires Inv(s)
    ensures Inv(Finish(s, txn, fate))
  {
    var s' := Finish(s, txn, fate);
    forall t | t in s'.active
      ensures s'.current[t] < |s'.begun| && s'.begun[s'.current[t]] == Transaction(t, s'.active[t], Running)
    {
      assert s.begun[s.current[t]].txn == t;
    }
    forall a | a in s'.history ensures Owned(s'.begun, a) {
      assert Owned(s.begun, a);
    }
  }

  lemma {:induction false} BeginKeepsInv(s: State, txn: int, ts: nat)
    requires Inv(s)
    ensures Inv(Step(s, Begin(txn, ts)))
  {
    forall a | a in s.history ensures Owned(Step(s, Begin(txn, ts)).begun, a) {
      assert Owned(s.begun, a);
    }
  }

  lemma {:induction false} StepKeepsInv(s: State, r: Request)
    requires Inv(s)
    ensures Inv(Step(s, r))
  {
    match r
    case Begin(txn, ts) => BeginKeepsInv(s, txn, ts);
    case Commit(txn, _) => FinishKeepsInv(s, txn, Committed);
    case Abort(txn) => FinishKeepsInv(s, txn, Aborted);
    case _ =>
      if Granted(s, r) {
        AccessKeepsInv(s, r);
      } else {
        FinishKeepsInv(s, r.txn, Aborted);
      }
  }

  lemma {:induction false} Extend(rs: seq<Request>, r: Request)
    ensures Run(rs + [r]) == Step(Run(rs), r)
  {
    assert (rs + [r])[..|rs|] == rs;
  }

  lemma {:induction false} RunKeepsInv(rs: seq<Request>)
    ensures Inv(Run(rs))
  {
    if rs == [] {
    } else {
      RunKeepsInv(rs[..|rs| - 1]);
      StepKeepsInv(Run(rs[..|rs| - 1]), rs[|rs| - 1]);
    }
  }

  // ----- main results -----

  /**
   Every run is equivalent to its history sorted stably by timestamp: the same accesses, each
   transaction's own accesses in the order it made them, every read returning the value it
   returned in the run, and every item ending with the value it has in the run.
   */
  lemma {:induction false} RunsAreSerializable(rs: seq<Request>)
    ensures var s := Run(rs);
            var serial := SortByTs(s.history);
            && Sorted(serial)
            && multiset(serial) == multiset(s.history)
            && (forall ts: nat :: AtTs(serial, ts) == AtTs(s.history, ts))
            && Legal(serial)
            && Replay(serial) == Values(s.items)
  {
    RunKeepsInv(rs);
    SortingKeepsMeaning(Run(rs).history);
    forall ts: nat ensures AtTs(SortByTs(Run(rs).history), ts) == AtTs(Run(rs).history, ts) {
      SortIsStable(Run(rs).history, ts);
    }
    SortIsStable(Run(rs).history, 0);
  }

  ghost predicate DistinctTimestamps(begun: seq<Transaction>) {
    forall i, j :: 0 <= i < j < |begun| ==> begun[i].ts != begun[j].ts
  }

  /** No transaction's accesses are interleaved with another's. */
  ghost predicate Serial(h: seq<Access>) {
    forall i, j, k :: 0 <= i < j < k < |h| && h[i].owner == h[k].owner ==> h[j].owner == h[i].owner
  }

  lemma {:induction false} SortedIsSerial(h: seq<Access>, begun: seq<Transaction>)
    requires Sorted(h) && DistinctTimestamps(begun)
    requires forall a :: a in h ==> Owned(begun, a)
    ensures Serial(h)
  {
    forall i, j, k | 0 <= i < j < k < |h| && h[i].owner == h[k].owner ensures h[j].owner == h[i].owner {
      assert Owned(begun, h[i]) && Owned(begun, h[j]) && Owned(begun, h[k]);
      assert h[i].ts <= h[j].ts <= h[k].ts;
    }
  }

  /** With distinct start timestamps the sorted history runs one transaction at a time. */
  lemma {:induction false} SortedHistoryIsSerial(rs: seq<Request>)
    requires DistinctTimestamps(Run(rs).begun)
    ensures Serial(SortByTs(Run(rs).history))
  {
    RunKeepsInv(rs);
    var s := Run(rs);
    var h := SortByTs(s.history);
    SortIsStable(s.history, 0);
    forall a | a in h ensures Owned(s.begun, a) {
      SortedElement(s.history, a);
    }
    SortedIsSerial(h, s.begun);
  }

  // ----- the scheduler object -----

  class Scheduler {
    var dataItems: map<int, DataItem>
    var activeTransactions: map<int, nat>
    ghost var current: map<int, nat>
    ghost var begun: seq<Transaction>
    ghost var history: seq<Access>
    ghost var requests: seq<Request>

    ghost function View(): State
      reads this
    {
      State(dataItems, activeTransactions, current, begun, history)
    }

    /** The object's state is the one its requests lead to. */
    ghost predicate Valid()
      reads this
    {
      View() == Run(requests)
    }

    constructor ()
      ensures Valid() && requests == []
    {
      dataItems, activeTransactions := map[], map[];
      current, begun, history, requests := map[], [], [], [];
    }

    /** The transaction is no longer active. */
    method Drop(transactionId: int, ghost fate: Fate)
      modifies this`activeTransactions, this`current, this`begun
      ensures View() == Finish(old(View()), transactionId, fate)
    {
      if transactionId in activeTransactions {
        begun := SetFate(begun, Owner(View(), transactionId), fate);
        current := current - {transactionId};
        activeTransactions := activeTransactions - {transactionId};
      }
    }

    ghost method Record(r: Request)
      requires View() == Step(Run(requests), r)
      modifies this`requests
      ensures Valid() && requests == old(requests) + [r]
    {
      Extend(requests, r);
      requests := requests + [r];
    }

    method BeginTransaction(transactionId: int, timestamp: nat)
      requires Valid()
      modifies this
      ensures Valid() && requests == old(requests) + [Begin(transactionId, timestamp)]
    {
      if transactionId !in activeTransactions {
        activeTransactions := activeTransactions[transactionId := timestamp];
        current := current[transactionId := |begun|];
        begun := begun + [Transaction(transactionId, timestamp, Running)];
      }
      Record(Begin(transactionId, timestamp));
    }

    /** `value` is what the source reports for a granted read. */
    method ReadItem(transactionId: int, dataItemId: int) returns (ok: bool, value: int)
      requires Valid()
      modifies this
      ensures Valid() && requests == old(requests) + [Read(transactionId, dataItemId)]
      ensures ok == Granted(old(View()), Read(transactionId, dataItemId))
      ensures ok ==> value == dataItems[dataItemId].value
      ensures ok ==> history == old(history) + [AccessOf(old(View()), Read(transactionId, dataItemId))]
      ensures ok ==> value == AccessOf(old(View()), Read(transactionId, dataItemId)).value
      ensures !ok ==> history == old(history) && dataItems == old(dataItems)
    {
      ok, value := false, 0;
      ghost var r := Read(transactionId, dataItemId);
      if transactionId in activeTransactions && dataItemId in dataItems {
        var startTs, item := activeTransactions[transactionId], dataItems[dataItemId];
        if startTs < item.writeTs {
          Drop(transactionId, Aborted);
        } else {
          dataItems := dataItems[dataItemId := item.(readTs := Max(item.readTs, startTs))];
          history := history +
            [ReadAccess(transactionId, startTs, dataItemId, item.value, Owner(View(), transactionId))];
          ok, value := true, item.value;
        }
      }
      Record(r);
    }

    method WriteItem(transactionId: int, dataItemId: int, newValue: int) returns (ok: bool)
      requires Valid()
      modifies this
      ensures Valid() && requests == old(requests) + [Write(transactionId, dataItemId, newValue)]
      ensures ok == Granted(old(View()), Write(transactionId, dataItemId, newValue))
      ensures ok ==> dataItemId in dataItems && dataItems[dataItemId].value == newValue
      ensures !ok ==> history == old(history) && dataItems == old(dataItems)
    {
      ok := false;
      ghost var r := Write(transactionId, dataItemId, newValue);
      if transactionId in activeTransactions {
        var startTs := activeTransactions[transactionId];
        if dataItemId !in dataItems {
          dataItems := dataItems[dataItemId := DataItem(0, 0, 0)];
        }
        var item := dataItems[dataItemId];
        if startTs < item.readTs || startTs < item.writeTs {
          Drop(transactionId, Aborted);
        } else {
          dataItems := dataItems[dataItemId := item.(writeTs := Max(item.writeTs, startTs), value := newValue)];
          history := history +
            [WriteAccess(transactionId, startTs, dataItemId, newValue, Owner(View(), transactionId))];
          ok := true;
        }
      }
      Record(r);
    }

    method CommitTransaction(transactionId: int, timestamp: nat)
      requires Valid()
      modifies this
      ensures Valid() && requests == old(requests) + [Commit(transactionId, timestamp)]
      ensures dataItems == old(dataItems) && transactionId !in activeTransactions
    {
      Drop(transactionId, Committed);
      Record(Commit(transactionId, timestamp));
    }

    method AbortTransaction(transactionId: int)
      requires Valid()
      modifies this
      ensures Valid() && requests == old(requests) + [Abort(transactionId)]
      ensures dataItems == old(dataItems) && transactionId !in activeTransactions
    {
      Drop(transactionId, Aborted);
      Record(Abort(transactionId));
    }
  }
}
