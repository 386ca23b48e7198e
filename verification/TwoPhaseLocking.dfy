/**
 The lock manager's request queues and the transaction manager on top of them.

 A call that has to wait gives up the lock manager's mutex while it waits, so acquiring a lock
 is two atomic steps: the request, which is queued and granted if nothing stands against it,
 and the return of the call, which is possible once the transaction has a granted request.
 The model numbers the requests by their arrival; `grants` lists, per resource, the numbers in
 the order in which the requests were granted.
 */
module TwoPhaseLocking {
  import opened Sets
  import opened DeadlockDetection

  datatype LockType = Shared | Exclusive

  datatype LockRequest = LockRequest(txn: int, lockType: LockType, granted: bool, arrival: nat)

  datatype Locks = Locks(queues: map<int, seq<LockRequest>>, arrivals: nat, grants: map<int, seq<nat>>)

  function Queue(s: Locks, r: int): seq<LockRequest> {
    if r in s.queues then s.queues[r] else []
  }

  function Grants(s: Locks, r: int): seq<nat> {
    if r in s.grants then s.grants[r] else []
  }

  // ----- one queue -----

  /** The test the source makes against every queued request, granted or not. */
  predicate CanGrant(q: seq<LockRequest>, txn: int, lockType: LockType) {
    forall i :: 0 <= i < |q| ==> q[i].txn == txn || (q[i].lockType.Shared? && lockType.Shared?)
  }

  function Remove(q: seq<LockRequest>, txn: int): seq<LockRequest> {
    if q == [] then []
    else if q[0].txn == txn then Remove(q[1..], txn)
    else [q[0]] + Remove(q[1..], txn)
  }

  /** The position of the first request that waits, or the length of the queue. */
  function FirstWaiting(q: seq<LockRequest>): (i: nat)
    ensures i <= |q|
    ensures forall j :: 0 <= j < i ==> q[j].granted
    ensures i < |q| ==> !q[i].granted
  {
    if q == [] || !q[0].granted then 0 else 1 + FirstWaiting(q[1..])
  }

  /** The source grants the first waiting request without any further test. */
  function GrantFirst(q: seq<LockRequest>): seq<LockRequest> {
    var i := FirstWaiting(q);
    if i < |q| then q[i := q[i].(granted := true)] else q
  }

  function Released(q: seq<LockRequest>, txn: int): seq<LockRequest> {
    GrantFirst(Remove(q, txn))
  }

  lemma {:induction false} RemoveElements(q: seq<LockRequest>, txn: int)
    ensures forall x :: x in Remove(q, txn) <==> x in q && x.txn != txn
  {
    if q == [] {
    } else {
      RemoveElements(q[1..], txn);
      assert forall x :: x in q <==> x == q[0] || x in q[1..];
    }
  }

  // ----- shared and exclusive locks together -----

  /** No two transactions hold locks that exclude each other. */
  predicate Compatible(q: seq<LockRequest>) {
    forall i, j :: 0 <= i < j < |q| && q[i].granted && q[j].granted && q[i].txn != q[j].txn ==>
      q[i].lockType.Shared? && q[j].lockType.Shared?
  }

  /** A request conflicts with no lock that another transaction holds in the queue. */
  predicate Admissible(q: seq<LockRequest>, w: LockRequest) {
    forall i :: 0 <= i < |q| && q[i].granted && q[i].txn != w.txn ==> q[i].lockType.Shared? && w.lockType.Shared?
  }

  lemma {:induction false} AcquireKeepsCompatible(q: seq<LockRequest>, txn: int, lockType: LockType, arrival: nat)
    requires Compatible(q)
    ensures Compatible(q + [LockRequest(txn, lockType, CanGrant(q, txn, lockType), arrival)])
  {
  }

  lemma {:induction false} RemoveKeepsCompatible(q: seq<LockRequest>, txn: int)
    requires Compatible(q)
    ensures Compatible(Remove(q, txn))
  {
    if q == [] {
    } else {
      RemoveKeepsCompatible(q[1..], txn);
      if q[0].txn != txn {
        var r := Remove(q[1..], txn);
        forall j | 0 <= j < |r| && q[0].granted && r[j].granted && q[0].txn != r[j].txn
          ensures q[0].lockType.Shared? && r[j].lockType.Shared?
        {
          RemoveElements(q[1..], txn);
          assert r[j] in q[1..];
          var m :| 0 <= m < |q[1..]| && q[1..][m] == r[j];
          assert q[m + 1] == r[j];
        }
      }
    }
  }

  /**
   With shared and exclusive locks mixed, a release keeps held locks compatible exactly when
   the first waiting request excludes none of the locks that stay held: the test that the
   source leaves out.
   */
  lemma {:induction false} ReleaseCompatibleIff(q: seq<LockRequest>, txn: int)
    requires Compatible(q)
    ensures var rest := Remove(q, txn);
            var i := FirstWaiting(rest);
            Compatible(Released(q, txn)) <==> (i < |rest| ==> Admissible(rest, rest[i]))
  {
    var rest := Remove(q, txn);
    var i := FirstWaiting(rest);
    RemoveKeepsCompatible(q, txn);
    if i < |rest| {
      var after := Released(q, txn);
      if Compatible(after) {
        forall j | 0 <= j < |rest| && rest[j].granted && rest[j].txn != rest[i].txn
          ensures rest[j].lockType.Shared? && rest[i].lockType.Shared?
        {
          assert after[j] == rest[j] && after[i] == rest[i].(granted := true);
        }
      }
    }
  }

  /** Two readers and a waiting writer: when one reader leaves, the writer gets its lock beside the other reader. */
  lemma {:induction false} ReleaseCanBreakCompatibility()
    ensures var q := [LockRequest(1, Shared, true, 0), LockRequest(2, Shared, true, 1),
                      LockRequest(3, Exclusive, false, 2)];
            Compatible(q) && !Compatible(Released(q, 1))
  {
    var q := [LockRequest(1, Shared, true, 0), LockRequest(2, Shared, true, 1), LockRequest(3, Exclusive, false, 2)];
    var rest := [LockRequest(2, Shared, true, 1), LockRequest(3, Exclusive, false, 2)];
    assert q[1..] == rest && rest[1..] == [LockRequest(3, Exclusive, false, 2)];
    assert Remove(rest[1..], 1) == rest[1..];
    assert Remove(rest, 1) == rest;
    assert Remove(q, 1) == rest;
    assert FirstWaiting(rest) == 1;
    assert !Admissible(rest, rest[1]) by { assert rest[0].granted; }
    ReleaseCompatibleIff(q, 1);
  }

  // ----- the lock table -----

  function AddGrant(s: Locks, r: int, arrival: nat): map<int, seq<nat>> {
    s.grants[r := Grants(s, r) + [arrival]]
  }

  function Request(s: Locks, txn: int, r: int, lockType: LockType): Locks {
    var q := Queue(s, r);
    var granted := CanGrant(q, txn, lockType);
    Locks(s.queues[r := q + [LockRequest(txn, lockType, granted, s.arrivals)]], s.arrivals + 1,
          if granted then AddGrant(s, r, s.arrivals) else s.grants)
  }

  function Release(s: Locks, txn: int, r: int): Locks {
    if r !in s.queues then s
    else
      var rest := Remove(s.queues[r], txn);
      if rest == [] then s.(queues := s.queues - {r})
      else
        var i := FirstWaiting(rest);
        s.(queues := s.queues[r := GrantFirst(rest)],
           grants := if i < |rest| then AddGrant(s, r, rest[i].arrival) else s.grants)
  }

  function ReleaseEach(s: Locks, txn: int, rs: seq<int>): Locks
    decreases rs
  {
    if rs == [] then s else ReleaseEach(Release(s, txn, rs[0]), txn, rs[1..])
  }

  /** The condition on which the waiting call returns. */
  predicate HasGranted(q: seq<LockRequest>, txn: int) {
    exists i :: 0 <= i < |q| && q[i].txn == txn && q[i].granted
  }

  // ----- the invariant for exclusive locks -----

  predicate Ascending(s: seq<nat>) {
    forall i, j :: 0 <= i < j < |s| ==> s[i] < s[j]
  }

  predicate AllBelow(s: seq<nat>, bound: nat) {
    forall i :: 0 <= i < |s| ==> s[i] < bound
  }

  /** All requests are exclusive and in the order of their arrival. */
  predicate Arrived(q: seq<LockRequest>, arrivals: nat) {
    && (forall i :: 0 <= i < |q| ==> q[i].lockType.Exclusive? && q[i].arrival < arrivals)
    && (forall i, j :: 0 <= i < j < |q| ==> q[i].arrival < q[j].arrival)
  }

  /** The head holds the lock, and whatever else is granted belongs to the same transaction. */
  predicate OneHolder(q: seq<LockRequest>) {
    && q != [] && q[0].granted
    && (forall i :: 0 <= i < |q| && q[i].granted ==> q[i].txn == q[0].txn)
  }

  /** Nobody who waits behind another transaction was overtaken by a request that came later. */
  predicate NoOvertaking(q: seq<LockRequest>, grants: seq<nat>) {
    q != [] ==> forall i :: 0 <= i < |q| && q[i].txn != q[0].txn ==> AllBelow(grants, q[i].arrival)
  }

  ghost predicate QueueInv(s: Locks, r: int) {
    && Ascending(Grants(s, r)) && AllBelow(Grants(s, r), s.arrivals)
    && (r in s.queues ==>
          && OneHolder(s.queues[r]) && Arrived(s.queues[r], s.arrivals)
          && NoOvertaking(s.queues[r], Grants(s, r)))
  }

  ghost predicate LocksInv(s: Locks) {
    forall r :: QueueInv(s, r)
  }

  lemma {:induction false} RequestKeepsInv(s: Locks, txn: int, r: int)
    requires LocksInv(s)
    ensures LocksInv(Request(s, txn, r, Exclusive))
  {
    var s' := Request(s, txn, r, Exclusive);
    forall r' ensures QueueInv(s', r') {
      assert QueueInv(s, r');
      if r' == r {
        RequestKeepsQueue(Queue(s, r), Grants(s, r), s.arrivals, txn);
      }
    }
  }

  lemma {:induction false} RequestKeepsQueue(q: seq<LockRequest>, grants: seq<nat>, arrivals: nat, txn: int)
    requires Ascending(grants) && AllBelow(grants, arrivals)
    requires q != [] ==> OneHolder(q) && Arrived(q, arrivals) && NoOvertaking(q, grants)
    ensures var granted := CanGrant(q, txn, Exclusive);
            var q' := q + [LockRequest(txn, Exclusive, granted, arrivals)];
            var grants' := if granted then grants + [arrivals] else grants;
            && Ascending(grants') && AllBelow(grants', arrivals + 1)
            && OneHolder(q') && Arrived(q', arrivals + 1) && NoOvertaking(q', grants')
  {
    var granted := CanGrant(q, txn, Exclusive);
    if granted && q != [] {
      assert q[0].txn == txn;
    }
  }

  lemma {:induction false} ArrivedTail(q: seq<LockRequest>, arrivals: nat)
    requires Arrived(q, arrivals) && q != []
    ensures Arrived(q[1..], arrivals)
    ensures forall y :: y in q[1..] ==> q[0].arrival < y.arrival
  {
    forall y | y in q[1..] ensures q[0].arrival < y.arrival {
      var m :| 0 <= m < |q[1..]| && q[1..][m] == y;
      assert q[m + 1] == y;
    }
  }

  lemma {:induction false} ArrivedCons(x: LockRequest, q: seq<LockRequest>, arrivals: nat)
    requires Arrived(q, arrivals) && x.lockType.Exclusive? && x.arrival < arrivals
    requires forall y :: y in q ==> x.arrival < y.arrival
    ensures Arrived([x] + q, arrivals)
  {
  }

  lemma {:induction false} RemoveKeepsArrived(q: seq<LockRequest>, arrivals: nat, txn: int)
    requires Arrived(q, arrivals)
    ensures Arrived(Remove(q, txn), arrivals)
  {
    if q == [] {
    } else {
      ArrivedTail(q, arrivals);
      RemoveKeepsArrived(q[1..], arrivals, txn);
      if q[0].txn != txn {
        RemoveElements(q[1..], txn);
        ArrivedCons(q[0], Remove(q[1..], txn), arrivals);
      }
    }
  }

  /** When the holder leaves, nobody else has a granted request, and the lock passes to whoever came first. */
  lemma {:induction false} ReleaseKeepsQueue(q: seq<LockRequest>, grants: seq<nat>, arrivals: nat, txn: int)
    requires Ascending(grants) && AllBelow(grants, arrivals)
    requires OneHolder(q) && Arrived(q, arrivals) && NoOvertaking(q, grants) && q[0].txn == txn
    ensures var rest := Remove(q, txn);
            rest != [] ==>
              && FirstWaiting(rest) == 0
              && Ascending(grants + [rest[0].arrival]) && AllBelow(grants + [rest[0].arrival], arrivals)
              && OneHolder(GrantFirst(rest)) && Arrived(GrantFirst(rest), arrivals)
              && NoOvertaking(GrantFirst(rest), grants + [rest[0].arrival])
  {
    var rest := Remove(q, txn);
    RemoveElements(q, txn);
    RemoveKeepsArrived(q, arrivals, txn);
    if rest != [] {
      forall i | 0 <= i < |rest| ensures !rest[i].granted && AllBelow(grants, rest[i].arrival) {
        assert rest[i] in q;
        var m :| 0 <= m < |q| && q[m] == rest[i];
      }
      assert !rest[0].granted;
    }
  }

  lemma {:induction false} ReleaseKeepsInv(s: Locks, txn: int, r: int)
    requires LocksInv(s) && r in s.queues && HasGranted(s.queues[r], txn)
    ensures LocksInv(Release(s, txn, r))
  {
    var s' := Release(s, txn, r);
    assert QueueInv(s, r);
    forall r' ensures QueueInv(s', r') {
      assert QueueInv(s, r');
      if r' == r {
        ReleaseKeepsQueue(s.queues[r], Grants(s, r), s.arrivals, txn);
      }
    }
  }

  lemma {:induction false} HolderIsHead(s: Locks, txn: int, r: int)
    requires QueueInv(s, r) && r in s.queues
    ensures HasGranted(s.queues[r], txn) <==> s.queues[r][0].txn == txn
  {
  }

  // ----- the transaction manager -----

  datatype Manager = Manager(locks: Locks, held: map<int, set<int>>, active: set<int>, graph: Graph)

  const START: Manager := Manager(Locks(map[], 0, map[]), map[], {}, map[])

  /** `Obtain` is the return of a waiting call. A release names the order in which it visits the resources. */
  datatype Op =
    | Begin(txn: int)
    | Ask(txn: int, resource: int, lockType: LockType)
    | Obtain(txn: int, resource: int)
    | ReleaseAll(txn: int, order: seq<int>)
    | Finish(txn: int, order: seq<int>)

  /** The transactions with a waiting request on the resource, which the source records as waited for. */
  function Waiting(q: seq<LockRequest>, txn: int): set<int> {
    set i | 0 <= i < |q| && q[i].txn != txn && !q[i].granted :: q[i].txn
  }

  /** The transaction has a waiting request in the queue. */
  predicate Asks(q: seq<LockRequest>, txn: int) {
    exists i :: 0 <= i < |q| && q[i].txn == txn && !q[i].granted
  }

  lemma {:induction false} WaitingIff(q: seq<LockRequest>, txn: int, t: int)
    ensures t in Waiting(q, txn) <==> t != txn && Asks(q, t)
  {
  }

  lemma {:induction false} WaitingAppend(q: seq<LockRequest>, req: LockRequest, txn: int)
    ensures Waiting(q + [req], txn) == Waiting(q, txn) + if req.txn != txn && !req.granted then {req.txn} else {}
  {
    var all := q + [req];
    assert all[|q|] == req;
    forall t | t in Waiting(q, txn) ensures t in Waiting(all, txn) {
      var i :| 0 <= i < |q| && q[i].txn == t && q[i].txn != txn && !q[i].granted;
      assert all[i] == q[i];
    }
  }

  lemma {:induction false} WaitsGrow(g: Graph, q: seq<LockRequest>, req: LockRequest, txn: int)
    ensures WithWaits(g, txn, Waiting(q + [req], txn)) ==
            if req.txn != txn && !req.granted then WithWaits(WithWaits(g, txn, Waiting(q, txn)), txn, {req.txn})
            else WithWaits(g, txn, Waiting(q, txn))
  {
    WaitingAppend(q, req, txn);
    if req.txn != txn && !req.granted {
      WaitsTwice(g, txn, Waiting(q, txn), {req.txn});
    } else {
      assert Waiting(q + [req], txn) == Waiting(q, txn);
    }
  }

  function Held(m: Manager, txn: int): set<int> {
    if txn in m.held then m.held[txn] else {}
  }

  predicate Lists(order: seq<int>, s: set<int>) {
    && (forall i :: 0 <= i < |order| ==> order[i] in s)
    && (forall r :: r in s ==> r in order)
    && (forall i, j :: 0 <= i < j < |order| ==> order[i] != order[j])
  }

  function ReleaseLocks(m: Manager, txn: int, order: seq<int>): Manager {
    Manager(ReleaseEach(m.locks, txn, order), m.held - {txn}, m.active,
            if order == [] then m.graph else Without(m.graph, txn))
  }

  /** An operation can happen: a call returns only when a lock is granted, and a release visits what is held. */
  predicate Enabled(m: Manager, op: Op) {
    match op
    case Begin(_) => true
    case Ask(_, _, _) => true
    case Obtain(txn, r) => HasGranted(Queue(m.locks, r), txn)
    case ReleaseAll(txn, order) => Lists(order, Held(m, txn))
    case Finish(txn, order) => txn in m.active && Lists(order, Held(m, txn))
  }

  function Do(m: Manager, op: Op): Manager {
    match op
    case Begin(txn) => m.(active := m.active + {txn})
    case Ask(txn, r, lockType) => m.(locks := Request(m.locks, txn, r, lockType))
    case Obtain(txn, r) =>
      m.(held := m.held[txn := Held(m, txn) + {r}],
         graph := WithWaits(m.graph, txn, Waiting(Queue(m.locks, r), txn)))
    case ReleaseAll(txn, order) => ReleaseLocks(m, txn, order)
    case Finish(txn, order) => ReleaseLocks(m, txn, order).(active := m.active - {txn})
  }

  function Run(ops: seq<Op>): Manager {
    if ops == [] then START else Do(Run(ops[..|ops| - 1]), ops[|ops| - 1])
  }

  predicate ValidRun(ops: seq<Op>) {
    ops == [] || (ValidRun(ops[..|ops| - 1]) && Enabled(Run(ops[..|ops| - 1]), ops[|ops| - 1]))
  }

  // ----- what the operations so far mean -----

  /** The transaction was begun and not finished since. */
  predicate Begun(ops: seq<Op>, txn: int) {
    if ops == [] then false
    else
      var op := ops[|ops| - 1];
      op == Begin(txn) || (!(op.Finish? && op.txn == txn) && Begun(ops[..|ops| - 1], txn))
  }

  /** The operation releases what the transaction holds. */
  predicate Releases(op: Op, txn: int) {
    (op.ReleaseAll? || op.Finish?) && op.txn == txn
  }

  /** The transaction has obtained the resource and released nothing since. */
  predicate Obtained(ops: seq<Op>, txn: int, r: int) {
    if ops == [] then false
    else
      var op := ops[|ops| - 1];
      op == Obtain(txn, r) || (!Releases(op, txn) && Obtained(ops[..|ops| - 1], txn, r))
  }

  /** In every run a transaction is active exactly when it was begun and not finished since. */
  lemma {:induction false} ActiveIff(ops: seq<Op>, txn: int)
    ensures txn in Run(ops).active <==> Begun(ops, txn)
  {
    if ops == [] {
    } else {
      ActiveIff(ops[..|ops| - 1], txn);
    }
  }

  /** It is recorded as holding exactly the resources that it has obtained and not released since. */
  lemma {:induction false} HeldIff(ops: seq<Op>, txn: int, r: int)
    ensures r in Held(Run(ops), txn) <==> Obtained(ops, txn, r)
  {
    if ops == [] {
    } else {
      HeldIff(ops[..|ops| - 1], txn, r);
    }
  }

  predicate ExclusiveOnly(ops: seq<Op>) {
    forall i :: 0 <= i < |ops| && ops[i].Ask? ==> ops[i].lockType.Exclusive?
  }

  /** What the manager believes a transaction to hold, it holds. */
  ghost predicate HeldInv(m: Manager) {
    forall t, r :: t in m.held && r in m.held[t] ==> r in m.locks.queues && HasGranted(m.locks.queues[r], t)
  }

  ghost predicate Inv(m: Manager) {
    LocksInv(m.locks) && HeldInv(m)
  }

  lemma {:induction false} HeldIsGranted(m: Manager, t: int, r: int)
    requires HeldInv(m) && r in Held(m, t)
    ensures r in m.locks.queues && HasGranted(m.locks.queues[r], t)
  {
    assert t in m.held && r in m.held[t];
  }

  /** A release of one resource takes nothing from other transactions and leaves other resources alone. */
  lemma {:induction false} ReleaseKeepsOthers(s: Locks, txn: int, r: int, t: int, r': int)
    requires r' in s.queues && HasGranted(s.queues[r'], t) && (t != txn || r' != r)
    ensures r' in Release(s, txn, r).queues && HasGranted(Release(s, txn, r).queues[r'], t)
  {
    if r' == r {
      var q := s.queues[r];
      var i :| 0 <= i < |q| && q[i].txn == t && q[i].granted;
      RemoveElements(q, txn);
      var rest := Remove(q, txn);
      assert q[i] in rest;
      var k :| 0 <= k < |rest| && rest[k] == q[i];
      assert GrantFirst(rest)[k].txn == t && GrantFirst(rest)[k].granted;
    }
  }

  lemma {:induction false} ReleaseEachKeepsOthers(s: Locks, txn: int, rs: seq<int>, t: int, r: int)
    requires r in s.queues && HasGranted(s.queues[r], t) && (t != txn || r !in rs)
    ensures r in ReleaseEach(s, txn, rs).queues && HasGranted(ReleaseEach(s, txn, rs).queues[r], t)
    decreases rs
  {
    if rs == [] {
    } else {
      ReleaseKeepsOthers(s, txn, rs[0], t, r);
      ReleaseEachKeepsOthers(Release(s, txn, rs[0]), txn, rs[1..], t, r);
    }
  }

  lemma {:induction false} ReleaseEachKeepsInv(s: Locks, txn: int, rs: seq<int>)
    requires LocksInv(s)
    requires forall i :: 0 <= i < |rs| ==> rs[i] in s.queues && HasGranted(s.queues[rs[i]], txn)
    requires forall i, j :: 0 <= i < j < |rs| ==> rs[i] != rs[j]
    ensures LocksInv(ReleaseEach(s, txn, rs))
    decreases rs
  {
    if rs == [] {
    } else {
      var s' := Release(s, txn, rs[0]);
      ReleaseKeepsInv(s, txn, rs[0]);
      forall i | 0 <= i < |rs[1..]| ensures rs[1..][i] in s'.queues && HasGranted(s'.queues[rs[1..][i]], txn) {
        ReleaseKeepsOthers(s, txn, rs[0], txn, rs[i + 1]);
      }
      ReleaseEachKeepsInv(s', txn, rs[1..]);
    }
  }

  lemma {:induction false} ReleaseLocksKeepsInv(m: Manager, txn: int, order: seq<int>)
    requires Inv(m) && Lists(order, Held(m, txn))
    ensures Inv(ReleaseLocks(m, txn, order))
  {
    forall i | 0 <= i < |order| ensures order[i] in m.locks.queues && HasGranted(m.locks.queues[order[i]], txn) {
      HeldIsGranted(m, txn, order[i]);
    }
    ReleaseEachKeepsInv(m.locks, txn, order);
    var m' := ReleaseLocks(m, txn, order);
    forall t, r | t in m'.held && r in m'.held[t]
      ensures r in m'.locks.queues && HasGranted(m'.locks.queues[r], t)
    {
      ReleaseEachKeepsOthers(m.locks, txn, order, t, r);
    }
  }

  lemma {:induction false} RequestKeepsHeld(s: Locks, txn: int, r: int, lockType: LockType, t: int, r': int)
    requires r' in s.queues && HasGranted(s.queues[r'], t)
    ensures HasGranted(Request(s, txn, r, lockType).queues[r'], t)
  {
    var q, q' := s.queues[r'], Request(s, txn, r, lockType).queues[r'];
    var i :| 0 <= i < |q| && q[i].txn == t && q[i].granted;
    assert q'[i] == q[i];
  }

  lemma {:induction false} AskKeepsInv(m: Manager, txn: int, r: int)
    requires Inv(m)
    ensures Inv(Do(m, Ask(txn, r, Exclusive)))
  {
    RequestKeepsInv(m.locks, txn, r);
    var m' := Do(m, Ask(txn, r, Exclusive));
    forall t, r' | t in m'.held && r' in m'.held[t]
      ensures r' in m'.locks.queues && HasGranted(m'.locks.queues[r'], t)
    {
      RequestKeepsHeld(m.locks, txn, r, Exclusive, t, r');
    }
  }

  lemma {:induction false} DoKeepsInv(m: Manager, op: Op)
    requires Inv(m) && Enabled(m, op) && (op.Ask? ==> op.lockType.Exclusive?)
    ensures Inv(Do(m, op))
  {
    match op
    case Ask(txn, r, _) => AskKeepsInv(m, txn, r);
    case ReleaseAll(txn, order) => ReleaseLocksKeepsInv(m, txn, order);
    case Finish(txn, order) => ReleaseLocksKeepsInv(m, txn, order);
    case _ =>
  }

  lemma {:induction false} RunKeepsInv(ops: seq<Op>)
    requires ValidRun(ops) && ExclusiveOnly(ops)
    ensures Inv(Run(ops))
  {
    if ops == [] {
    } else {
      RunKeepsInv(ops[..|ops| - 1]);
      DoKeepsInv(Run(ops[..|ops| - 1]), ops[|ops| - 1]);
    }
  }

  // ----- main results -----

  /**
   In every run with exclusive locks: no two transactions have granted requests on one resource,
   no resource with requests is left without a holder, and the manager's own records never
   give one resource to two transactions.
   */
  lemma {:induction false} MutualExclusion(ops: seq<Op>)
    requires ValidRun(ops) && ExclusiveOnly(ops)
    ensures var m := Run(ops);
            && (forall r :: r in m.locks.queues ==> SingleOwner(m.locks.queues[r]))
            && (forall t, t', r :: r in Held(m, t) && r in Held(m, t') ==> t == t')
  {
    RunKeepsInv(ops);
    var m := Run(ops);
    forall r | r in m.locks.queues ensures SingleOwner(m.locks.queues[r]) {
      assert QueueInv(m.locks, r);
    }
    forall t, t', r | r in Held(m, t) && r in Held(m, t') ensures t == t' {
      assert QueueInv(m.locks, r);
      HeldIsGranted(m, t, r);
      HeldIsGranted(m, t', r);
      HolderIsHead(m.locks, t, r);
      HolderIsHead(m.locks, t', r);
    }
  }

  /** Somebody holds the lock, and nobody else does. */
  predicate SingleOwner(q: seq<LockRequest>) {
    && (exists i :: 0 <= i < |q| && q[i].granted)
    && (forall i, j :: 0 <= i < |q| && 0 <= j < |q| && q[i].granted && q[j].granted ==> q[i].txn == q[j].txn)
  }

  /**
   In every run with exclusive locks each resource is granted in the order in which the
   requests arrived, and every grant so far came before any request that still waits behind
   another transaction.
   */
  lemma {:induction false} GrantedInArrivalOrder(ops: seq<Op>, r: int)
    requires ValidRun(ops) && ExclusiveOnly(ops)
    ensures var s := Run(ops).locks;
            && Ascending(Grants(s, r))
            && (r in s.queues ==> forall i, k ::
                 0 <= i < |s.queues[r]| && s.queues[r][i].txn != s.queues[r][0].txn && 0 <= k < |Grants(s, r)| ==>
                 !s.queues[r][i].granted && Grants(s, r)[k] < s.queues[r][i].arrival)
  {
    RunKeepsInv(ops);
    assert QueueInv(Run(ops).locks, r);
  }

  // ----- the lock manager object -----

  class LockManager {
    var lockTable: map<int, seq<LockRequest>>
    var arrivals: nat
    ghost var grants: map<int, seq<nat>>

    ghost function View(): Locks
      reads this
    {
      Locks(lockTable, arrivals, grants)
    }

    constructor ()
      ensures View() == Locks(map[], 0, map[])
    {
      lockTable, arrivals, grants := map[], 0, map[];
    }

    /** The first half of acquiring a lock, up to the point where the call may have to wait. */
    method RequestLock(txn: int, resource: int, lockType: LockType) returns (granted: bool)
      modifies this
      ensures View() == Request(old(View()), txn, resource, lockType)
      ensures granted == CanGrant(old(Queue(View(), resource)), txn, lockType)
    {
      granted := true;
      if resource !in lockTable {
        assert [] + [LockRequest(txn, lockType, true, arrivals)] == [LockRequest(txn, lockType, true, arrivals)];
        lockTable := lockTable[resource := [LockRequest(txn, lockType, true, arrivals)]];
      } else {
        var requests := lockTable[resource];
        var i := 0;
        while i < |requests| && granted
          invariant i <= |requests|
          invariant granted == CanGrant(requests[..i], txn, lockType)
        {
          assert requests[..i + 1] == requests[..i] + [requests[i]];
          if requests[i].txn != txn && (requests[i].lockType == Exclusive || lockType == Exclusive) {
            assert !CanGrant(requests[..i + 1], txn, lockType) by { assert requests[..i + 1][i] == requests[i]; }
            granted := false;
          }
          i := i + 1;
        }
        assert granted == CanGrant(requests, txn, lockType) by {
          if granted {
            assert requests[..i] == requests;
          } else {
            var j :| 0 <= j < i &&
              !(requests[..i][j].txn == txn || (requests[..i][j].lockType.Shared? && lockType.Shared?));
            assert requests[j] == requests[..i][j];
          }
        }
        lockTable := lockTable[resource := requests + [LockRequest(txn, lockType, granted, arrivals)]];
      }
      if granted {
        grants := AddGrant(old(View()), resource, arrivals);
      }
      arrivals := arrivals + 1;
    }

    /** The condition on which a waiting call returns. */
    method IsGranted(txn: int, resource: int) returns (granted: bool)
      ensures granted == HasGranted(Queue(View(), resource), txn)
    {
      granted := false;
      if resource in lockTable {
        var requests := lockTable[resource];
        for i := 0 to |requests|
          invariant granted == HasGranted(requests[..i], txn)
        {
          assert requests[..i + 1] == requests[..i] + [requests[i]];
          if requests[i].txn == txn && requests[i].granted {
            assert requests[..i + 1][i] == requests[i];
            granted := true;
          }
          assert HasGranted(requests[..i], txn) ==> HasGranted(requests[..i + 1], txn) by {
            if HasGranted(requests[..i], txn) {
              var j :| 0 <= j < i && requests[..i][j].txn == txn && requests[..i][j].granted;
              assert requests[..i + 1][j] == requests[..i][j];
            }
          }
        }
        assert requests[..|requests|] == requests;
      }
    }

    /** Drops all requests of the transaction on the resource and grants the first that waits. */
    method ReleaseLock(txn: int, resource: int)
      modifies this
      ensures View() == Release(old(View()), txn, resource)
    {
      if resource !in lockTable {
        return;
      }
      var rest := RemoveRequests(lockTable[resource], txn);
      if rest == [] {
        lockTable := lockTable - {resource};
      } else {
        var i := 0;
        while i < |rest| && rest[i].granted
          invariant i <= |rest|
          invariant forall j :: 0 <= j < i ==> rest[j].granted
        {
          i := i + 1;
        }
        FirstWaitingUnique(rest, i);
        if i < |rest| {
          grants := AddGrant(old(View()), resource, rest[i].arrival);
          rest := rest[i := rest[i].(granted := true)];
        }
        lockTable := lockTable[resource := rest];
      }
    }
  }

  lemma {:induction false} FirstWaitingUnique(q: seq<LockRequest>, i: nat)
    requires i <= |q| && (forall j :: 0 <= j < i ==> q[j].granted) && (i < |q| ==> !q[i].granted)
    ensures FirstWaiting(q) == i
  {
  }

  lemma {:induction false} RemoveConcat(a: seq<LockRequest>, b: seq<LockRequest>, txn: int)
    ensures Remove(a + b, txn) == Remove(a, txn) + Remove(b, txn)
  {
    if a == [] {
      assert a + b == b;
    } else {
      assert (a + b)[1..] == a[1..] + b;
      RemoveConcat(a[1..], b, txn);
    }
  }

  /** The remove-if loop. */
  method RemoveRequests(q: seq<LockRequest>, txn: int) returns (rest: seq<LockRequest>)
    ensures rest == Remove(q, txn)
  {
    rest := [];
    for i := 0 to |q|
      invariant rest == Remove(q[..i], txn)
    {
      assert q[..i + 1] == q[..i] + [q[i]];
      RemoveConcat(q[..i], [q[i]], txn);
      if q[i].txn != txn {
        rest := rest + [q[i]];
      }
    }
    assert q[..|q|] == q;
  }

  // ----- the transaction manager object -----

  lemma {:induction false} WithoutTwice(g: Graph, txn: int)
    ensures Without(Without(g, txn), txn) == Without(g, txn)
  {
    var once, twice := Without(g, txn), Without(Without(g, txn), txn);
    assert once.Keys == twice.Keys;
    forall t | t in once ensures once[t] == twice[t] {
      assert (g[t] - {txn}) - {txn} == g[t] - {txn};
    }
  }

  lemma {:induction false} ReleaseEachAppend(s: Locks, txn: int, rs: seq<int>, r: int)
    ensures ReleaseEach(s, txn, rs + [r]) == Release(ReleaseEach(s, txn, rs), txn, r)
    decreases rs
  {
    if rs != [] {
      assert (rs + [r])[0] == rs[0] && (rs + [r])[1..] == rs[1..] + [r];
      ReleaseEachAppend(Release(s, txn, rs[0]), txn, rs[1..], r);
    } else {
      assert ([r])[1..] == [];
    }
  }

  lemma {:induction false} Extend(ops: seq<Op>, op: Op)
    ensures Run(ops + [op]) == Do(Run(ops), op)
    ensures ValidRun(ops + [op]) <==> ValidRun(ops) && Enabled(Run(ops), op)
  {
    assert (ops + [op])[..|ops|] == ops;
  }

  class TransactionManager {
    const lockManager: LockManager
    const waits: WaitForGraph
    var txnLocks: map<int, set<int>>
    var activeTransactions: set<int>
    ghost var ops: seq<Op>

    ghost function View(): Manager
      reads this, lockManager, waits
    {
      Manager(lockManager.View(), txnLocks, activeTransactions, waits.graph)
    }

    /** The objects are in the state that the operations so far lead to. */
    ghost predicate Valid()
      reads this, lockManager, waits
    {
      ValidRun(ops) && View() == Run(ops)
    }

    constructor (lockManager: LockManager)
      requires lockManager.View() == Locks(map[], 0, map[])
      ensures Valid() && ops == [] && this.lockManager == lockManager && fresh(waits)
    {
      this.lockManager := lockManager;
      waits := new WaitForGraph();
      txnLocks, activeTransactions, ops := map[], {}, [];
    }

    ghost method Record(op: Op)
      requires ValidRun(ops) && Enabled(Run(ops), op) && View() == Do(Run(ops), op)
      modifies this`ops
      ensures Valid() && ops == old(ops) + [op]
    {
      Extend(ops, op);
      ops := ops + [op];
    }

    method BeginTransaction(txn: int)
      requires Valid()
      modifies this
      ensures Valid() && ops == old(ops) + [Begin(txn)]
    {
      activeTransactions := activeTransactions + {txn};
      Record(Begin(txn));
    }

    method RequestLock(txn: int, resource: int, lockType: LockType) returns (granted: bool)
      requires Valid()
      modifies this, lockManager
      ensures Valid() && ops == old(ops) + [Ask(txn, resource, lockType)]
    {
      granted := lockManager.RequestLock(txn, resource, lockType);
      Record(Ask(txn, resource, lockType));
    }

    /** Records that the transaction waits for whoever has a waiting request in the queue. */
    method AddWaits(txn: int, requests: seq<LockRequest>)
      modifies waits
      ensures waits.graph == WithWaits(old(waits.graph), txn, Waiting(requests, txn))
      ensures forall a, b :: Edge(waits.graph, a, b) <==>
                Edge(old(waits.graph), a, b) || (a == txn && b != txn && Asks(requests, b))
    {
      for i := 0 to |requests|
        invariant waits.graph == WithWaits(old(waits.graph), txn, Waiting(requests[..i], txn))
      {
        WaitsGrow(old(waits.graph), requests[..i], requests[i], txn);
        assert requests[..i + 1] == requests[..i] + [requests[i]];
        if requests[i].txn != txn && !requests[i].granted {
          waits.AddWait(txn, requests[i].txn);
        }
      }
      assert requests[..|requests|] == requests;
      forall t ensures t in Waiting(requests, txn) <==> t != txn && Asks(requests, t) {
        WaitingIff(requests, txn, t);
      }
    }

    /** The return of an acquiring call, if the lock has been granted; otherwise the call still waits. */
    method ObtainLock(txn: int, resource: int) returns (done: bool)
      requires Valid()
      modifies this, waits
      ensures Valid() && done == HasGranted(Queue(old(View()).locks, resource), txn)
      ensures ops == if done then old(ops) + [Obtain(txn, resource)] else old(ops)
    {
      done := lockManager.IsGranted(txn, resource);
      if done {
        txnLocks := txnLocks[txn := (if txn in txnLocks then txnLocks[txn] else {}) + {resource}];
        var requests := if resource in lockManager.lockTable then lockManager.lockTable[resource] else [];
        AddWaits(txn, requests);
        Record(Obtain(txn, resource));
      }
    }

    /** The loop over the resources of a transaction, in whatever order the set yields them. */
    method ReleaseHeld(txn: int, resources: set<int>) returns (ghost order: seq<int>)
      modifies lockManager, waits
      ensures Lists(order, resources)
      ensures lockManager.View() == ReleaseEach(old(lockManager.View()), txn, order)
      ensures waits.graph == if order == [] then old(waits.graph) else Without(old(waits.graph), txn)
    {
      order := [];
      var todo := resources;
      while todo != {}
        modifies lockManager, waits
        invariant todo <= resources && Lists(order, resources - todo)
        invariant lockManager.View() == ReleaseEach(old(lockManager.View()), txn, order)
        invariant waits.graph == if order == [] then old(waits.graph) else Without(old(waits.graph), txn)
        decreases todo
      {
        var resource := AnyOf(todo);
        lockManager.ReleaseLock(txn, resource);
        waits.RemoveTransaction(txn);
        ReleaseEachAppend(old(lockManager.View()), txn, order, resource);
        WithoutTwice(old(waits.graph), txn);
        ListsAppend(order, resources - todo, resource);
        order := order + [resource];
        todo := todo - {resource};
        assert resources - todo == resources - (todo + {resource}) + {resource};
      }
      assert resources - todo == resources;
    }

    method ReleaseLocks(txn: int)
      requires Valid()
      modifies this, lockManager, waits
      ensures Valid() && exists order :: ops == old(ops) + [ReleaseAll(txn, order)]
    {
      ghost var order: seq<int> := [];
      if txn in txnLocks {
        order := ReleaseHeld(txn, txnLocks[txn]);
        txnLocks := txnLocks - {txn};
      }
      assert txnLocks == old(txnLocks) - {txn};
      Record(ReleaseAll(txn, order));
    }

    /** Commit and rollback do the same to the locks; both do nothing for a transaction that is not active. */
    method FinishTransaction(txn: int)
      requires Valid()
      modifies this, lockManager, waits
      ensures Valid()
      ensures if Begun(old(ops), txn) then exists order :: ops == old(ops) + [Finish(txn, order)]
              else ops == old(ops)
    {
      ActiveIff(ops, txn);
      if txn in activeTransactions {
        ghost var order: seq<int> := [];
        if txn in txnLocks {
          order := ReleaseHeld(txn, txnLocks[txn]);
          txnLocks := txnLocks - {txn};
        }
        assert txnLocks == old(txnLocks) - {txn};
        activeTransactions := activeTransactions - {txn};
        Record(Finish(txn, order));
      }
    }
  }

  lemma {:induction false} ListsAppend(order: seq<int>, s: set<int>, r: int)
    requires Lists(order, s) && r !in s
    ensures Lists(order + [r], s + {r})
  {
  }
}
