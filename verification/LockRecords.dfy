/**
 What the queues and the wait-for graph hold, told from the operations so far: a request stays
 queued until its transaction releases the resource, and an edge until one of its two ends
 releases anything.
 */
module LockRecords {
  import opened DeadlockDetection
  import opened TwoPhaseLocking
  import opened MixedLocks

  // ----- the queues -----

  /** The transaction has asked for such a lock and has not released the resource since. */
  predicate Outstanding(ops: seq<Op>, r: int, txn: int, lockType: LockType) {
    if ops == [] then false
    else
      var init, op := ops[..|ops| - 1], ops[|ops| - 1];
      || op == Ask(txn, r, lockType)
      || (!(Releases(op, txn) && Obtained(init, txn, r)) && Outstanding(init, r, txn, lockType))
  }

  predicate Queued(q: seq<LockRequest>, txn: int, lockType: LockType) {
    exists i :: 0 <= i < |q| && q[i].txn == txn && q[i].lockType == lockType
  }

  lemma {:induction false} QueuedAfterRemove(q: seq<LockRequest>, gone: int, txn: int, lockType: LockType)
    ensures Queued(Remove(q, gone), txn, lockType) <==> txn != gone && Queued(q, txn, lockType)
  {
    RemoveElements(q, gone);
    var rest := Remove(q, gone);
    if Queued(rest, txn, lockType) {
      var i :| 0 <= i < |rest| && rest[i].txn == txn && rest[i].lockType == lockType;
      assert rest[i] in q;
    }
    if txn != gone && Queued(q, txn, lockType) {
      var i :| 0 <= i < |q| && q[i].txn == txn && q[i].lockType == lockType;
      assert q[i] in rest;
    }
  }

  lemma {:induction false} QueuedAfterGrant(q: seq<LockRequest>, txn: int, lockType: LockType)
    ensures Queued(GrantFirst(q), txn, lockType) <==> Queued(q, txn, lockType)
  {
    var q' := GrantFirst(q);
    assert forall i :: 0 <= i < |q| ==> q'[i].txn == q[i].txn && q'[i].lockType == q[i].lockType;
  }

  lemma {:induction false} QueuedAfterRelease(s: Locks, gone: int, r: int, txn: int, lockType: LockType)
    ensures Queued(Queue(Release(s, gone, r), r), txn, lockType) <==> txn != gone && Queued(Queue(s, r), txn, lockType)
  {
    if r in s.queues {
      QueuedAfterRemove(s.queues[r], gone, txn, lockType);
      QueuedAfterGrant(Remove(s.queues[r], gone), txn, lockType);
    }
  }

  lemma {:induction false} QueuedAfterReleases(s: Locks, gone: int, rs: seq<int>, r: int, txn: int, lockType: LockType)
    requires forall i, j :: 0 <= i < j < |rs| ==> rs[i] != rs[j]
    ensures Queued(Queue(ReleaseEach(s, gone, rs), r), txn, lockType) <==>
            !(txn == gone && r in rs) && Queued(Queue(s, r), txn, lockType)
  {
    ReleaseEachQueue(s, gone, rs, r);
    QueuedAfterRelease(s, gone, r, txn, lockType);
  }

  lemma {:induction false} QueuedAfterRequest(s: Locks, asker: int, r': int, asked: LockType,
                                              r: int, txn: int, lockType: LockType)
    ensures Queued(Queue(Request(s, asker, r', asked), r), txn, lockType) <==>
            (r == r' && txn == asker && lockType == asked) || Queued(Queue(s, r), txn, lockType)
  {
    if r == r' {
      var q, q' := Queue(s, r), Queue(Request(s, asker, r, asked), r);
      assert q'[|q|].txn == asker && q'[|q|].lockType == asked;
      assert forall i :: 0 <= i < |q| ==> q'[i] == q[i];
    }
  }

  /** In every run a resource has queued exactly the requests that were made and not released since. */
  lemma {:induction false} QueuedIff(ops: seq<Op>, r: int, txn: int, lockType: LockType)
    requires ValidRun(ops)
    ensures Queued(Queue(Run(ops).locks, r), txn, lockType) <==> Outstanding(ops, r, txn, lockType)
  {
    if ops == [] {
    } else {
      var init, op := ops[..|ops| - 1], ops[|ops| - 1];
      QueuedIff(init, r, txn, lockType);
      match op
      case Ask(asker, r', asked) => QueuedAfterRequest(Run(init).locks, asker, r', asked, r, txn, lockType);
      case ReleaseAll(gone, order) =>
        HeldIff(init, gone, r);
        QueuedAfterReleases(Run(init).locks, gone, order, r, txn, lockType);
      case Finish(gone, order) =>
        HeldIff(init, gone, r);
        QueuedAfterReleases(Run(init).locks, gone, order, r, txn, lockType);
      case _ =>
    }
  }

  /** The end of a transaction leaves no request of it on any resource that it had obtained. */
  lemma {:induction false} FinishedLeavesNoRequest(ops: seq<Op>, txn: int, order: seq<int>, r: int, lockType: LockType)
    requires ValidRun(ops) && Begun(ops, txn) && Lists(order, Held(Run(ops), txn)) && Obtained(ops, txn, r)
    ensures ValidRun(ops + [Finish(txn, order)])
    ensures !Queued(Queue(Run(ops + [Finish(txn, order)]).locks, r), txn, lockType)
  {
    ActiveIff(ops, txn);
    Extend(ops, Finish(txn, order));
    QueuedIff(ops + [Finish(txn, order)], r, txn, lockType);
    assert (ops + [Finish(txn, order)])[..|ops|] == ops;
  }

  lemma {:induction false} CanGrantIff(q: seq<LockRequest>, txn: int, lockType: LockType)
    ensures CanGrant(q, txn, lockType) <==>
            forall t, other :: t != txn && Queued(q, t, other) ==> other.Shared? && lockType.Shared?
  {
    if forall t, other :: t != txn && Queued(q, t, other) ==> other.Shared? && lockType.Shared? {
      forall i | 0 <= i < |q| ensures q[i].txn == txn || (q[i].lockType.Shared? && lockType.Shared?) {
        assert Queued(q, q[i].txn, q[i].lockType);
      }
    }
  }

  /** No other transaction has an outstanding request that excludes the lock. */
  ghost predicate NoneAgainst(ops: seq<Op>, txn: int, r: int, lockType: LockType) {
    forall t, other :: t != txn && Outstanding(ops, r, t, other) ==> other.Shared? && lockType.Shared?
  }

  lemma {:induction false} NoneAgainstIff(ops: seq<Op>, txn: int, r: int, lockType: LockType)
    requires ValidRun(ops)
    ensures NoneAgainst(ops, txn, r, lockType) <==> CanGrant(Queue(Run(ops).locks, r), txn, lockType)
  {
    var q := Queue(Run(ops).locks, r);
    CanGrantIff(q, txn, lockType);
    if NoneAgainst(ops, txn, r, lockType) {
      forall t, other | t != txn && Queued(q, t, other) ensures other.Shared? && lockType.Shared? {
        QueuedIff(ops, r, t, other);
      }
    }
    if CanGrant(q, txn, lockType) {
      forall t, other | t != txn && Outstanding(ops, r, t, other) ensures other.Shared? && lockType.Shared? {
        QueuedIff(ops, r, t, other);
      }
    }
  }

  /**
   A request is granted at once exactly when no other transaction has an outstanding request on the
   resource, or all of them and itself are for shared locks; its own requests do not stand against it.
   */
  lemma {:induction false} GrantedAtOnceIff(ops: seq<Op>, txn: int, r: int, lockType: LockType)
    requires ValidRun(ops)
    ensures var q := Queue(Run(ops + [Ask(txn, r, lockType)]).locks, r);
            && q != [] && q[|q| - 1].txn == txn && q[|q| - 1].lockType == lockType
            && (q[|q| - 1].granted <==> NoneAgainst(ops, txn, r, lockType))
  {
    Extend(ops, Ask(txn, r, lockType));
    NoneAgainstIff(ops, txn, r, lockType);
  }

  // ----- the wait-for graph -----

  /** The operation takes the transaction out of the graph: it releases something. */
  predicate Clears(op: Op, txn: int) {
    Releases(op, txn) && op.order != []
  }

  /** When `a` last obtained a lock beside a waiting request of `b`, neither has released anything since. */
  predicate Recorded(ops: seq<Op>, a: int, b: int) {
    if ops == [] then false
    else
      var init, op := ops[..|ops| - 1], ops[|ops| - 1];
      || (op.Obtain? && op.txn == a && b != a && Asks(Queue(Run(init).locks, op.resource), b))
      || (Recorded(init, a, b) && !Clears(op, a) && !Clears(op, b))
  }

  lemma {:induction false} EdgesAfterWaits(g: Graph, q: seq<LockRequest>, txn: int, a: int, b: int)
    ensures Edge(WithWaits(g, txn, Waiting(q, txn)), a, b) <==> Edge(g, a, b) || (a == txn && b != txn && Asks(q, b))
  {
    WaitingIff(q, txn, b);
  }

  /** In every run the graph has exactly the edges so recorded. */
  lemma {:induction false} EdgeIff(ops: seq<Op>, a: int, b: int)
    ensures Edge(Run(ops).graph, a, b) <==> Recorded(ops, a, b)
  {
    if ops == [] {
    } else {
      var init, op := ops[..|ops| - 1], ops[|ops| - 1];
      EdgeIff(init, a, b);
      if op.Obtain? {
        EdgesAfterWaits(Run(init).graph, Queue(Run(init).locks, op.resource), op.txn, a, b);
      }
    }
  }
}
