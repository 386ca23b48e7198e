/**
 Runs of the transaction manager with shared and exclusive locks mixed. A release grants the
 first waiting request without testing it, so granted locks stay compatible throughout a run
 exactly when every release happens to find a first waiter that is compatible with what stays.
 */
module MixedLocks {
  import opened TwoPhaseLocking

  ghost predicate AllCompatible(s: Locks) {
    forall r :: r in s.queues ==> Compatible(s.queues[r])
  }

  /** The request that a release would grant excludes none of the locks that stay. */
  predicate Admits(s: Locks, txn: int, r: int) {
    r in s.queues ==>
      var rest := Remove(s.queues[r], txn);
      var i := FirstWaiting(rest);
      i < |rest| ==> Admissible(rest, rest[i])
  }

  /** Every lock that the operation grants is compatible with those that stay. */
  predicate Sound(m: Manager, op: Op) {
    op.ReleaseAll? || op.Finish? ==> forall i :: 0 <= i < |op.order| ==> Admits(m.locks, op.txn, op.order[i])
  }

  /** A release of several resources does to each what a release of that one does. */
  lemma {:induction false} ReleaseEachQueue(s: Locks, txn: int, rs: seq<int>, r: int)
    requires forall i, j :: 0 <= i < j < |rs| ==> rs[i] != rs[j]
    ensures var s', t := ReleaseEach(s, txn, rs), if r in rs then Release(s, txn, r) else s;
            (r in s'.queues <==> r in t.queues) && (r in t.queues ==> s'.queues[r] == t.queues[r])
    decreases rs
  {
    if rs == [] {
    } else {
      ReleaseEachQueue(Release(s, txn, rs[0]), txn, rs[1..], r);
      assert r in rs <==> r == rs[0] || r in rs[1..];
    }
  }

  lemma {:induction false} ReleaseOneIff(s: Locks, txn: int, r: int)
    requires r in s.queues ==> Compatible(s.queues[r])
    ensures (r in Release(s, txn, r).queues ==> Compatible(Release(s, txn, r).queues[r])) <==> Admits(s, txn, r)
  {
    if r in s.queues {
      ReleaseCompatibleIff(s.queues[r], txn);
    }
  }

  lemma {:induction false} ReleaseEachIff(s: Locks, txn: int, rs: seq<int>)
    requires AllCompatible(s) && forall i, j :: 0 <= i < j < |rs| ==> rs[i] != rs[j]
    ensures AllCompatible(ReleaseEach(s, txn, rs)) <==> forall i :: 0 <= i < |rs| ==> Admits(s, txn, rs[i])
  {
    var s' := ReleaseEach(s, txn, rs);
    forall i | 0 <= i < |rs|
      ensures (rs[i] in s'.queues ==> Compatible(s'.queues[rs[i]])) <==> Admits(s, txn, rs[i])
    {
      ReleaseEachQueue(s, txn, rs, rs[i]);
      ReleaseOneIff(s, txn, rs[i]);
    }
    forall r | r in s'.queues && r !in rs ensures Compatible(s'.queues[r]) {
      ReleaseEachQueue(s, txn, rs, r);
    }
  }

  lemma {:induction false} RequestCompatible(s: Locks, txn: int, r: int, lockType: LockType)
    requires AllCompatible(s)
    ensures AllCompatible(Request(s, txn, r, lockType))
  {
    AcquireKeepsCompatible(Queue(s, r), txn, lockType, s.arrivals);
  }

  /** One operation keeps granted locks compatible exactly when it is sound; acquiring always is. */
  lemma {:induction false} DoCompatibleIff(m: Manager, op: Op)
    requires AllCompatible(m.locks) && Enabled(m, op)
    ensures AllCompatible(Do(m, op).locks) <==> Sound(m, op)
  {
    match op
    case Ask(txn, r, lockType) => RequestCompatible(m.locks, txn, r, lockType);
    case ReleaseAll(txn, order) => ReleaseEachIff(m.locks, txn, order);
    case Finish(txn, order) => ReleaseEachIff(m.locks, txn, order);
    case _ =>
  }

  /** Every operation of the run is sound. */
  predicate AllSound(ops: seq<Op>) {
    if ops == [] then true
    else AllSound(ops[..|ops| - 1]) && Sound(Run(ops[..|ops| - 1]), ops[|ops| - 1])
  }

  lemma {:induction false} SoundRunIsCompatible(ops: seq<Op>)
    requires ValidRun(ops) && AllSound(ops)
    ensures AllCompatible(Run(ops).locks)
  {
    if ops == [] {
    } else {
      SoundRunIsCompatible(ops[..|ops| - 1]);
      DoCompatibleIff(Run(ops[..|ops| - 1]), ops[|ops| - 1]);
    }
  }

  lemma {:induction false} PrefixIsSound(ops: seq<Op>, k: nat)
    requires ValidRun(ops) && AllSound(ops) && k <= |ops|
    ensures ValidRun(ops[..k]) && AllSound(ops[..k])
  {
    if k == |ops| {
      assert ops[..k] == ops;
    } else {
      PrefixIsSound(ops[..|ops| - 1], k);
      assert ops[..|ops| - 1][..k] == ops[..k];
    }
  }

  lemma {:induction false} CompatibleRunIsSound(ops: seq<Op>)
    requires ValidRun(ops) && forall k :: 0 <= k <= |ops| ==> AllCompatible(Run(ops[..k]).locks)
    ensures AllSound(ops)
  {
    if ops == [] {
    } else {
      var init := ops[..|ops| - 1];
      forall k | 0 <= k <= |init| ensures AllCompatible(Run(init[..k]).locks) {
        assert init[..k] == ops[..k];
      }
      CompatibleRunIsSound(init);
      assert ops[..|ops|] == ops && ops[..|init|] == init;
      assert AllCompatible(Run(ops[..|init|]).locks) && AllCompatible(Run(ops[..|ops|]).locks);
      DoCompatibleIff(Run(init), ops[|ops| - 1]);
    }
  }

  /** In runs with locks of both kinds, granted locks are compatible throughout exactly when every release is sound. */
  lemma {:induction false} CompatibleThroughoutIff(ops: seq<Op>)
    requires ValidRun(ops)
    ensures AllSound(ops) <==> forall k :: 0 <= k <= |ops| ==> AllCompatible(Run(ops[..k]).locks)
  {
    if AllSound(ops) {
      forall k | 0 <= k <= |ops| ensures AllCompatible(Run(ops[..k]).locks) {
        PrefixIsSound(ops, k);
        SoundRunIsCompatible(ops[..k]);
      }
    } else if forall k :: 0 <= k <= |ops| ==> AllCompatible(Run(ops[..k]).locks) {
      CompatibleRunIsSound(ops);
    }
  }

  // ----- what the manager records -----

  lemma {:induction false} DoKeepsHeld(m: Manager, op: Op)
    requires HeldInv(m) && Enabled(m, op)
    ensures HeldInv(Do(m, op))
  {
    var m' := Do(m, op);
    forall t, r | t in m'.held && r in m'.held[t] ensures r in m'.locks.queues && HasGranted(m'.locks.queues[r], t) {
      match op
      case Ask(txn, r', lockType) => RequestKeepsHeld(m.locks, txn, r', lockType, t, r);
      case ReleaseAll(txn, order) => ReleaseEachKeepsOthers(m.locks, txn, order, t, r);
      case Finish(txn, order) => ReleaseEachKeepsOthers(m.locks, txn, order, t, r);
      case _ =>
    }
  }

  /** In every run, whatever the locks, a transaction is recorded as holding only what it has been granted. */
  lemma {:induction false} RecordsAreGranted(ops: seq<Op>)
    requires ValidRun(ops)
    ensures HeldInv(Run(ops))
  {
    if ops == [] {
    } else {
      RecordsAreGranted(ops[..|ops| - 1]);
      DoKeepsHeld(Run(ops[..|ops| - 1]), ops[|ops| - 1]);
    }
  }

  /** All granted requests of the transaction in the queue are shared. */
  predicate HoldsShared(q: seq<LockRequest>, txn: int) {
    forall i :: 0 <= i < |q| && q[i].txn == txn && q[i].granted ==> q[i].lockType.Shared?
  }

  lemma {:induction false} BothShared(q: seq<LockRequest>, t: int, t': int)
    requires Compatible(q) && t != t' && HasGranted(q, t) && HasGranted(q, t')
    ensures HoldsShared(q, t)
  {
    var j :| 0 <= j < |q| && q[j].txn == t' && q[j].granted;
    forall i | 0 <= i < |q| && q[i].txn == t && q[i].granted ensures q[i].lockType.Shared? {
      assert i < j || j < i;
    }
  }

  /** In a sound run, two transactions recorded as holding one resource hold it with shared locks only. */
  lemma {:induction false} HoldersShare(ops: seq<Op>, t: int, t': int, r: int)
    requires ValidRun(ops) && AllSound(ops) && t != t' && r in Held(Run(ops), t) && r in Held(Run(ops), t')
    ensures var q := Queue(Run(ops).locks, r);
            HasGranted(q, t) && HasGranted(q, t') && HoldsShared(q, t) && HoldsShared(q, t')
  {
    var m := Run(ops);
    RecordsAreGranted(ops);
    SoundRunIsCompatible(ops);
    HeldIsGranted(m, t, r);
    HeldIsGranted(m, t', r);
    BothShared(m.locks.queues[r], t, t');
    BothShared(m.locks.queues[r], t', t);
  }

  // ----- who can be overtaken -----

  /** A request is granted before an earlier one of another transaction that waits only if both are shared. */
  predicate SharedOvertakeOnly(q: seq<LockRequest>) {
    forall i, j :: 0 <= i < j < |q| && !q[i].granted && q[j].granted && q[i].txn != q[j].txn ==>
      q[i].lockType.Shared? && q[j].lockType.Shared?
  }

  /** The queue is in the order of arrival. */
  predicate ByArrival(q: seq<LockRequest>, arrivals: nat) {
    && (forall i :: 0 <= i < |q| ==> q[i].arrival < arrivals)
    && (forall i, j :: 0 <= i < j < |q| ==> q[i].arrival < q[j].arrival)
  }

  ghost predicate Fair(s: Locks) {
    forall r :: r in s.queues ==> SharedOvertakeOnly(s.queues[r]) && ByArrival(s.queues[r], s.arrivals)
  }

  lemma {:induction false} ConsFair(x: LockRequest, q: seq<LockRequest>, arrivals: nat)
    requires SharedOvertakeOnly(q) && ByArrival(q, arrivals) && x.arrival < arrivals
    requires forall y :: y in q ==> x.arrival < y.arrival
    requires forall y :: y in q && !x.granted && y.granted && x.txn != y.txn ==>
             x.lockType.Shared? && y.lockType.Shared?
    ensures SharedOvertakeOnly([x] + q) && ByArrival([x] + q, arrivals)
  {
  }

  lemma {:induction false} TailFair(q: seq<LockRequest>, arrivals: nat)
    requires SharedOvertakeOnly(q) && ByArrival(q, arrivals) && q != []
    ensures SharedOvertakeOnly(q[1..]) && ByArrival(q[1..], arrivals)
    ensures forall y :: y in q[1..] ==> q[0].arrival < y.arrival
    ensures forall y :: y in q[1..] && !q[0].granted && y.granted && q[0].txn != y.txn ==>
              q[0].lockType.Shared? && y.lockType.Shared?
  {
    forall y | y in q[1..]
      ensures q[0].arrival < y.arrival
      ensures !q[0].granted && y.granted && q[0].txn != y.txn ==> q[0].lockType.Shared? && y.lockType.Shared?
    {
      var m :| 0 <= m < |q[1..]| && q[1..][m] == y;
      assert q[m + 1] == y;
    }
  }

  lemma {:induction false} RemoveFair(q: seq<LockRequest>, txn: int, arrivals: nat)
    requires SharedOvertakeOnly(q) && ByArrival(q, arrivals)
    ensures SharedOvertakeOnly(Remove(q, txn)) && ByArrival(Remove(q, txn), arrivals)
  {
    if q == [] {
    } else {
      TailFair(q, arrivals);
      RemoveFair(q[1..], txn, arrivals);
      if q[0].txn != txn {
        RemoveElements(q[1..], txn);
        ConsFair(q[0], Remove(q[1..], txn), arrivals);
      }
    }
  }

  /** The first waiting request has nobody waiting before it. */
  lemma {:induction false} GrantFirstFair(q: seq<LockRequest>, arrivals: nat)
    requires SharedOvertakeOnly(q) && ByArrival(q, arrivals)
    ensures SharedOvertakeOnly(GrantFirst(q)) && ByArrival(GrantFirst(q), arrivals)
  {
  }

  lemma {:induction false} ReleaseFair(s: Locks, txn: int, r: int)
    requires Fair(s)
    ensures Fair(Release(s, txn, r)) && Release(s, txn, r).arrivals == s.arrivals
  {
    if r in s.queues {
      RemoveFair(s.queues[r], txn, s.arrivals);
      GrantFirstFair(Remove(s.queues[r], txn), s.arrivals);
    }
  }

  lemma {:induction false} ReleaseEachFair(s: Locks, txn: int, rs: seq<int>)
    requires Fair(s)
    ensures Fair(ReleaseEach(s, txn, rs))
    decreases rs
  {
    if rs == [] {
    } else {
      ReleaseFair(s, txn, rs[0]);
      ReleaseEachFair(Release(s, txn, rs[0]), txn, rs[1..]);
    }
  }

  lemma {:induction false} RequestFair(s: Locks, txn: int, r: int, lockType: LockType)
    requires Fair(s)
    ensures Fair(Request(s, txn, r, lockType))
  {
    var s', q := Request(s, txn, r, lockType), Queue(s, r);
    forall r' | r' in s'.queues ensures SharedOvertakeOnly(s'.queues[r']) && ByArrival(s'.queues[r'], s'.arrivals) {
      if r' == r {
        assert SharedOvertakeOnly(q) && ByArrival(q, s.arrivals);
      }
    }
  }

  /**
   In every run, whatever the locks, queues are in the order of arrival, and a request that waits
   is overtaken by another transaction's only if both are shared; so an exclusive request never is.
   */
  lemma {:induction false} OnlySharedIsOvertaken(ops: seq<Op>)
    ensures Fair(Run(ops).locks)
  {
    if ops == [] {
    } else {
      var m, op := Run(ops[..|ops| - 1]), ops[|ops| - 1];
      OnlySharedIsOvertaken(ops[..|ops| - 1]);
      match op
      case Ask(txn, r, lockType) => RequestFair(m.locks, txn, r, lockType);
      case ReleaseAll(txn, order) => ReleaseEachFair(m.locks, txn, order);
      case Finish(txn, order) => ReleaseEachFair(m.locks, txn, order);
      case _ =>
    }
  }

  // ----- when nobody is passed -----

  /** A lock is granted to a new request while an earlier one, the same transaction's included, waits. */
  predicate Passes(m: Manager, op: Op) {
    op.Ask? &&
    var q := Queue(m.locks, op.resource);
    CanGrant(q, op.txn, op.lockType) && exists i :: 0 <= i < |q| && !q[i].granted
  }

  /** Every request that waits came after all requests that were granted on its resource. */
  predicate QueueUnpassed(q: seq<LockRequest>, grants: seq<nat>) {
    forall i :: 0 <= i < |q| && !q[i].granted ==> AllBelow(grants, q[i].arrival)
  }

  ghost predicate NonePassed(s: Locks) {
    forall r :: QueueUnpassed(Queue(s, r), Grants(s, r))
  }

  /** What was granted has arrived. */
  ghost predicate GrantsArrived(s: Locks) {
    forall r :: AllBelow(Grants(s, r), s.arrivals)
  }

  lemma {:induction false} RequestArrived(s: Locks, txn: int, r: int, lockType: LockType)
    requires GrantsArrived(s)
    ensures GrantsArrived(Request(s, txn, r, lockType))
  {
    var s' := Request(s, txn, r, lockType);
    forall r' ensures AllBelow(Grants(s', r'), s'.arrivals) {
      assert AllBelow(Grants(s, r'), s.arrivals);
    }
  }

  lemma {:induction false} ReleaseArrived(s: Locks, txn: int, r: int)
    requires Fair(s) && GrantsArrived(s)
    ensures GrantsArrived(Release(s, txn, r))
  {
    var s' := Release(s, txn, r);
    forall r' ensures AllBelow(Grants(s', r'), s'.arrivals) {
      assert AllBelow(Grants(s, r'), s.arrivals);
      if r' == r && r in s.queues {
        RemoveFair(s.queues[r], txn, s.arrivals);
      }
    }
  }

  lemma {:induction false} RemoveUnpassed(q: seq<LockRequest>, grants: seq<nat>, txn: int)
    requires QueueUnpassed(q, grants)
    ensures QueueUnpassed(Remove(q, txn), grants)
  {
    var rest := Remove(q, txn);
    RemoveElements(q, txn);
    forall j | 0 <= j < |rest| && !rest[j].granted ensures AllBelow(grants, rest[j].arrival) {
      assert rest[j] in q;
      var m :| 0 <= m < |q| && q[m] == rest[j];
    }
  }

  lemma {:induction false} ReleaseQueueUnpassed(q: seq<LockRequest>, grants: seq<nat>, arrivals: nat, txn: int)
    requires SharedOvertakeOnly(q) && ByArrival(q, arrivals) && QueueUnpassed(q, grants)
    ensures var rest := Remove(q, txn);
            var i := FirstWaiting(rest);
            QueueUnpassed(GrantFirst(rest), if i < |rest| then grants + [rest[i].arrival] else grants)
  {
    var rest := Remove(q, txn);
    RemoveFair(q, txn, arrivals);
    RemoveUnpassed(q, grants, txn);
  }

  /** A release passes nobody: it grants the request that has waited longest. */
  lemma {:induction false} ReleaseUnpassed(s: Locks, txn: int, r: int)
    requires Fair(s) && NonePassed(s)
    ensures NonePassed(Release(s, txn, r))
  {
    var s' := Release(s, txn, r);
    forall r' ensures QueueUnpassed(Queue(s', r'), Grants(s', r')) {
      assert QueueUnpassed(Queue(s, r'), Grants(s, r'));
      if r' == r && r in s.queues {
        ReleaseQueueUnpassed(s.queues[r], Grants(s, r), s.arrivals, txn);
      }
    }
  }

  lemma {:induction false} ReleaseEachUnpassed(s: Locks, txn: int, rs: seq<int>)
    requires Fair(s) && GrantsArrived(s)
    ensures GrantsArrived(ReleaseEach(s, txn, rs))
    ensures NonePassed(s) ==> NonePassed(ReleaseEach(s, txn, rs))
    decreases rs
  {
    if rs == [] {
    } else {
      var s' := Release(s, txn, rs[0]);
      ReleaseFair(s, txn, rs[0]);
      ReleaseArrived(s, txn, rs[0]);
      if NonePassed(s) {
        ReleaseUnpassed(s, txn, rs[0]);
      }
      ReleaseEachUnpassed(s', txn, rs[1..]);
    }
  }

  lemma {:induction false} RequestUnpassedIff(m: Manager, txn: int, r: int, lockType: LockType)
    requires Fair(m.locks) && GrantsArrived(m.locks) && NonePassed(m.locks)
    ensures NonePassed(Request(m.locks, txn, r, lockType)) <==> !Passes(m, Ask(txn, r, lockType))
  {
    var s, s', q := m.locks, Request(m.locks, txn, r, lockType), Queue(m.locks, r);
    var q', grants' := Queue(s', r), Grants(s', r);
    assert QueueUnpassed(q, Grants(s, r)) && AllBelow(Grants(s, r), s.arrivals);
    if Passes(m, Ask(txn, r, lockType)) {
      var i :| 0 <= i < |q| && !q[i].granted;
      assert q'[i] == q[i] && q[i].arrival < s.arrivals && grants'[|Grants(s, r)|] == s.arrivals;
    } else {
      forall r' ensures QueueUnpassed(Queue(s', r'), Grants(s', r')) {
        assert QueueUnpassed(Queue(s, r'), Grants(s, r'));
      }
    }
  }

  /** One operation lets a waiting request be passed exactly when it is an acquisition granted past it. */
  lemma {:induction false} DoUnpassedIff(m: Manager, op: Op)
    requires Fair(m.locks) && GrantsArrived(m.locks) && NonePassed(m.locks)
    ensures NonePassed(Do(m, op).locks) <==> !Passes(m, op)
  {
    match op
    case Ask(txn, r, lockType) => RequestUnpassedIff(m, txn, r, lockType);
    case ReleaseAll(txn, order) => ReleaseEachUnpassed(m.locks, txn, order);
    case Finish(txn, order) => ReleaseEachUnpassed(m.locks, txn, order);
    case _ =>
  }

  lemma {:induction false} RunArrived(ops: seq<Op>)
    ensures Fair(Run(ops).locks) && GrantsArrived(Run(ops).locks)
  {
    OnlySharedIsOvertaken(ops);
    if ops == [] {
    } else {
      var m, op := Run(ops[..|ops| - 1]), ops[|ops| - 1];
      RunArrived(ops[..|ops| - 1]);
      match op
      case Ask(txn, r, lockType) => RequestArrived(m.locks, txn, r, lockType);
      case ReleaseAll(txn, order) => ReleaseEachUnpassed(m.locks, txn, order);
      case Finish(txn, order) => ReleaseEachUnpassed(m.locks, txn, order);
      case _ =>
    }
  }

  /** No operation of the run passes a waiting request. */
  predicate NeverPasses(ops: seq<Op>) {
    if ops == [] then true
    else NeverPasses(ops[..|ops| - 1]) && !Passes(Run(ops[..|ops| - 1]), ops[|ops| - 1])
  }

  lemma {:induction false} NeverPassingLeavesNone(ops: seq<Op>, k: nat)
    requires NeverPasses(ops) && k <= |ops|
    ensures NonePassed(Run(ops[..k]).locks)
  {
    if ops == [] {
    } else if k < |ops| {
      NeverPassingLeavesNone(ops[..|ops| - 1], k);
      assert ops[..|ops| - 1][..k] == ops[..k];
    } else {
      var init := ops[..|ops| - 1];
      NeverPassingLeavesNone(init, |init|);
      assert init[..|init|] == init && ops[..k] == ops;
      RunArrived(init);
      DoUnpassedIff(Run(init), ops[|ops| - 1]);
    }
  }

  lemma {:induction false} NonePassedNeverPasses(ops: seq<Op>)
    requires forall k :: 0 <= k <= |ops| ==> NonePassed(Run(ops[..k]).locks)
    ensures NeverPasses(ops)
  {
    if ops == [] {
    } else {
      var init := ops[..|ops| - 1];
      forall k | 0 <= k <= |init| ensures NonePassed(Run(init[..k]).locks) {
        assert init[..k] == ops[..k];
      }
      NonePassedNeverPasses(init);
      assert ops[..|ops|] == ops && ops[..|init|] == init;
      assert NonePassed(Run(ops[..|init|]).locks) && NonePassed(Run(ops[..|ops|]).locks);
      RunArrived(init);
      DoUnpassedIff(Run(init), ops[|ops| - 1]);
    }
  }

  /**
   In every run, whatever the locks: throughout, nothing has been granted on a resource that came
   later than a request waiting there, exactly when no lock is ever granted to a new request while
   another waits on its resource.
   */
  lemma {:induction false} NonePassedThroughoutIff(ops: seq<Op>)
    ensures NeverPasses(ops) <==> forall k :: 0 <= k <= |ops| ==> NonePassed(Run(ops[..k]).locks)
  {
    if NeverPasses(ops) {
      forall k | 0 <= k <= |ops| ensures NonePassed(Run(ops[..k]).locks) {
        NeverPassingLeavesNone(ops, k);
      }
    } else if forall k :: 0 <= k <= |ops| ==> NonePassed(Run(ops[..k]).locks) {
      NonePassedNeverPasses(ops);
    }
  }

  ghost predicate GrantsAscend(s: Locks) {
    forall r :: Ascending(Grants(s, r))
  }

  lemma {:induction false} ReleaseAscends(s: Locks, txn: int, r: int)
    requires NonePassed(s) && GrantsAscend(s)
    ensures GrantsAscend(Release(s, txn, r))
  {
    var s' := Release(s, txn, r);
    forall r' ensures Ascending(Grants(s', r')) {
      assert Ascending(Grants(s, r'));
      if r' == r && r in s.queues {
        assert QueueUnpassed(Queue(s, r), Grants(s, r));
        RemoveUnpassed(s.queues[r], Grants(s, r), txn);
      }
    }
  }

  lemma {:induction false} ReleaseEachAscends(s: Locks, txn: int, rs: seq<int>)
    requires Fair(s) && NonePassed(s) && GrantsAscend(s)
    ensures GrantsAscend(ReleaseEach(s, txn, rs))
    decreases rs
  {
    if rs == [] {
    } else {
      ReleaseFair(s, txn, rs[0]);
      ReleaseUnpassed(s, txn, rs[0]);
      ReleaseAscends(s, txn, rs[0]);
      ReleaseEachAscends(Release(s, txn, rs[0]), txn, rs[1..]);
    }
  }

  lemma {:induction false} RequestAscends(s: Locks, txn: int, r: int, lockType: LockType)
    requires GrantsArrived(s) && GrantsAscend(s)
    ensures GrantsAscend(Request(s, txn, r, lockType))
  {
    var s' := Request(s, txn, r, lockType);
    forall r' ensures Ascending(Grants(s', r')) {
      assert Ascending(Grants(s, r')) && AllBelow(Grants(s, r'), s.arrivals);
    }
  }

  /** In such runs, whatever the locks, each resource is granted in the order in which the requests arrived. */
  lemma {:induction false} UnpassedGrantsAscend(ops: seq<Op>)
    requires NeverPasses(ops)
    ensures GrantsAscend(Run(ops).locks)
  {
    if ops == [] {
    } else {
      var init, op := ops[..|ops| - 1], ops[|ops| - 1];
      var m := Run(init);
      UnpassedGrantsAscend(init);
      RunArrived(init);
      NeverPassingLeavesNone(init, |init|);
      assert init[..|init|] == init;
      match op
      case Ask(txn, r, lockType) => RequestAscends(m.locks, txn, r, lockType);
      case ReleaseAll(txn, order) => ReleaseEachAscends(m.locks, txn, order);
      case Finish(txn, order) => ReleaseEachAscends(m.locks, txn, order);
      case _ =>
    }
  }

  // ----- when grants are in the order of arrival -----

  /** The request that a release would grant came after all that were granted on the resource. */
  predicate InTurn(s: Locks, txn: int, r: int) {
    r in s.queues ==>
      var rest := Remove(s.queues[r], txn);
      var i := FirstWaiting(rest);
      i < |rest| ==> AllBelow(Grants(s, r), rest[i].arrival)
  }

  predicate GrantsInTurn(m: Manager, op: Op) {
    op.ReleaseAll? || op.Finish? ==> forall i :: 0 <= i < |op.order| ==> InTurn(m.locks, op.txn, op.order[i])
  }

  lemma {:induction false} AscendingAppend(grants: seq<nat>, arrival: nat)
    requires Ascending(grants)
    ensures Ascending(grants + [arrival]) <==> AllBelow(grants, arrival)
  {
    var all := grants + [arrival];
    if Ascending(all) {
      forall i | 0 <= i < |grants| ensures grants[i] < arrival {
        assert all[i] < all[|grants|];
      }
    }
  }

  lemma {:induction false} ReleaseOneInTurnIff(s: Locks, txn: int, r: int)
    requires Ascending(Grants(s, r))
    ensures Ascending(Grants(Release(s, txn, r), r)) <==> InTurn(s, txn, r)
  {
    if r in s.queues {
      var rest := Remove(s.queues[r], txn);
      var i := FirstWaiting(rest);
      if i < |rest| {
        AscendingAppend(Grants(s, r), rest[i].arrival);
      }
    }
  }

  lemma {:induction false} ReleaseEachGrants(s: Locks, txn: int, rs: seq<int>, r: int)
    requires forall i, j :: 0 <= i < j < |rs| ==> rs[i] != rs[j]
    ensures Grants(ReleaseEach(s, txn, rs), r) == Grants(if r in rs then Release(s, txn, r) else s, r)
    decreases rs
  {
    if rs == [] {
    } else {
      ReleaseEachGrants(Release(s, txn, rs[0]), txn, rs[1..], r);
      assert r in rs <==> r == rs[0] || r in rs[1..];
    }
  }

  lemma {:induction false} ReleaseEachInTurnIff(s: Locks, txn: int, rs: seq<int>)
    requires GrantsAscend(s) && forall i, j :: 0 <= i < j < |rs| ==> rs[i] != rs[j]
    ensures GrantsAscend(ReleaseEach(s, txn, rs)) <==> forall i :: 0 <= i < |rs| ==> InTurn(s, txn, rs[i])
  {
    var s' := ReleaseEach(s, txn, rs);
    forall i | 0 <= i < |rs| ensures Ascending(Grants(s', rs[i])) <==> InTurn(s, txn, rs[i]) {
      ReleaseEachGrants(s, txn, rs, rs[i]);
      assert Ascending(Grants(s, rs[i]));
      ReleaseOneInTurnIff(s, txn, rs[i]);
    }
    forall r | r !in rs ensures Ascending(Grants(s', r)) {
      ReleaseEachGrants(s, txn, rs, r);
      assert Ascending(Grants(s, r));
    }
  }

  lemma {:induction false} DoInTurnIff(m: Manager, op: Op)
    requires GrantsArrived(m.locks) && GrantsAscend(m.locks) && Enabled(m, op)
    ensures GrantsAscend(Do(m, op).locks) <==> GrantsInTurn(m, op)
  {
    match op
    case Ask(txn, r, lockType) => RequestAscends(m.locks, txn, r, lockType);
    case ReleaseAll(txn, order) => ReleaseEachInTurnIff(m.locks, txn, order);
    case Finish(txn, order) => ReleaseEachInTurnIff(m.locks, txn, order);
    case _ =>
  }

  /** Every release of the run grants in turn. */
  predicate AllInTurn(ops: seq<Op>) {
    if ops == [] then true
    else AllInTurn(ops[..|ops| - 1]) && GrantsInTurn(Run(ops[..|ops| - 1]), ops[|ops| - 1])
  }

  lemma {:induction false} InTurnAscends(ops: seq<Op>, k: nat)
    requires ValidRun(ops) && AllInTurn(ops) && k <= |ops|
    ensures GrantsAscend(Run(ops[..k]).locks)
  {
    if ops == [] {
    } else if k < |ops| {
      InTurnAscends(ops[..|ops| - 1], k);
      assert ops[..|ops| - 1][..k] == ops[..k];
    } else {
      var init := ops[..|ops| - 1];
      InTurnAscends(init, |init|);
      assert init[..|init|] == init && ops[..k] == ops;
      RunArrived(init);
      DoInTurnIff(Run(init), ops[|ops| - 1]);
    }
  }

  lemma {:induction false} AscendingInTurn(ops: seq<Op>)
    requires ValidRun(ops) && forall k :: 0 <= k <= |ops| ==> GrantsAscend(Run(ops[..k]).locks)
    ensures AllInTurn(ops)
  {
    if ops == [] {
    } else {
      var init := ops[..|ops| - 1];
      forall k | 0 <= k <= |init| ensures GrantsAscend(Run(init[..k]).locks) {
        assert init[..k] == ops[..k];
      }
      AscendingInTurn(init);
      assert ops[..|ops|] == ops && ops[..|init|] == init;
      assert GrantsAscend(Run(ops[..|init|]).locks) && GrantsAscend(Run(ops[..|ops|]).locks);
      RunArrived(init);
      DoInTurnIff(Run(init), ops[|ops| - 1]);
    }
  }

  /**
   In every run, whatever the locks, each resource is granted in the order of arrival throughout
   exactly when every request that a release grants came after all granted on the resource before.
   */
  lemma {:induction false} GrantedInOrderIff(ops: seq<Op>)
    requires ValidRun(ops)
    ensures AllInTurn(ops) <==> forall k :: 0 <= k <= |ops| ==> GrantsAscend(Run(ops[..k]).locks)
  {
    if AllInTurn(ops) {
      forall k | 0 <= k <= |ops| ensures GrantsAscend(Run(ops[..k]).locks) {
        InTurnAscends(ops, k);
      }
    } else if forall k :: 0 <= k <= |ops| ==> GrantsAscend(Run(ops[..k]).locks) {
      AscendingInTurn(ops);
    }
  }

  // ----- two runs that fail -----

  /** Transaction 1 and two others ask for a resource, and transaction 1 obtains it and releases it. */
  function ThreeAsk(r: int, first: LockType, b: int, second: LockType, c: int, third: LockType): seq<Op> {
    [Ask(1, r, first), Ask(b, r, second), Ask(c, r, third), Obtain(1, r), ReleaseAll(1, [r])]
  }

  function ThreeRequests(r: int, first: LockType, b: int, second: LockType, c: int, third: LockType): Locks {
    Request(Request(Request(START.locks, 1, r, first), b, r, second), c, r, third)
  }

  lemma {:induction false} FirstIsGranted(r: int, first: LockType, b: int, second: LockType, c: int, third: LockType)
    ensures HasGranted(Queue(ThreeRequests(r, first, b, second, c, third), r), 1)
  {
    var q := Queue(ThreeRequests(r, first, b, second, c, third), r);
    assert q[0].txn == 1 && q[0].granted;
  }

  lemma {:induction false} ThreeAskRun(r: int, first: LockType, b: int, second: LockType, c: int, third: LockType)
    ensures ValidRun(ThreeAsk(r, first, b, second, c, third))
    ensures Run(ThreeAsk(r, first, b, second, c, third)).locks ==
            Release(ThreeRequests(r, first, b, second, c, third), 1, r)
  {
    var s := ThreeRequests(r, first, b, second, c, third);
    var o1, o2 := [Ask(1, r, first)], [Ask(1, r, first), Ask(b, r, second)];
    var o3 := o2 + [Ask(c, r, third)];
    var o4 := o3 + [Obtain(1, r)];
    assert o1 == [] + [Ask(1, r, first)] && o2 == o1 + [Ask(b, r, second)];
    Extend([], Ask(1, r, first));
    Extend(o1, Ask(b, r, second));
    Extend(o2, Ask(c, r, third));
    assert Run(o3).locks == s && Run(o3).held == map[];
    FirstIsGranted(r, first, b, second, c, third);
    Extend(o3, Obtain(1, r));
    assert Held(Run(o4), 1) == {r} && Lists([r], {r});
    Extend(o4, ReleaseAll(1, [r]));
    assert ReleaseEach(s, 1, [r]) == Release(s, 1, r);
    assert ThreeAsk(r, first, b, second, c, third) == o4 + [ReleaseAll(1, [r])];
  }

  /** Two readers and a waiting writer: when one reader leaves, the writer holds the lock beside the other. */
  lemma {:induction false} RunCanBreakCompatibility(r: int)
    ensures var ops := ThreeAsk(r, Shared, 2, Shared, 3, Exclusive);
            ValidRun(ops) && !AllCompatible(Run(ops).locks)
  {
    var x, y, z := LockRequest(1, Shared, true, 0), LockRequest(2, Shared, true, 1),
      LockRequest(3, Exclusive, false, 2);
    var s := ThreeRequests(r, Shared, 2, Shared, 3, Exclusive);
    ThreeAskRun(r, Shared, 2, Shared, 3, Exclusive);
    ReleaseCanBreakCompatibility();
    assert !CanGrant([x, y], 3, Exclusive) by { assert [x, y][0] == x; }
    assert s.queues[r] == [x, y, z];
    assert Release(s, 1, r).queues[r] == Released([x, y, z], 1) by { StaysQueued([x, y, z], 1, y); }
  }

  lemma {:induction false} StaysQueued(q: seq<LockRequest>, txn: int, y: LockRequest)
    requires y in q && y.txn != txn
    ensures Remove(q, txn) != []
  {
    RemoveElements(q, txn);
    assert y in Remove(q, txn);
  }

  /** A reader that waits behind a writer is passed when the writer asks for a shared lock as well. */
  lemma {:induction false} SharedCanBeOvertaken(r: int)
    ensures var ops := ThreeAsk(r, Exclusive, 2, Shared, 1, Shared);
            && ValidRun(ops) && Passes(Run(ops[..2]), ops[2])
            && Grants(Run(ops).locks, r) == [0, 2, 1] && !GrantsAscend(Run(ops).locks)
  {
    var ops := ThreeAsk(r, Exclusive, 2, Shared, 1, Shared);
    ThreeAskRun(r, Exclusive, 2, Shared, 1, Shared);
    OvertakenGrants(r);
    assert !Ascending([0, 2, 1]) by { assert [0, 2, 1][1] == 2 && [0, 2, 1][2] == 1; }
    OvertakingStep(r);
  }

  lemma {:induction false} OvertakingStep(r: int)
    ensures var ops := ThreeAsk(r, Exclusive, 2, Shared, 1, Shared);
            Passes(Run(ops[..2]), ops[2])
  {
    var ops := ThreeAsk(r, Exclusive, 2, Shared, 1, Shared);
    var o1 := [Ask(1, r, Exclusive)];
    assert o1 == [] + [Ask(1, r, Exclusive)] && ops[..2] == o1 + [Ask(2, r, Shared)];
    Extend([], Ask(1, r, Exclusive));
    Extend(o1, Ask(2, r, Shared));
    var q := Queue(Run(ops[..2]).locks, r);
    assert q == [LockRequest(1, Exclusive, true, 0), LockRequest(2, Shared, false, 1)] by {
      OvertakenQueue(r);
    }
    assert !q[1].granted;
  }

  lemma {:induction false} OvertakenQueue(r: int)
    ensures Request(Request(START.locks, 1, r, Exclusive), 2, r, Shared).queues[r] ==
            [LockRequest(1, Exclusive, true, 0), LockRequest(2, Shared, false, 1)]
    ensures Grants(Request(Request(START.locks, 1, r, Exclusive), 2, r, Shared), r) == [0]
  {
    var x, w := LockRequest(1, Exclusive, true, 0), LockRequest(2, Shared, false, 1);
    var s1 := Request(START.locks, 1, r, Exclusive);
    assert s1.queues[r] == [x] && s1.grants[r] == [0];
    assert !CanGrant([x], 2, Shared) by { assert [x][0] == x; }
    assert [x] + [w] == [x, w];
  }

  lemma {:induction false} OvertakenGrants(r: int)
    ensures Grants(Release(ThreeRequests(r, Exclusive, 2, Shared, 1, Shared), 1, r), r) == [0, 2, 1]
  {
    var x, w := LockRequest(1, Exclusive, true, 0), LockRequest(2, Shared, false, 1);
    var y := LockRequest(1, Shared, true, 2);
    var s := ThreeRequests(r, Exclusive, 2, Shared, 1, Shared);
    OvertakenQueue(r);
    assert s.queues[r] == [x, w, y] && s.grants[r] == [0, 2];
    assert [x, w, y][1..] == [w, y] && [w, y][1..] == [y] && [y][1..] == [];
    assert Remove([y], 1) == [];
    assert Remove([w, y], 1) == [w];
    assert Remove([x, w, y], 1) == [w];
    assert FirstWaiting([w]) == 0;
  }

  /** A waiting writer can be passed too, by a shared request of its own transaction. */
  lemma {:induction false} WriterPassedByOwn(r: int)
    ensures var ops := ThreeAsk(r, Shared, 2, Exclusive, 2, Shared);
            ValidRun(ops) && Passes(Run(ops[..2]), ops[2])
  {
    var ops := ThreeAsk(r, Shared, 2, Exclusive, 2, Shared);
    var o1, x, w := [Ask(1, r, Shared)], LockRequest(1, Shared, true, 0), LockRequest(2, Exclusive, false, 1);
    ThreeAskRun(r, Shared, 2, Exclusive, 2, Shared);
    assert o1 == [] + [Ask(1, r, Shared)] && ops[..2] == o1 + [Ask(2, r, Exclusive)];
    Extend([], Ask(1, r, Shared));
    Extend(o1, Ask(2, r, Exclusive));
    assert Run(o1).locks.queues[r] == [x];
    assert !CanGrant([x], 2, Exclusive) by { assert [x][0] == x; }
    var q := Queue(Run(ops[..2]).locks, r);
    assert q == [x, w];
    assert !q[1].granted;
  }
}
