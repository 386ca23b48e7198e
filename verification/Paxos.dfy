/**
 The proposers and acceptors of the consensus component. A proposer sends its prepare messages
 and then its accept messages to the acceptors one after the other; each exchange holds that
 acceptor's mutex and is one atomic step, and the steps of different proposers interleave
 freely. Every proposer works with the full list of acceptors.

 Proposal numbers are counted by each proposer for itself, so two proposers can use one
 number; the node part of a proposal id is never set and never compared.
 */
module Paxos {
  import opened Sets

  type Value = int

  datatype AcceptorState = AcceptorState(promised: nat, accepted: nat, acceptedVal: Value)

  /** Prepare: refused unless the number is above every promise made. */
  function OnPrepare(a: AcceptorState, n: nat): AcceptorState {
    if a.promised >= n then a else a.(promised := n)
  }

  predicate Promises(a: AcceptorState, n: nat) {
    a.promised < n
  }

  /** Accept: refused only if a larger number was promised; the promise itself is left as it is. */
  function OnAccept(a: AcceptorState, n: nat, v: Value): AcceptorState {
    if a.promised > n then a else a.(accepted := n, acceptedVal := v)
  }

  predicate Accepts(a: AcceptorState, n: nat) {
    a.promised <= n
  }

  // ----- the system -----

  /** How far a proposer is: the acceptor it sends to next and the answers in its favour so far. */
  datatype Phase = Idle | Preparing(next: nat, promises: nat) | Accepting(next: nat, accepts: nat)

  datatype ProposerState = ProposerState(number: nat, value: Value, phase: Phase)

  /** A promise or an acceptance that was given. */
  datatype Promise = Promise(acceptor: nat, number: nat, proposer: nat)
  datatype Acceptance = Acceptance(acceptor: nat, number: nat, proposer: nat, value: Value)

  /** The records of promises, acceptances, accept phases entered and values proposed only ever grow. */
  datatype System = System(acceptors: seq<AcceptorState>, proposers: seq<ProposerState>,
                           promised: set<Promise>, accepted: set<Acceptance>,
                           entered: set<(nat, nat)>, proposed: map<(nat, nat), Value>)

  datatype Step = Start(p: nat, v: Value) | Prepare(p: nat) | EndPrepare(p: nat) | Accept(p: nat) | EndAccept(p: nat)

  function Majority(numAcceptors: nat): nat {
    numAcceptors / 2 + 1
  }

  function Initial(numProposers: nat, numAcceptors: nat): System {
    System(seq(numAcceptors, _ => AcceptorState(0, 0, 0)), seq(numProposers, _ => ProposerState(0, 0, Idle)),
           {}, {}, {}, map[])
  }

  predicate Enabled(s: System, st: Step) {
    st.p < |s.proposers| &&
    var ph := s.proposers[st.p].phase;
    match st
    case Start(_, _) => ph.Idle?
    case Prepare(_) => ph.Preparing? && ph.next < |s.acceptors|
    case EndPrepare(_) => ph.Preparing? && ph.next == |s.acceptors|
    case Accept(_) => ph.Accepting? && ph.next < |s.acceptors|
    case EndAccept(_) => ph.Accepting? && ph.next == |s.acceptors|
  }

  function SetProposer(s: System, p: nat, q: ProposerState): System
    requires p < |s.proposers|
  {
    s.(proposers := s.proposers[p := q])
  }

  function Next(s: System, st: Step): System
    requires Enabled(s, st)
  {
    var p, q := st.p, s.proposers[st.p];
    match st
    case Start(_, v) =>
      SetProposer(s, p, ProposerState(q.number + 1, v, Preparing(0, 0)))
      .(proposed := s.proposed[(p, q.number + 1) := v])
    case Prepare(_) =>
      var i := q.phase.next;
      var a := s.acceptors[i];
      var ok := Promises(a, q.number);
      SetProposer(s, p, q.(phase := Preparing(i + 1, q.phase.promises + (if ok then 1 else 0))))
      .(acceptors := s.acceptors[i := OnPrepare(a, q.number)],
        promised := if ok then s.promised + {Promise(i, q.number, p)} else s.promised)
    case EndPrepare(_) =>
      if q.phase.promises < Majority(|s.acceptors|) then SetProposer(s, p, q.(phase := Idle))
      else SetProposer(s, p, q.(phase := Accepting(0, 0))).(entered := s.entered + {(p, q.number)})
    case Accept(_) =>
      var i := q.phase.next;
      var a := s.acceptors[i];
      var ok := Accepts(a, q.number);
      SetProposer(s, p, q.(phase := Accepting(i + 1, q.phase.accepts + (if ok then 1 else 0))))
      .(acceptors := s.acceptors[i := OnAccept(a, q.number, q.value)],
        accepted := if ok then s.accepted + {Acceptance(i, q.number, p, q.value)} else s.accepted)
    case EndAccept(_) => SetProposer(s, p, q.(phase := Idle))
  }

  /** The states of a run, each following from the one before by an enabled step. */
  ghost predicate IsRun(run: seq<System>, steps: seq<Step>, numProposers: nat, numAcceptors: nat) {
    && |run| == |steps| + 1 && run[0] == Initial(numProposers, numAcceptors)
    && forall i :: 0 <= i < |steps| ==> Enabled(run[i], steps[i]) && run[i + 1] == Next(run[i], steps[i])
  }

  // ----- quorums -----

  /** A majority is more than half, and nothing more. */
  lemma {:induction false} MajorityIsMoreThanHalf(k: nat, numAcceptors: nat)
    ensures k >= Majority(numAcceptors) <==> 2 * k > numAcceptors
  {
  }

  ghost function Promisers(s: System, n: nat, p: nat): set<nat> {
    set a: nat | a < |s.acceptors| && Promise(a, n, p) in s.promised
  }

  lemma {:induction false} SubsetSize<T>(a: set<T>, b: set<T>)
    requires a <= b
    ensures |a| <= |b|
  {
    assert b == a + (b - a);
  }

  ghost function Below(n: nat): (s: set<nat>)
    ensures forall a: nat :: a in s <==> a < n
    ensures |s| == n
  {
    if n == 0 then {} else Below(n - 1) + {n - 1}
  }

  /** Two majorities of one list have a member in common. */
  lemma {:induction false} MajoritiesMeet(a: set<nat>, b: set<nat>, n: nat) returns (x: nat)
    requires a <= Below(n) && b <= Below(n) && |a| >= Majority(n) && |b| >= Majority(n)
    ensures x in a && x in b
  {
    SubsetSize(a + b, Below(n));
    assert |a + b| + |a * b| == |a| + |b|;
    HasElement(a * b);
    x :| x in a * b;
  }

  // ----- the invariant -----

  /** An acceptor promises a number to one proposer only, and never goes back below it. */
  ghost predicate PromisesInv(s: System) {
    && (forall x, y :: x in s.promised && y in s.promised && x.acceptor == y.acceptor && x.number == y.number ==>
        x == y)
    && (forall x :: x in s.promised ==>
          x.acceptor < |s.acceptors| && x.number <= s.acceptors[x.acceptor].promised)
  }

  /** A proposer has counted the promises for its number, and everybody it has asked is at or past that number. */
  ghost predicate ProposerInv(s: System, p: nat)
    requires p < |s.proposers|
  {
    var q := s.proposers[p];
    && (forall x :: x in s.promised && x.proposer == p ==> x.number <= q.number)
    && (forall n :: (p, n) in s.entered ==> n <= q.number)
    && (forall n :: (p, n) in s.proposed ==> n <= q.number)
    && (q.phase.Preparing? ==>
          && q.phase.next <= |s.acceptors| && q.phase.promises == |Promisers(s, q.number, p)|
          && (forall x :: x in s.promised && x.proposer == p && x.number == q.number ==> x.acceptor < q.phase.next)
          && (forall j :: 0 <= j < q.phase.next ==> s.acceptors[j].promised >= q.number)
          && (p, q.number) !in s.entered)
    && (q.phase.Accepting? ==>
          && q.phase.next <= |s.acceptors| && (p, q.number) in s.entered
          && (forall j :: 0 <= j < |s.acceptors| ==> s.acceptors[j].promised >= q.number))
    && (!q.phase.Idle? ==> (p, q.number) in s.proposed && s.proposed[(p, q.number)] == q.value)
  }

  /** Whoever is in the accept phase for a number had a majority of promises for it. */
  ghost predicate EnteredInv(s: System) {
    forall e :: e in s.entered ==> e.0 < |s.proposers| && |Promisers(s, e.1, e.0)| >= Majority(|s.acceptors|)
  }

  /** Acceptances come from accept phases and carry the value proposed; acceptors hold what they accepted. */
  ghost predicate AcceptedInv(s: System) {
    && (forall x :: x in s.accepted ==>
          && (x.proposer, x.number) in s.entered
          && (x.proposer, x.number) in s.proposed && s.proposed[(x.proposer, x.number)] == x.value)
    && (forall i :: 0 <= i < |s.acceptors| ==>
          && s.acceptors[i].accepted <= s.acceptors[i].promised
          && (s.acceptors[i].accepted > 0 ==> exists p ::
                Acceptance(i, s.acceptors[i].accepted, p, s.acceptors[i].acceptedVal) in s.accepted))
  }

  ghost predicate Inv(s: System) {
    && PromisesInv(s) && EnteredInv(s) && AcceptedInv(s)
    && forall p :: 0 <= p < |s.proposers| ==> ProposerInv(s, p)
  }

  lemma {:induction false} InitialInv(numProposers: nat, numAcceptors: nat)
    ensures Inv(Initial(numProposers, numAcceptors))
  {
  }

  lemma {:induction false} PromisersGrow(s: System, s': System, n: nat, p: nat)
    requires |s.acceptors| == |s'.acceptors| && s.promised <= s'.promised
    ensures Promisers(s, n, p) <= Promisers(s', n, p)
    ensures |Promisers(s, n, p)| <= |Promisers(s', n, p)|
  {
    SubsetSize(Promisers(s, n, p), Promisers(s', n, p));
  }

  // ----- every step keeps the invariant -----

  lemma {:induction false} StartKeepsInv(s: System, p: nat, v: Value)
    requires Inv(s) && Enabled(s, Start(p, v))
    ensures Inv(Next(s, Start(p, v)))
  {
    var s' := Next(s, Start(p, v));
    var n := s.proposers[p].number + 1;
    assert ProposerInv(s, p);
    assert (p, n) !in s.proposed && (p, n) !in s.entered;
    assert forall m, q :: Promisers(s', m, q) == Promisers(s, m, q);
    assert Promisers(s', n, p) == {};
    forall q | 0 <= q < |s'.proposers| ensures ProposerInv(s', q) {
      assert ProposerInv(s, q);
    }
  }

  lemma {:induction false} PrepareKeepsPromises(s: System, p: nat)
    requires Inv(s) && Enabled(s, Prepare(p))
    ensures PromisesInv(Next(s, Prepare(p)))
    ensures s.promised <= Next(s, Prepare(p)).promised
  {
  }

  /** The promise just given is counted; nobody else's count changes. */
  lemma {:induction false} PrepareCounts(s: System, p: nat, n: nat, q: nat)
    requires Inv(s) && Enabled(s, Prepare(p))
    ensures var s', me := Next(s, Prepare(p)), s.proposers[p];
            var i := me.phase.next;
            if q == p && n == me.number && Promises(s.acceptors[i], me.number)
            then |Promisers(s', n, q)| == |Promisers(s, n, q)| + 1
            else Promisers(s', n, q) == Promisers(s, n, q)
  {
    var s', me := Next(s, Prepare(p)), s.proposers[p];
    var i := me.phase.next;
    assert ProposerInv(s, p);
    if Promises(s.acceptors[i], me.number) {
      PromisersAdd(s, s', i, me.number, p, n, q);
    }
  }

  lemma {:induction false} PromisersAdd(s: System, s': System, i: nat, m: nat, p: nat, n: nat, q: nat)
    requires |s.acceptors| == |s'.acceptors| && i < |s.acceptors|
    requires s'.promised == s.promised + {Promise(i, m, p)} && Promise(i, m, p) !in s.promised
    ensures if q == p && n == m then |Promisers(s', n, q)| == |Promisers(s, n, q)| + 1
            else Promisers(s', n, q) == Promisers(s, n, q)
  {
    if q == p && n == m {
      assert Promisers(s', n, q) == Promisers(s, n, q) + {i};
      assert i !in Promisers(s, n, q);
    } else {
      assert Promisers(s', n, q) == Promisers(s, n, q);
    }
  }

  lemma {:induction false} PrepareKeepsProposer(s: System, p: nat, q: nat)
    requires Inv(s) && Enabled(s, Prepare(p)) && q < |s.proposers|
    ensures ProposerInv(Next(s, Prepare(p)), q)
  {
    var s' := Next(s, Prepare(p));
    assert ProposerInv(s, q) && ProposerInv(s, p);
    PrepareCounts(s, p, s.proposers[q].number, q);
  }

  lemma {:induction false} PrepareKeepsEntered(s: System, p: nat)
    requires Inv(s) && Enabled(s, Prepare(p))
    ensures EnteredInv(Next(s, Prepare(p)))
  {
    var s' := Next(s, Prepare(p));
    forall e | e in s'.entered ensures |Promisers(s', e.1, e.0)| >= Majority(|s'.acceptors|) {
      PromisersGrow(s, s', e.1, e.0);
    }
  }

  lemma {:induction false} PrepareKeepsInv(s: System, p: nat)
    requires Inv(s) && Enabled(s, Prepare(p))
    ensures Inv(Next(s, Prepare(p)))
  {
    PrepareKeepsPromises(s, p);
    PrepareKeepsEntered(s, p);
    forall q | 0 <= q < |s.proposers| ensures ProposerInv(Next(s, Prepare(p)), q) {
      PrepareKeepsProposer(s, p, q);
    }
  }

  lemma {:induction false} EndPrepareKeepsInv(s: System, p: nat)
    requires Inv(s) && Enabled(s, EndPrepare(p))
    ensures Inv(Next(s, EndPrepare(p)))
  {
    var s' := Next(s, EndPrepare(p));
    assert ProposerInv(s, p);
    assert forall m, q :: Promisers(s', m, q) == Promisers(s, m, q);
    forall q | 0 <= q < |s'.proposers| ensures ProposerInv(s', q) {
      assert ProposerInv(s, q);
    }
  }

  lemma {:induction false} AcceptKeepsAccepted(s: System, p: nat)
    requires Inv(s) && Enabled(s, Accept(p))
    ensures AcceptedInv(Next(s, Accept(p)))
  {
    var s', me := Next(s, Accept(p)), s.proposers[p];
    assert ProposerInv(s, p);
    forall i | 0 <= i < |s'.acceptors|
      ensures && s'.acceptors[i].accepted <= s'.acceptors[i].promised
              && (s'.acceptors[i].accepted > 0 ==> exists q ::
                    Acceptance(i, s'.acceptors[i].accepted, q, s'.acceptors[i].acceptedVal) in s'.accepted)
    {
      if i == me.phase.next && Accepts(s.acceptors[i], me.number) {
        assert Acceptance(i, me.number, p, me.value) in s'.accepted;
      } else if s.acceptors[i].accepted > 0 {
        var q :| Acceptance(i, s.acceptors[i].accepted, q, s.acceptors[i].acceptedVal) in s.accepted;
        assert Acceptance(i, s'.acceptors[i].accepted, q, s'.acceptors[i].acceptedVal) in s'.accepted;
      }
    }
  }

  lemma {:induction false} AcceptKeepsInv(s: System, p: nat)
    requires Inv(s) && Enabled(s, Accept(p))
    ensures Inv(Next(s, Accept(p)))
  {
    var s' := Next(s, Accept(p));
    assert ProposerInv(s, p);
    assert forall m, q :: Promisers(s', m, q) == Promisers(s, m, q);
    AcceptKeepsAccepted(s, p);
    forall q | 0 <= q < |s'.proposers| ensures ProposerInv(s', q) {
      assert ProposerInv(s, q);
    }
  }

  lemma {:induction false} EndAcceptKeepsInv(s: System, p: nat)
    requires Inv(s) && Enabled(s, EndAccept(p))
    ensures Inv(Next(s, EndAccept(p)))
  {
    var s' := Next(s, EndAccept(p));
    assert forall m, q :: Promisers(s', m, q) == Promisers(s, m, q);
    forall q | 0 <= q < |s'.proposers| ensures ProposerInv(s', q) {
      assert ProposerInv(s, q);
    }
  }

  lemma {:induction false} StepKeepsInv(s: System, st: Step)
    requires Inv(s) && Enabled(s, st)
    ensures Inv(Next(s, st))
  {
    match st
    case Start(p, v) => StartKeepsInv(s, p, v);
    case Prepare(p) => PrepareKeepsInv(s, p);
    case EndPrepare(p) => EndPrepareKeepsInv(s, p);
    case Accept(p) => AcceptKeepsInv(s, p);
    case EndAccept(p) => EndAcceptKeepsInv(s, p);
  }

  lemma {:induction false} RunKeepsInv(run: seq<System>, steps: seq<Step>, numProposers: nat, numAcceptors: nat, i: nat)
    requires IsRun(run, steps, numProposers, numAcceptors) && i < |run|
    ensures Inv(run[i]) && |run[i].acceptors| == numAcceptors
  {
    if i == 0 {
      InitialInv(numProposers, numAcceptors);
    } else {
      RunKeepsInv(run, steps, numProposers, numAcceptors, i - 1);
      StepKeepsInv(run[i - 1], steps[i - 1]);
    }
  }

  // ----- main results -----

  /** At most one proposer gets into the accept phase for a number: their majorities would meet. */
  lemma {:induction false} OneProposerPerNumber(s: System, p: nat, p': nat, n: nat)
    requires Inv(s) && (p, n) in s.entered && (p', n) in s.entered
    ensures p == p'
  {
    var x := MajoritiesMeet(Promisers(s, n, p), Promisers(s, n, p'), |s.acceptors|);
    assert Promise(x, n, p) in s.promised && Promise(x, n, p') in s.promised;
  }

  /** Acceptors that last accepted the same number hold the same value. */
  predicate SameNumberSameValue(a: AcceptorState, b: AcceptorState) {
    a.accepted == b.accepted && a.accepted > 0 ==> a.acceptedVal == b.acceptedVal
  }

  /**
   In every reachable state of every interleaving: all acceptances of one number come from one
   proposer and carry one value, so acceptors that last accepted the same number hold the same
   value; and no acceptor has accepted beyond what it promised.
   */
  lemma {:induction false} OneValuePerNumber(run: seq<System>, steps: seq<Step>, numProposers: nat, numAcceptors: nat,
                                             i: nat)
    requires IsRun(run, steps, numProposers, numAcceptors) && i < |run|
    ensures forall x, y :: x in run[i].accepted && y in run[i].accepted && x.number == y.number ==>
              x.proposer == y.proposer && x.value == y.value
    ensures forall a, b :: 0 <= a < |run[i].acceptors| && 0 <= b < |run[i].acceptors| ==>
              SameNumberSameValue(run[i].acceptors[a], run[i].acceptors[b])
    ensures forall a :: 0 <= a < |run[i].acceptors| ==> run[i].acceptors[a].accepted <= run[i].acceptors[a].promised
  {
    RunKeepsInv(run, steps, numProposers, numAcceptors, i);
    var s := run[i];
    forall x, y | x in s.accepted && y in s.accepted && x.number == y.number
      ensures x.proposer == y.proposer && x.value == y.value
    {
      OneProposerPerNumber(s, x.proposer, y.proposer, x.number);
    }
    forall a, b | 0 <= a < |s.acceptors| && 0 <= b < |s.acceptors|
      ensures SameNumberSameValue(s.acceptors[a], s.acceptors[b])
    {
      var n := s.acceptors[a].accepted;
      if n > 0 && s.acceptors[b].accepted == n {
        var p :| Acceptance(a, n, p, s.acceptors[a].acceptedVal) in s.accepted;
        var q :| Acceptance(b, n, q, s.acceptors[b].acceptedVal) in s.accepted;
      }
    }
  }

  /** One step never lowers what an acceptor has promised or accepted. */
  lemma {:induction false} StepRaisesNumbers(s: System, st: Step, a: nat)
    requires Inv(s) && Enabled(s, st) && a < |s.acceptors|
    ensures |Next(s, st).acceptors| == |s.acceptors|
    ensures s.acceptors[a].promised <= Next(s, st).acceptors[a].promised
    ensures s.acceptors[a].accepted <= Next(s, st).acceptors[a].accepted
  {
    assert ProposerInv(s, st.p);
  }

  lemma {:induction false} NumbersRiseOnce(run: seq<System>, steps: seq<Step>, numProposers: nat, numAcceptors: nat,
                                           j: nat, a: nat)
    requires IsRun(run, steps, numProposers, numAcceptors) && j + 1 < |run| && a < numAcceptors
    ensures |run[j].acceptors| == |run[j + 1].acceptors| == numAcceptors
    ensures run[j].acceptors[a].promised <= run[j + 1].acceptors[a].promised
    ensures run[j].acceptors[a].accepted <= run[j + 1].acceptors[a].accepted
  {
    RunKeepsInv(run, steps, numProposers, numAcceptors, j);
    StepRaisesNumbers(run[j], steps[j], a);
  }

  /** Over a whole run, promised and accepted numbers never decrease. */
  lemma {:induction false} NumbersNeverDecrease(run: seq<System>, steps: seq<Step>, numProposers: nat,
                                                numAcceptors: nat, i: nat, j: nat, a: nat)
    requires IsRun(run, steps, numProposers, numAcceptors) && i <= j < |run| && a < numAcceptors
    ensures |run[i].acceptors| == |run[j].acceptors| == numAcceptors
    ensures run[i].acceptors[a].promised <= run[j].acceptors[a].promised
    ensures run[i].acceptors[a].accepted <= run[j].acceptors[a].accepted
    decreases j - i
  {
    if i == j {
      RunKeepsInv(run, steps, numProposers, numAcceptors, i);
    } else {
      NumbersNeverDecrease(run, steps, numProposers, numAcceptors, i, j - 1, a);
      NumbersRiseOnce(run, steps, numProposers, numAcceptors, j - 1, a);
    }
  }

  // ----- what success means -----

  /** The acceptors that have accepted the current proposal of p. */
  ghost function AcceptorsOf(s: System, p: nat): set<nat>
    requires p < |s.proposers|
  {
    var q := s.proposers[p];
    set a: nat | a < |s.acceptors| && Acceptance(a, q.number, p, q.value) in s.accepted
  }

  /** A proposer in its accept phase has counted the acceptances of its proposal. */
  ghost predicate AcceptCount(s: System, p: nat)
    requires p < |s.proposers|
  {
    var q := s.proposers[p];
    q.phase.Accepting? ==>
      && q.phase.accepts == |AcceptorsOf(s, p)|
      && forall x :: x in s.accepted && x.proposer == p && x.number == q.number ==> x.acceptor < q.phase.next
  }

  /** No acceptor has gone back below a number it accepted. */
  ghost predicate NotBelowAccepted(s: System) {
    forall x :: x in s.accepted ==> x.acceptor < |s.acceptors| && x.number <= s.acceptors[x.acceptor].accepted
  }

  ghost predicate Counted(s: System) {
    Inv(s) && NotBelowAccepted(s) && forall p :: 0 <= p < |s.proposers| ==> AcceptCount(s, p)
  }

  lemma {:induction false} StepKeepsAccepted(s: System, st: Step)
    requires Inv(s) && NotBelowAccepted(s) && Enabled(s, st)
    ensures NotBelowAccepted(Next(s, st))
  {
    var s' := Next(s, st);
    assert ProposerInv(s, st.p);
    forall x | x in s'.accepted ensures x.acceptor < |s'.acceptors| && x.number <= s'.acceptors[x.acceptor].accepted {
      if x in s.accepted {
        StepRaisesNumbers(s, st, x.acceptor);
      }
    }
  }

  lemma {:induction false} AcceptIsCounted(s: System, p: nat)
    requires Inv(s) && Enabled(s, Accept(p)) && AcceptCount(s, p)
    ensures AcceptCount(Next(s, Accept(p)), p)
  {
    var s', q := Next(s, Accept(p)), s.proposers[p];
    var i := q.phase.next;
    if Accepts(s.acceptors[i], q.number) {
      assert AcceptorsOf(s', p) == AcceptorsOf(s, p) + {i};
      assert i !in AcceptorsOf(s, p);
    } else {
      assert AcceptorsOf(s', p) == AcceptorsOf(s, p);
    }
  }

  lemma {:induction false} StepKeepsCount(s: System, st: Step, p: nat)
    requires Inv(s) && p < |s.proposers| && AcceptCount(s, p) && Enabled(s, st)
    ensures AcceptCount(Next(s, st), p)
  {
    var s' := Next(s, st);
    assert ProposerInv(s, p);
    if st.Accept? && st.p == p {
      AcceptIsCounted(s, p);
    } else if st.p == p {
      // the accept phase is entered with a number that nobody has accepted yet
      assert st.EndPrepare? ==> AcceptorsOf(s', p) == {};
    } else {
      assert AcceptorsOf(s', p) == AcceptorsOf(s, p);
    }
  }

  lemma {:induction false} StepKeepsCounted(s: System, st: Step)
    requires Counted(s) && Enabled(s, st)
    ensures Counted(Next(s, st))
  {
    StepKeepsInv(s, st);
    StepKeepsAccepted(s, st);
    forall p | 0 <= p < |Next(s, st).proposers| ensures AcceptCount(Next(s, st), p) {
      StepKeepsCount(s, st, p);
    }
  }

  lemma {:induction false} RunIsCounted(run: seq<System>, steps: seq<Step>, numProposers: nat, numAcceptors: nat,
                                        i: nat)
    requires IsRun(run, steps, numProposers, numAcceptors) && i < |run|
    ensures Counted(run[i]) && |run[i].acceptors| == numAcceptors
  {
    RunKeepsInv(run, steps, numProposers, numAcceptors, i);
    if i == 0 {
    } else {
      RunIsCounted(run, steps, numProposers, numAcceptors, i - 1);
      StepKeepsCounted(run[i - 1], steps[i - 1]);
    }
  }

  /**
   Whatever the others do meanwhile: when a proposer has sent all its accept messages, it reports
   success exactly when a majority has accepted its number with its value, and none of these will
   ever hold a smaller number.
   */
  lemma {:induction false} SuccessMeansAccepted(run: seq<System>, steps: seq<Step>, numProposers: nat,
                                                numAcceptors: nat, i: nat, p: nat)
    requires IsRun(run, steps, numProposers, numAcceptors) && i < |run| && p < |run[i].proposers|
    requires run[i].proposers[p].phase.Accepting? && run[i].proposers[p].phase.next == numAcceptors
    ensures var q := run[i].proposers[p];
            && (q.phase.accepts >= Majority(numAcceptors) <==> |AcceptorsOf(run[i], p)| >= Majority(numAcceptors))
            && forall j, a :: i <= j < |run| && a in AcceptorsOf(run[i], p) ==>
                 a < |run[j].acceptors| && run[j].acceptors[a].accepted >= q.number
  {
    RunIsCounted(run, steps, numProposers, numAcceptors, i);
    assert AcceptCount(run[i], p);
    forall j, a | i <= j < |run| && a in AcceptorsOf(run[i], p)
      ensures a < |run[j].acceptors| && run[j].acceptors[a].accepted >= run[i].proposers[p].number
    {
      NumbersNeverDecrease(run, steps, numProposers, numAcceptors, i, j, a);
    }
  }

  // ----- one proposal without interference -----

  function Count(s: seq<AcceptorState>, n: nat): nat {
    if s == [] then 0 else Count(s[..|s| - 1], n) + (if Promises(s[|s| - 1], n) then 1 else 0)
  }

  function CountAccepts(s: seq<AcceptorState>, n: nat): nat {
    if s == [] then 0 else CountAccepts(s[..|s| - 1], n) + (if Accepts(s[|s| - 1], n) then 1 else 0)
  }

  function PrepareAll(s: seq<AcceptorState>, n: nat): seq<AcceptorState> {
    seq(|s|, i requires 0 <= i < |s| => OnPrepare(s[i], n))
  }

  function AcceptAll(s: seq<AcceptorState>, n: nat, v: Value): seq<AcceptorState> {
    seq(|s|, i requires 0 <= i < |s| => OnAccept(s[i], n, v))
  }

  /** Whoever promises also accepts when nothing comes between. */
  lemma {:induction false} PromisersAccept(s: seq<AcceptorState>, n: nat)
    ensures Count(s, n) <= CountAccepts(PrepareAll(s, n), n)
  {
    if s == [] {
    } else {
      var init := s[..|s| - 1];
      PromisersAccept(init, n);
      assert PrepareAll(s, n)[..|s| - 1] == PrepareAll(init, n);
    }
  }

  function CountHolding(s: seq<AcceptorState>, n: nat, v: Value): nat {
    if s == [] then 0
    else CountHolding(s[..|s| - 1], n, v) + (if s[|s| - 1].accepted == n && s[|s| - 1].acceptedVal == v then 1 else 0)
  }

  lemma {:induction false} AcceptorsHold(s: seq<AcceptorState>, n: nat, v: Value)
    ensures CountAccepts(s, n) <= CountHolding(AcceptAll(s, n, v), n, v)
  {
    if s == [] {
    } else {
      var init := s[..|s| - 1];
      AcceptorsHold(init, n, v);
      assert AcceptAll(s, n, v)[..|s| - 1] == AcceptAll(init, n, v);
    }
  }

  /** A majority of the acceptors holds the value under the number. */
  predicate Chosen(s: seq<AcceptorState>, n: nat, v: Value) {
    CountHolding(s, n, v) >= Majority(|s|)
  }

  /** What a proposal that no other disturbs leaves behind. */
  function Proposal(s: seq<AcceptorState>, n: nat, v: Value): seq<AcceptorState> {
    if Count(s, n) >= Majority(|s|) then AcceptAll(PrepareAll(s, n), n, v) else PrepareAll(s, n)
  }

  /** The acceptors that have promised only smaller numbers. */
  ghost function WouldPromise(s: seq<AcceptorState>, n: nat): set<nat> {
    set i: nat | i < |s| && s[i].promised < n
  }

  lemma {:induction false} CountIsSet(s: seq<AcceptorState>, n: nat)
    ensures Count(s, n) == |WouldPromise(s, n)|
  {
    if s == [] {
      assert WouldPromise(s, n) == {};
    } else {
      var init, last := s[..|s| - 1], |s| - 1;
      CountIsSet(init, n);
      assert WouldPromise(s, n) == WouldPromise(init, n) + if s[last].promised < n then {last} else {};
    }
  }

  /** The acceptors that hold the value under the number. */
  ghost function Holders(s: seq<AcceptorState>, n: nat, v: Value): set<nat> {
    set i: nat | i < |s| && s[i].accepted == n && s[i].acceptedVal == v
  }

  lemma {:induction false} ChosenIsMoreThanHalf(s: seq<AcceptorState>, n: nat, v: Value)
    ensures CountHolding(s, n, v) == |Holders(s, n, v)|
    ensures Chosen(s, n, v) <==> 2 * |Holders(s, n, v)| > |s|
  {
    if s == [] {
      assert Holders(s, n, v) == {};
    } else {
      var init, last := s[..|s| - 1], |s| - 1;
      ChosenIsMoreThanHalf(init, n, v);
      assert Holders(s, n, v) ==
             Holders(init, n, v) + if s[last].accepted == n && s[last].acceptedVal == v then {last} else {};
    }
  }

  lemma {:induction false} PreparedHold(s: seq<AcceptorState>, n: nat, m: nat, w: Value)
    ensures CountHolding(PrepareAll(s, n), m, w) == CountHolding(s, m, w)
  {
    if s == [] {
    } else {
      var init := s[..|s| - 1];
      PreparedHold(init, n, m, w);
      assert PrepareAll(s, n)[..|s| - 1] == PrepareAll(init, n);
    }
  }

  /** An acceptor holds one number and one value, so two majorities cannot hold different ones. */
  lemma {:induction false} HoldersAreApart(s: seq<AcceptorState>, m: nat, w: Value, n: nat, v: Value)
    requires (m, w) != (n, v)
    ensures CountHolding(s, m, w) + CountHolding(s, n, v) <= |s|
  {
    if s == [] {
    } else {
      HoldersAreApart(s[..|s| - 1], m, w, n, v);
    }
  }

  /**
   There is no agreement across numbers: a proposal that no other disturbs replaces what was
   chosen by its own value exactly when its number is above the promises of a majority, and else
   leaves it chosen. The prepare answers carry no accepted value it could adopt.
   */
  lemma {:induction false} LaterProposalReplacesChosenValue(s: seq<AcceptorState>, n: nat, v: Value, m: nat, w: Value)
    requires Chosen(s, m, w) && (m, w) != (n, v)
    ensures Chosen(Proposal(s, n, v), m, w) <==> Count(s, n) < Majority(|s|)
    ensures Chosen(Proposal(s, n, v), n, v) <==> Count(s, n) >= Majority(|s|)
  {
    PreparedHold(s, n, m, w);
    HoldersAreApart(PrepareAll(s, n), m, w, n, v);
    if Count(s, n) >= Majority(|s|) {
      PromisersAccept(s, n);
      AcceptorsHold(PrepareAll(s, n), n, v);
      HoldersAreApart(Proposal(s, n, v), m, w, n, v);
    }
  }

  // ----- any value can be chosen in any run -----

  function Last(run: seq<System>): System
    requires run != []
  {
    run[|run| - 1]
  }

  /** Only proposer p has done anything. */
  predicate OnlyMoves(s: System, s': System, p: nat) {
    |s'.proposers| == |s.proposers| && forall q :: 0 <= q < |s.proposers| && q != p ==>
      s'.proposers[q] == s.proposers[q]
  }

  lemma {:induction false} TakeStep(run: seq<System>, steps: seq<Step>, numProposers: nat, numAcceptors: nat, st: Step)
    returns (run': seq<System>, steps': seq<Step>)
    requires IsRun(run, steps, numProposers, numAcceptors) && Enabled(Last(run), st)
    ensures IsRun(run', steps', numProposers, numAcceptors) && run <= run' && Last(run') == Next(Last(run), st)
    ensures OnlyMoves(Last(run), Last(run'), st.p)
  {
    run', steps' := run + [Next(Last(run), st)], steps + [st];
  }

  lemma {:induction false} CountFront(a: AcceptorState, s: seq<AcceptorState>, n: nat)
    ensures Count([a] + s, n) == (if Promises(a, n) then 1 else 0) + Count(s, n)
  {
    if s == [] {
      assert [a] + s == [a];
      assert Count([a][..0], n) == 0;
    } else {
      CountFront(a, s[..|s| - 1], n);
      assert ([a] + s)[..|s|] == [a] + s[..|s| - 1];
    }
  }

  /** From s to s', proposer p alone has sent the rest of its prepare messages. */
  ghost predicate PreparesRest(s: System, s': System, p: nat) {
    && p < |s.proposers| && s.proposers[p].phase.Preparing? && s.proposers[p].phase.next <= |s.acceptors|
    && var q := s.proposers[p];
       var rest := s.acceptors[q.phase.next..];
       && s'.acceptors == s.acceptors[..q.phase.next] + PrepareAll(rest, q.number)
       && s'.proposers == s.proposers[p := ProposerState(q.number, q.value,
                                             Preparing(|s.acceptors|, q.phase.promises + Count(rest, q.number)))]
  }

  lemma {:induction false} PrepareOneMore(acceptors: seq<AcceptorState>, i: nat, n: nat)
    requires i < |acceptors|
    ensures var next := acceptors[i := OnPrepare(acceptors[i], n)];
            && next[..i + 1] + PrepareAll(next[i + 1..], n) == acceptors[..i] + PrepareAll(acceptors[i..], n)
            && Count(acceptors[i..], n) == (if Promises(acceptors[i], n) then 1 else 0) + Count(next[i + 1..], n)
  {
    var next := acceptors[i := OnPrepare(acceptors[i], n)];
    assert acceptors[i..] == [acceptors[i]] + next[i + 1..];
    CountFront(acceptors[i], next[i + 1..], n);
  }

  lemma {:induction false} PrepareFirst(s: System, s': System, p: nat)
    requires Enabled(s, Prepare(p)) && PreparesRest(Next(s, Prepare(p)), s', p)
    ensures PreparesRest(s, s', p)
  {
    PrepareOneMore(s.acceptors, s.proposers[p].phase.next, s.proposers[p].number);
  }

  /** The prepare phase of a proposer that nobody disturbs. */
  lemma {:induction false} PrepareRest(run: seq<System>, steps: seq<Step>, numProposers: nat, numAcceptors: nat, p: nat)
    returns (run': seq<System>, steps': seq<Step>)
    requires IsRun(run, steps, numProposers, numAcceptors) && p < |Last(run).proposers|
    requires Last(run).proposers[p].phase.Preparing? && Last(run).proposers[p].phase.next <= |Last(run).acceptors|
    ensures IsRun(run', steps', numProposers, numAcceptors) && run <= run' && PreparesRest(Last(run), Last(run'), p)
    decreases |Last(run).acceptors| - Last(run).proposers[p].phase.next
  {
    if Last(run).proposers[p].phase.next == |Last(run).acceptors| {
      run', steps' := run, steps;
    } else {
      var run1, steps1 := TakeStep(run, steps, numProposers, numAcceptors, Prepare(p));
      run', steps' := PrepareRest(run1, steps1, numProposers, numAcceptors, p);
      PrepareFirst(Last(run), Last(run'), p);
    }
  }

  /** From s to s', proposer p alone has sent the rest of its accept messages. */
  ghost predicate AcceptsRest(s: System, s': System, p: nat) {
    && p < |s.proposers| && s.proposers[p].phase.Accepting? && s.proposers[p].phase.next <= |s.acceptors|
    && var q := s.proposers[p];
       && s'.acceptors == s.acceptors[..q.phase.next] + AcceptAll(s.acceptors[q.phase.next..], q.number, q.value)
       && OnlyMoves(s, s', p) && s'.proposers[p].number == q.number
       && s'.proposers[p].phase.Accepting? && s'.proposers[p].phase.next == |s'.acceptors|
  }

  lemma {:induction false} AcceptOneMore(acceptors: seq<AcceptorState>, i: nat, n: nat, v: Value)
    requires i < |acceptors|
    ensures var next := acceptors[i := OnAccept(acceptors[i], n, v)];
            next[..i + 1] + AcceptAll(next[i + 1..], n, v) == acceptors[..i] + AcceptAll(acceptors[i..], n, v)
  {
  }

  lemma {:induction false} AcceptFirst(s: System, s': System, p: nat)
    requires Enabled(s, Accept(p)) && AcceptsRest(Next(s, Accept(p)), s', p)
    ensures AcceptsRest(s, s', p)
  {
    var q := s.proposers[p];
    AcceptOneMore(s.acceptors, q.phase.next, q.number, q.value);
  }

  /** The accept phase of a proposer that nobody disturbs. */
  lemma {:induction false} AcceptRest(run: seq<System>, steps: seq<Step>, numProposers: nat, numAcceptors: nat, p: nat)
    returns (run': seq<System>, steps': seq<Step>)
    requires IsRun(run, steps, numProposers, numAcceptors) && p < |Last(run).proposers|
    requires Last(run).proposers[p].phase.Accepting? && Last(run).proposers[p].phase.next <= |Last(run).acceptors|
    ensures IsRun(run', steps', numProposers, numAcceptors) && run <= run' && AcceptsRest(Last(run), Last(run'), p)
    decreases |Last(run).acceptors| - Last(run).proposers[p].phase.next
  {
    if Last(run).proposers[p].phase.next == |Last(run).acceptors| {
      run', steps' := run, steps;
    } else {
      var run1, steps1 := TakeStep(run, steps, numProposers, numAcceptors, Accept(p));
      run', steps' := AcceptRest(run1, steps1, numProposers, numAcceptors, p);
      AcceptFirst(Last(run), Last(run'), p);
    }
  }

  /** The prepare phase of an idle proposer's next proposal, from its first step on. */
  lemma {:induction false} AttemptPrepare(run: seq<System>, steps: seq<Step>, numProposers: nat, numAcceptors: nat,
                                          p: nat, v: Value)
    returns (run': seq<System>, steps': seq<Step>)
    requires IsRun(run, steps, numProposers, numAcceptors) && p < |Last(run).proposers| &&
             Last(run).proposers[p].phase.Idle?
    ensures IsRun(run', steps', numProposers, numAcceptors) && run <= run'
    ensures var s, s', n := Last(run), Last(run'), Last(run).proposers[p].number + 1;
            && s'.acceptors == PrepareAll(s.acceptors, n) && OnlyMoves(s, s', p)
            && s'.proposers[p] == ProposerState(n, v, Preparing(|s.acceptors|, Count(s.acceptors, n)))
  {
    var run1, steps1 := TakeStep(run, steps, numProposers, numAcceptors, Start(p, v));
    run', steps' := PrepareRest(run1, steps1, numProposers, numAcceptors, p);
    assert Last(run1).acceptors[..0] == [] && Last(run1).acceptors[0..] == Last(run).acceptors;
  }

  /** An idle proposer can make its next proposal without being disturbed. */
  lemma {:induction false} Attempt(run: seq<System>, steps: seq<Step>, numProposers: nat, numAcceptors: nat, p: nat,
                                   v: Value)
    returns (run': seq<System>, steps': seq<Step>)
    requires IsRun(run, steps, numProposers, numAcceptors) && p < |Last(run).proposers| &&
             Last(run).proposers[p].phase.Idle?
    ensures IsRun(run', steps', numProposers, numAcceptors) && run <= run'
    ensures var s, s', n := Last(run), Last(run'), Last(run).proposers[p].number + 1;
            && s'.acceptors == Proposal(s.acceptors, n, v)
            && OnlyMoves(s, s', p) && s'.proposers[p].phase.Idle? && s'.proposers[p].number == n
  {
    var run1, steps1 := AttemptPrepare(run, steps, numProposers, numAcceptors, p, v);
    run', steps' := TakeStep(run1, steps1, numProposers, numAcceptors, EndPrepare(p));
    if Last(run').proposers[p].phase.Accepting? {
      var s2 := Last(run');
      assert s2.acceptors[..0] == [] && s2.acceptors[0..] == s2.acceptors;
      run', steps' := AcceptRest(run', steps', numProposers, numAcceptors, p);
      run', steps' := TakeStep(run', steps', numProposers, numAcceptors, EndAccept(p));
    }
  }

  lemma {:induction false} AllPromise(s: seq<AcceptorState>, n: nat)
    requires forall i :: 0 <= i < |s| ==> s[i].promised < n
    ensures Count(s, n) == |s|
  {
    if s == [] {
    } else {
      AllPromise(s[..|s| - 1], n);
    }
  }

  /** A proposer whose number is too small tries again with the next one, until it is above every promise. */
  lemma {:induction false} KeepTrying(run: seq<System>, steps: seq<Step>, numProposers: nat, numAcceptors: nat,
                                      p: nat, v: Value, top: nat) returns (run': seq<System>, steps': seq<Step>)
    requires IsRun(run, steps, numProposers, numAcceptors) && p < |Last(run).proposers| &&
             Last(run).proposers[p].phase.Idle?
    requires Last(run).acceptors != []
    requires forall i :: 0 <= i < |Last(run).acceptors| ==> Last(run).acceptors[i].promised <= top
    ensures IsRun(run', steps', numProposers, numAcceptors) && run <= run'
    ensures OnlyMoves(Last(run), Last(run'), p) && Last(run').proposers[p].phase.Idle?
    ensures Chosen(Last(run').acceptors, Last(run').proposers[p].number, v)
    decreases top - Last(run).proposers[p].number
  {
    var s, n := Last(run), Last(run).proposers[p].number + 1;
    run', steps' := Attempt(run, steps, numProposers, numAcceptors, p, v);
    if Count(s.acceptors, n) >= Majority(|s.acceptors|) {
      PromisersAccept(s.acceptors, n);
      AcceptorsHold(PrepareAll(s.acceptors, n), n, v);
    } else {
      if n > top {
        AllPromise(s.acceptors, n);
      }
      run', steps' := KeepTrying(run', steps', numProposers, numAcceptors, p, v, top);
    }
  }

  function HighestPromise(s: seq<AcceptorState>): (top: nat)
    ensures forall i :: 0 <= i < |s| ==> s[i].promised <= top
  {
    if s == [] then 0
    else
      var top := HighestPromise(s[..|s| - 1]);
      if s[|s| - 1].promised > top then s[|s| - 1].promised else top
  }

  /**
   Whatever a run has led to, an idle proposer can bring about that any value of its own is
   chosen: every run can be continued so.
   */
  lemma {:induction false} AnyValueCanBeChosen(run: seq<System>, steps: seq<Step>, numProposers: nat, numAcceptors: nat,
                                               p: nat, v: Value) returns (run': seq<System>, steps': seq<Step>, n: nat)
    requires IsRun(run, steps, numProposers, numAcceptors) && numAcceptors > 0
    requires p < |Last(run).proposers| && Last(run).proposers[p].phase.Idle?
    ensures IsRun(run', steps', numProposers, numAcceptors) && run <= run'
    ensures OnlyMoves(Last(run), Last(run'), p) && Last(run').proposers[p].phase.Idle? &&
            Chosen(Last(run').acceptors, n, v)
  {
    RunKeepsInv(run, steps, numProposers, numAcceptors, |run| - 1);
    run', steps' := KeepTrying(run, steps, numProposers, numAcceptors, p, v, HighestPromise(Last(run).acceptors));
    n := Last(run').proposers[p].number;
  }

  /** So for any two values, of any proposers, there is a run in which one value is chosen and later the other. */
  lemma {:induction false} TwoValuesCanBeChosen(numProposers: nat, numAcceptors: nat, p: nat, v: Value, p': nat,
                                                w: Value)
    returns (run: seq<System>, steps: seq<Step>, i: nat, m: nat, n: nat)
    requires numAcceptors > 0 && p < numProposers && p' < numProposers
    ensures IsRun(run, steps, numProposers, numAcceptors) && i < |run|
    ensures Chosen(run[i].acceptors, m, v) && Chosen(Last(run).acceptors, n, w)
  {
    run, steps, m := AnyValueCanBeChosen([Initial(numProposers, numAcceptors)], [], numProposers, numAcceptors, p, v);
    i := |run| - 1;
    ghost var first := run;
    run, steps, n := AnyValueCanBeChosen(run, steps, numProposers, numAcceptors, p', w);
    assert run[i] == first[i];
  }

  // ----- the objects -----

  class Acceptor {
    var promised: nat
    var accepted: nat
    var acceptedVal: Value

    constructor ()
      ensures State() == AcceptorState(0, 0, 0)
    {
      promised, accepted, acceptedVal := 0, 0, 0;
    }

    ghost function State(): AcceptorState
      reads this
    {
      AcceptorState(promised, accepted, acceptedVal)
    }
  }

  ghost function States(acceptors: seq<Acceptor>): (s: seq<AcceptorState>)
    reads acceptors
    ensures |s| == |acceptors| && forall i :: 0 <= i < |s| ==> s[i] == acceptors[i].State()
  {
    seq(|acceptors|, i requires 0 <= i < |acceptors| reads acceptors => acceptors[i].State())
  }

  predicate Distinct(acceptors: seq<Acceptor>) {
    forall i, j :: 0 <= i < j < |acceptors| ==> acceptors[i] != acceptors[j]
  }

  class Proposer {
    const acceptors: seq<Acceptor>
    const majority: nat
    var number: nat
    var value: Value

    constructor (acceptors: seq<Acceptor>)
      ensures this.acceptors == acceptors && majority == Majority(|acceptors|) && number == 0
      ensures forall k: nat :: k >= majority <==> 2 * k > |acceptors|
    {
      this.acceptors := acceptors;
      majority := |acceptors| / 2 + 1;
      number, value := 0, 0;
    }

    method SendPrepare(a: Acceptor) returns (ok: bool)
      modifies a
      ensures ok == Promises(old(a.State()), number) && a.State() == OnPrepare(old(a.State()), number)
    {
      if a.promised >= number {
        return false;
      }
      a.promised := number;
      return true;
    }

    method SendAccept(a: Acceptor) returns (ok: bool)
      modifies a
      ensures ok == Accepts(old(a.State()), number) && a.State() == OnAccept(old(a.State()), number, value)
    {
      if a.promised > number {
        return false;
      }
      a.accepted, a.acceptedVal := number, value;
      return true;
    }

    method PrepareLoop() returns (promises: nat)
      requires Distinct(acceptors)
      modifies acceptors
      ensures promises == Count(old(States(acceptors)), number)
      ensures States(acceptors) == PrepareAll(old(States(acceptors)), number)
    {
      promises := 0;
      ghost var before := States(acceptors);
      for i := 0 to |acceptors|
        invariant promises == Count(before[..i], number)
        invariant forall j :: 0 <= j < i ==> acceptors[j].State() == OnPrepare(before[j], number)
        invariant forall j :: i <= j < |acceptors| ==> acceptors[j].State() == before[j]
      {
        assert before[..i + 1][..i] == before[..i];
        var ok := SendPrepare(acceptors[i]);
        if ok {
          promises := promises + 1;
        }
      }
      assert before[..|before|] == before;
    }

    method AcceptLoop() returns (accepted: nat)
      requires Distinct(acceptors)
      modifies acceptors
      ensures accepted == CountAccepts(old(States(acceptors)), number)
      ensures States(acceptors) == AcceptAll(old(States(acceptors)), number, value)
    {
      accepted := 0;
      ghost var before := States(acceptors);
      for i := 0 to |acceptors|
        invariant accepted == CountAccepts(before[..i], number)
        invariant forall j :: 0 <= j < i ==> acceptors[j].State() == OnAccept(before[j], number, value)
        invariant forall j :: i <= j < |acceptors| ==> acceptors[j].State() == before[j]
      {
        assert before[..i + 1][..i] == before[..i];
        var ok := SendAccept(acceptors[i]);
        if ok {
          accepted := accepted + 1;
        }
      }
      assert before[..|before|] == before;
    }

    /** A proposal that no other disturbs: it succeeds exactly when a majority had promised only smaller numbers. */
    method Propose(v: Value) returns (ok: bool)
      requires Distinct(acceptors) && majority == Majority(|acceptors|)
      modifies this, acceptors
      ensures number == old(number) + 1 && value == v
      ensures ok <==> 2 * |WouldPromise(old(States(acceptors)), number)| > |acceptors|
      ensures States(acceptors) == Proposal(old(States(acceptors)), number, v)
      ensures ok ==> 2 * |Holders(States(acceptors), number, v)| > |acceptors|
    {
      number := number + 1;
      value := v;
      ghost var before := States(acceptors);
      PromisersAccept(before, number);
      AcceptorsHold(PrepareAll(before, number), number, v);
      CountIsSet(before, number);
      ChosenIsMoreThanHalf(Proposal(before, number, v), number, v);
      var promises := PrepareLoop();
      if promises < majority {
        return false;
      }
      var accepted := AcceptLoop();
      return accepted >= majority;
    }
  }
}
