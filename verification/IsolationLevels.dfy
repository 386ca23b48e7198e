/**
 Transactions with isolation levels. The two upper levels work on a private overlay of the data,
 the two lower ones on the data itself; the lemmas say what that hides, over whole runs.
 */
module IsolationLevels {
  import Sets

  datatype IsolationLevel = ReadUncommitted | ReadCommitted | RepeatableRead | Serializable

  predicate Overlay(level: IsolationLevel) {
    level.RepeatableRead? || level.Serializable?
  }

  datatype Transaction = Transaction(id: int, level: IsolationLevel, localData: map<int, int>)

  datatype State = State(data: map<int, int>, active: seq<Transaction>)

  datatype Op =
    | Begin(id: int, level: IsolationLevel)
    | Read(id: int, key: int)
    | Write(id: int, key: int, value: int)
    | Commit(id: int)
    | Rollback(id: int)

  /** What a call returns: nothing, a value, or one of the two exceptions. */
  datatype Outcome = Done | Value(value: int) | TransactionNotFound | KeyNotFound

  datatype Option = None | Some(txn: Transaction)

  /** The first active transaction of an id. */
  function Lookup(active: seq<Transaction>, id: int): Option {
    if active == [] then None else if active[0].id == id then Some(active[0]) else Lookup(active[1..], id)
  }

  function Update(active: seq<Transaction>, txn: Transaction): seq<Transaction> {
    if active == [] then []
    else if active[0].id == txn.id then [txn] + active[1..]
    else [active[0]] + Update(active[1..], txn)
  }

  /** All transactions of an id are dropped. */
  function RemoveAll(active: seq<Transaction>, id: int): seq<Transaction> {
    if active == [] then []
    else if active[0].id == id then RemoveAll(active[1..], id)
    else [active[0]] + RemoveAll(active[1..], id)
  }

  function ReadOutcome(txn: Transaction, key: int, data: map<int, int>): Outcome {
    if Overlay(txn.level) && key in txn.localData then Value(txn.localData[key])
    else if key in data then Value(data[key])
    else KeyNotFound
  }

  function AfterRead(txn: Transaction, key: int, data: map<int, int>): Transaction {
    if Overlay(txn.level) && key !in txn.localData && key in data then
      txn.(localData := txn.localData[key := data[key]])
    else txn
  }

  function Result(s: State, op: Op): Outcome {
    match op
    case Begin(_, _) => Done
    case _ =>
      var found := Lookup(s.active, op.id);
      if found.None? then TransactionNotFound
      else if op.Read? then ReadOutcome(found.txn, op.key, s.data)
      else Done
  }

  function Step(s: State, op: Op): State {
    match op
    case Begin(id, level) => s.(active := s.active + [Transaction(id, level, map[])])
    case _ =>
      var found := Lookup(s.active, op.id);
      if found.None? then s
      else
        match op
        case Read(_, key) => s.(active := Update(s.active, AfterRead(found.txn, key, s.data)))
        case Write(_, key, value) =>
          if Overlay(found.txn.level) then
            s.(active := Update(s.active, found.txn.(localData := found.txn.localData[key := value])))
          else s.(data := s.data[key := value])
        case Commit(id) => State(s.data + found.txn.localData, RemoveAll(s.active, id))
        case Rollback(id) => s.(active := RemoveAll(s.active, id))
  }

  function Run(s: State, ops: seq<Op>): State {
    if ops == [] then s else Step(Run(s, ops[..|ops| - 1]), ops[|ops| - 1])
  }

  lemma {:induction false} Extend(s: State, ops: seq<Op>, op: Op)
    ensures Run(s, ops + [op]) == Step(Run(s, ops), op)
  {
    assert (ops + [op])[..|ops|] == ops;
  }

  // ----- the list of active transactions -----

  lemma {:induction false} LookupId(active: seq<Transaction>, id: int)
    ensures Lookup(active, id).Some? ==> Lookup(active, id).txn.id == id && Lookup(active, id).txn in active
  {
    if active != [] && active[0].id != id {
      LookupId(active[1..], id);
    }
  }

  lemma {:induction false} LookupOther(active: seq<Transaction>, x: int, y: int)
    requires x != y
    ensures Lookup(RemoveAll(active, x), y) == Lookup(active, y)
  {
    if active == [] {
    } else {
      LookupOther(active[1..], x, y);
    }
  }

  lemma {:induction false} UpdateOther(active: seq<Transaction>, x: int, txn: Transaction)
    requires x != txn.id
    ensures RemoveAll(Update(active, txn), x) == Update(RemoveAll(active, x), txn)
  {
    if active == [] {
    } else {
      UpdateOther(active[1..], x, txn);
      if active[0].id == txn.id {
        assert ([txn] + active[1..])[1..] == active[1..];
      } else {
        var rest := [active[0]] + Update(active[1..], txn);
        assert rest[1..] == Update(active[1..], txn);
      }
    }
  }

  lemma {:induction false} UpdateSame(active: seq<Transaction>, txn: Transaction)
    ensures RemoveAll(Update(active, txn), txn.id) == RemoveAll(active, txn.id)
  {
    if active == [] {
    } else {
      UpdateSame(active[1..], txn);
      if active[0].id == txn.id {
        assert ([txn] + active[1..])[1..] == active[1..];
      } else {
        var rest := [active[0]] + Update(active[1..], txn);
        assert rest[1..] == Update(active[1..], txn);
      }
    }
  }

  lemma {:induction false} RemoveTwice(active: seq<Transaction>, x: int, y: int)
    ensures RemoveAll(RemoveAll(active, x), y) == RemoveAll(RemoveAll(active, y), x)
  {
    if active == [] {
    } else {
      RemoveTwice(active[1..], x, y);
      var rest := [active[0]] + RemoveAll(active[1..], x);
      assert rest[1..] == RemoveAll(active[1..], x);
      var rest' := [active[0]] + RemoveAll(active[1..], y);
      assert rest'[1..] == RemoveAll(active[1..], y);
    }
  }

  lemma {:induction false} RemoveAppend(active: seq<Transaction>, txn: Transaction, x: int)
    ensures RemoveAll(active + [txn], x) == if txn.id == x then RemoveAll(active, x) else RemoveAll(active, x) + [txn]
  {
    if active == [] {
      assert active + [txn] == [txn];
    } else {
      assert (active + [txn])[1..] == active[1..] + [txn];
      RemoveAppend(active[1..], txn, x);
    }
  }

  lemma {:induction false} LookupUpdated(active: seq<Transaction>, txn: Transaction, id: int)
    ensures Lookup(Update(active, txn), id) ==
            if id == txn.id && Lookup(active, id).Some? then Some(txn) else Lookup(active, id)
  {
    if active == [] {
    } else {
      LookupUpdated(active[1..], txn, id);
      if active[0].id == txn.id {
        assert ([txn] + active[1..])[1..] == active[1..];
      } else {
        var rest := [active[0]] + Update(active[1..], txn);
        assert rest[1..] == Update(active[1..], txn);
      }
    }
  }

  lemma {:induction false} LookupAppend(active: seq<Transaction>, txn: Transaction, id: int)
    ensures Lookup(active + [txn], id) ==
            if Lookup(active, id).Some? then Lookup(active, id) else if txn.id == id then Some(txn) else None
  {
    if active == [] {
      assert active + [txn] == [txn];
    } else {
      assert (active + [txn])[1..] == active[1..] + [txn];
      LookupAppend(active[1..], txn, id);
    }
  }

  // ----- what an operation does to the shared data -----

  /** A write shows at once exactly when the transaction has no overlay and the value is a new one. */
  lemma {:induction false} WriteHiddenIff(s: State, x: int, key: int, value: int)
    requires Lookup(s.active, x).Some?
    ensures Step(s, Write(x, key, value)).data == s.data <==>
            Overlay(Lookup(s.active, x).txn.level) || (key in s.data && s.data[key] == value)
  {
    if key in s.data && s.data[key] == value {
      assert s.data[key := value] == s.data;
    } else {
      assert key !in s.data || s.data[key := value][key] != s.data[key];
    }
  }

  /** A commit writes back what was only read too: it changes nothing exactly when all of it is still current. */
  lemma {:induction false} CommitChangesNothingIff(s: State, x: int)
    requires Lookup(s.active, x).Some?
    ensures Step(s, Commit(x)).data == s.data <==>
            var local := Lookup(s.active, x).txn.localData;
            forall k :: k in local ==> k in s.data && s.data[k] == local[k]
  {
    var local := Lookup(s.active, x).txn.localData;
    if Step(s, Commit(x)).data == s.data {
      forall k | k in local ensures k in s.data && s.data[k] == local[k] {
        assert (s.data + local)[k] == local[k];
      }
    }
    if forall k :: k in local ==> k in s.data && s.data[k] == local[k] {
      assert s.data + local == s.data;
    }
  }

  // ----- erasing a transaction -----

  /** The operations of the other transactions. */
  function Erase(ops: seq<Op>, x: int): seq<Op> {
    if ops == [] then []
    else Erase(ops[..|ops| - 1], x) + if ops[|ops| - 1].id == x then [] else [ops[|ops| - 1]]
  }

  /** What the operations of the other transactions return. */
  function OtherResults(s: State, ops: seq<Op>, x: int): seq<Outcome> {
    if ops == [] then []
    else
      var init, op := ops[..|ops| - 1], ops[|ops| - 1];
      OtherResults(s, init, x) + if op.id == x then [] else [Result(Run(s, init), op)]
  }

  /** The transaction is only ever begun with an overlay, and never committed. */
  predicate StaysPrivate(ops: seq<Op>, x: int) {
    forall i :: 0 <= i < |ops| && ops[i].id == x ==> !ops[i].Commit? && (ops[i].Begin? ==> Overlay(ops[i].level))
  }

  predicate AllOverlay(active: seq<Transaction>, x: int) {
    forall i :: 0 <= i < |active| && active[i].id == x ==> Overlay(active[i].level)
  }

  /** The same state but for the transactions of an id. */
  function Without(s: State, x: int): State {
    s.(active := RemoveAll(s.active, x))
  }

  /** The operation leaves the shared data as it is: only writes below the overlays and commits can change it. */
  predicate Hidden(s: State, op: Op) {
    var found := Lookup(s.active, op.id);
    found.Some? ==>
      && (op.Write? ==> Overlay(found.txn.level) || (op.key in s.data && s.data[op.key] == op.value))
      && (op.Commit? ==>
            forall k :: k in found.txn.localData ==> k in s.data && s.data[k] == found.txn.localData[k])
  }

  lemma {:induction false} HiddenIff(s: State, op: Op)
    ensures Hidden(s, op) <==> Step(s, op).data == s.data
  {
    if Lookup(s.active, op.id).Some? {
      if op.Write? {
        WriteHiddenIff(s, op.id, op.key, op.value);
      } else if op.Commit? {
        CommitChangesNothingIff(s, op.id);
      }
    }
  }

  /** Its own operations change nothing but the shared data and the transaction itself. */
  lemma {:induction false} OwnStepKeepsOthers(s: State, op: Op)
    ensures RemoveAll(Step(s, op).active, op.id) == RemoveAll(s.active, op.id)
  {
    if op.Begin? {
      RemoveAppend(s.active, Transaction(op.id, op.level, map[]), op.id);
    } else if Lookup(s.active, op.id).Some? {
      LookupId(s.active, op.id);
      var txn := Lookup(s.active, op.id).txn;
      match op
      case Read(_, key) => UpdateSame(s.active, AfterRead(txn, key, s.data));
      case Write(_, key, value) => UpdateSame(s.active, txn.(localData := txn.localData[key := value]));
      case _ => RemoveIdempotent(s.active, op.id);
    }
  }

  lemma {:induction false} OwnStepHiddenIff(s: State, op: Op)
    ensures Without(Step(s, op), op.id) == Without(s, op.id) <==> Hidden(s, op)
  {
    OwnStepKeepsOthers(s, op);
    HiddenIff(s, op);
  }

  lemma {:induction false} RemoveIdempotent(active: seq<Transaction>, x: int)
    ensures RemoveAll(RemoveAll(active, x), x) == RemoveAll(active, x)
  {
    if active == [] {
    } else {
      RemoveIdempotent(active[1..], x);
      var rest := [active[0]] + RemoveAll(active[1..], x);
      assert rest[1..] == RemoveAll(active[1..], x);
    }
  }

  lemma {:induction false} OtherStepCommutes(s: State, op: Op, x: int)
    requires op.id != x
    ensures Result(Without(s, x), op) == Result(s, op)
    ensures Step(Without(s, x), op) == Without(Step(s, op), x)
  {
    if op.Begin? {
      RemoveAppend(s.active, Transaction(op.id, op.level, map[]), x);
    } else {
      LookupOther(s.active, x, op.id);
      if Lookup(s.active, op.id).Some? {
        LookupId(s.active, op.id);
        var txn := Lookup(s.active, op.id).txn;
        match op
        case Read(_, key) => UpdateOther(s.active, x, AfterRead(txn, key, s.data));
        case Write(_, key, value) => UpdateOther(s.active, x, txn.(localData := txn.localData[key := value]));
        case _ => RemoveTwice(s.active, x, op.id);
      }
    }
  }

  lemma {:induction false} AllOverlayUpdate(active: seq<Transaction>, txn: Transaction, x: int)
    requires AllOverlay(active, x) && (txn.id == x ==> Overlay(txn.level))
    ensures AllOverlay(Update(active, txn), x)
  {
    if active == [] {
    } else {
      AllOverlayUpdate(active[1..], txn, x);
    }
  }

  lemma {:induction false} AllOverlayRemove(active: seq<Transaction>, y: int, x: int)
    requires AllOverlay(active, x)
    ensures AllOverlay(RemoveAll(active, y), x)
  {
    if active == [] {
    } else {
      AllOverlayRemove(active[1..], y, x);
    }
  }

  lemma {:induction false} StepKeepsOverlay(s: State, op: Op, x: int)
    requires AllOverlay(s.active, x) && (op.id == x && op.Begin? ==> Overlay(op.level))
    ensures AllOverlay(Step(s, op).active, x)
  {
    if !op.Begin? && Lookup(s.active, op.id).Some? {
      LookupId(s.active, op.id);
      var txn := Lookup(s.active, op.id).txn;
      match op
      case Read(_, key) => AllOverlayUpdate(s.active, AfterRead(txn, key, s.data), x);
      case Write(_, key, value) =>
        if Overlay(txn.level) {
          AllOverlayUpdate(s.active, txn.(localData := txn.localData[key := value]), x);
        }
      case _ => AllOverlayRemove(s.active, op.id, x);
    }
  }

  lemma {:induction false} RunKeepsOverlay(s: State, ops: seq<Op>, x: int)
    requires AllOverlay(s.active, x) && StaysPrivate(ops, x)
    ensures AllOverlay(Run(s, ops).active, x)
  {
    if ops == [] {
    } else {
      RunKeepsOverlay(s, ops[..|ops| - 1], x);
      StepKeepsOverlay(Run(s, ops[..|ops| - 1]), ops[|ops| - 1], x);
    }
  }

  lemma {:induction false} ErasedResults(s: State, ops: seq<Op>, op: Op, x: int)
    requires op.id != x
    ensures OtherResults(s, ops + [op], x) == OtherResults(s, ops, x) + [Result(Run(s, ops), op)]
  {
    assert (ops + [op])[..|ops|] == ops;
  }

  /** Every operation of the transaction leaves the shared data as it is when it is made. */
  predicate AllHidden(s: State, ops: seq<Op>, x: int) {
    if ops == [] then true
    else
      var init, op := ops[..|ops| - 1], ops[|ops| - 1];
      AllHidden(s, init, x) && (op.id == x ==> Hidden(Run(s, init), op))
  }

  /** Without the transaction's operations the run ends in the same state but for the transaction. */
  ghost predicate NoTrace(s: State, ops: seq<Op>, x: int) {
    Run(s, Erase(ops, x)) == Without(Run(s, ops), x)
  }

  lemma {:induction false} NextTraceIff(s: State, ops: seq<Op>, x: int)
    requires ops != [] && NoTrace(s, ops[..|ops| - 1], x)
    ensures var init, op := ops[..|ops| - 1], ops[|ops| - 1];
            NoTrace(s, ops, x) <==> (op.id == x ==> Hidden(Run(s, init), op))
  {
    var init, op := ops[..|ops| - 1], ops[|ops| - 1];
    if op.id == x {
      OwnStepHiddenIff(Run(s, init), op);
      assert Erase(ops, x) == Erase(init, x);
    } else {
      OtherStepCommutes(Run(s, init), op, x);
      Extend(s, Erase(init, x), op);
    }
  }

  lemma {:induction false} HiddenLeavesNoTrace(s: State, ops: seq<Op>, x: int)
    requires RemoveAll(s.active, x) == s.active && AllHidden(s, ops, x)
    ensures NoTrace(s, ops, x)
    ensures OtherResults(s, Erase(ops, x), x) == OtherResults(s, ops, x)
  {
    if ops == [] {
    } else {
      var init, op := ops[..|ops| - 1], ops[|ops| - 1];
      HiddenLeavesNoTrace(s, init, x);
      NextTraceIff(s, ops, x);
      if op.id == x {
        assert Erase(ops, x) == Erase(init, x);
      } else {
        OtherStepCommutes(Run(s, init), op, x);
        ErasedResults(s, Erase(init, x), op, x);
      }
    }
  }

  lemma {:induction false} PrefixHidden(s: State, ops: seq<Op>, x: int, k: nat)
    requires AllHidden(s, ops, x) && k <= |ops|
    ensures AllHidden(s, ops[..k], x)
  {
    if k == |ops| {
      assert ops[..k] == ops;
    } else {
      PrefixHidden(s, ops[..|ops| - 1], x, k);
      assert ops[..|ops| - 1][..k] == ops[..k];
    }
  }

  lemma {:induction false} NoTraceHidden(s: State, ops: seq<Op>, x: int)
    requires forall k :: 0 <= k <= |ops| ==> NoTrace(s, ops[..k], x)
    ensures AllHidden(s, ops, x)
  {
    if ops == [] {
    } else {
      var init := ops[..|ops| - 1];
      forall k | 0 <= k <= |init| ensures NoTrace(s, init[..k], x) {
        assert init[..k] == ops[..k];
      }
      NoTraceHidden(s, init, x);
      assert ops[..|ops|] == ops && ops[..|init|] == init;
      assert NoTrace(s, ops[..|init|], x) && NoTrace(s, ops[..|ops|], x);
      NextTraceIff(s, ops, x);
    }
  }

  /**
   A transaction leaves no trace in any state of a run exactly when each of its operations, at
   whatever level and commits included, leaves the shared data as it is when it is made.
   */
  lemma {:induction false} NoTraceThroughoutIff(s: State, ops: seq<Op>, x: int)
    requires RemoveAll(s.active, x) == s.active
    ensures AllHidden(s, ops, x) <==> forall k :: 0 <= k <= |ops| ==> NoTrace(s, ops[..k], x)
  {
    if AllHidden(s, ops, x) {
      forall k | 0 <= k <= |ops| ensures NoTrace(s, ops[..k], x) {
        PrefixHidden(s, ops, x, k);
        HiddenLeavesNoTrace(s, ops[..k], x);
      }
    } else if forall k :: 0 <= k <= |ops| ==> NoTrace(s, ops[..k], x) {
      NoTraceHidden(s, ops, x);
    }
  }

  lemma {:induction false} PrivateIsHidden(s: State, ops: seq<Op>, x: int)
    requires AllOverlay(s.active, x) && StaysPrivate(ops, x)
    ensures AllHidden(s, ops, x)
  {
    if ops == [] {
    } else {
      var init := ops[..|ops| - 1];
      PrivateIsHidden(s, init, x);
      RunKeepsOverlay(s, init, x);
      LookupId(Run(s, init).active, x);
    }
  }

  /**
   In particular one that works on an overlay and never commits: without its operations the run
   ends with the same data and the same other transactions, and every operation of the others
   returns the same.
   */
  lemma {:induction false} UncommittedLeavesNoTrace(s: State, ops: seq<Op>, x: int)
    requires RemoveAll(s.active, x) == s.active && AllOverlay(s.active, x) && StaysPrivate(ops, x)
    ensures Run(s, Erase(ops, x)) == Without(Run(s, ops), x)
    ensures OtherResults(s, Erase(ops, x), x) == OtherResults(s, ops, x)
  {
    PrivateIsHidden(s, ops, x);
    HiddenLeavesNoTrace(s, ops, x);
  }

  /** In particular a run that ends by rolling the transaction back could have done without it. */
  lemma {:induction false} RollbackUndoesEverything(s: State, ops: seq<Op>, x: int)
    requires RemoveAll(s.active, x) == s.active && AllOverlay(s.active, x) && StaysPrivate(ops, x)
    ensures Run(s, ops + [Rollback(x)]) == Run(s, Erase(ops, x))
  {
    UncommittedLeavesNoTrace(s, ops, x);
    Extend(s, ops, Rollback(x));
    if Lookup(Run(s, ops).active, x).None? {
      RemoveNone(Run(s, ops).active, x);
    }
  }

  lemma {:induction false} RemoveNone(active: seq<Transaction>, x: int)
    requires Lookup(active, x).None?
    ensures RemoveAll(active, x) == active
  {
    if active == [] {
    } else {
      RemoveNone(active[1..], x);
    }
  }

  // ----- what a transaction with an overlay reads -----

  /** The transaction has a value for the key of its own. */
  predicate Pinned(s: State, x: int, key: int, value: int) {
    var found := Lookup(s.active, x);
    found.Some? && Overlay(found.txn.level) && key in found.txn.localData && found.txn.localData[key] == value
  }

  /** The transaction does not end and does not write the key. */
  predicate LeavesAlone(op: Op, x: int, key: int) {
    op.id == x ==> !op.Commit? && !op.Rollback? && !(op.Write? && op.key == key)
  }

  lemma {:induction false} PinnedStays(s: State, op: Op, x: int, key: int, value: int)
    requires Pinned(s, x, key, value) && LeavesAlone(op, x, key)
    ensures Pinned(Step(s, op), x, key, value)
  {
    if op.Begin? {
      LookupAppend(s.active, Transaction(op.id, op.level, map[]), x);
    } else if Lookup(s.active, op.id).Some? {
      LookupId(s.active, op.id);
      var txn := Lookup(s.active, op.id).txn;
      match op
      case Read(_, k) => LookupUpdated(s.active, AfterRead(txn, k, s.data), x);
      case Write(_, k, v) => LookupUpdated(s.active, txn.(localData := txn.localData[k := v]), x);
      case _ => LookupOther(s.active, op.id, x);
    }
  }

  lemma {:induction false} PinnedThroughRun(s: State, ops: seq<Op>, x: int, key: int, value: int)
    requires Pinned(s, x, key, value) && forall i :: 0 <= i < |ops| ==> LeavesAlone(ops[i], x, key)
    ensures Pinned(Run(s, ops), x, key, value)
  {
    if ops == [] {
    } else {
      PinnedThroughRun(s, ops[..|ops| - 1], x, key, value);
      PinnedStays(Run(s, ops[..|ops| - 1]), ops[|ops| - 1], x, key, value);
    }
  }

  /** Reads repeat: whatever the others do in between, a second read returns what the first did. */
  lemma {:induction false} ReadsRepeat(s: State, ops: seq<Op>, x: int, key: int)
    requires Lookup(s.active, x).Some? && Overlay(Lookup(s.active, x).txn.level)
    requires Result(s, Read(x, key)).Value? && forall i :: 0 <= i < |ops| ==> LeavesAlone(ops[i], x, key)
    ensures Result(Run(Step(s, Read(x, key)), ops), Read(x, key)) == Result(s, Read(x, key))
  {
    LookupId(s.active, x);
    LookupUpdated(s.active, AfterRead(Lookup(s.active, x).txn, key, s.data), x);
    PinnedThroughRun(Step(s, Read(x, key)), ops, x, key, Result(s, Read(x, key)).value);
  }

  /** A read returns the transaction's own last write. */
  lemma {:induction false} ReadsOwnWrite(s: State, ops: seq<Op>, x: int, key: int, value: int)
    requires Lookup(s.active, x).Some? && Overlay(Lookup(s.active, x).txn.level)
    requires forall i :: 0 <= i < |ops| ==> LeavesAlone(ops[i], x, key)
    ensures Result(Run(Step(s, Write(x, key, value)), ops), Read(x, key)) == Value(value)
  {
    LookupId(s.active, x);
    var txn := Lookup(s.active, x).txn;
    LookupUpdated(s.active, txn.(localData := txn.localData[key := value]), x);
    PinnedThroughRun(Step(s, Write(x, key, value)), ops, x, key, value);
  }

  // ----- what the lower levels and commits expose -----

  /** Below the overlay levels a rollback undoes nothing. */
  lemma {:induction false} RolledBackWriteRemains(s: State, x: int, level: IsolationLevel, key: int, value: int)
    requires Lookup(s.active, x).None? && !Overlay(level)
    ensures Run(s, [Begin(x, level), Write(x, key, value), Rollback(x)]).data == s.data[key := value]
  {
    var s1 := Step(s, Begin(x, level));
    var s2 := Step(s1, Write(x, key, value));
    LookupAppend(s.active, Transaction(x, level, map[]), x);
    RunThree(s, Begin(x, level), Write(x, key, value), Rollback(x));
  }

  lemma {:induction false} RunThree(s: State, a: Op, b: Op, c: Op)
    ensures Run(s, [a, b, c]) == Step(Step(Step(s, a), b), c)
  {
    Extend(s, [], a);
    Extend(s, [a], b);
    Extend(s, [a, b], c);
    assert [] + [a] == [a] && [a] + [b] == [a, b] && [a, b] + [c] == [a, b, c];
  }

  /** So a transaction that only read can undo a write committed meanwhile. */
  lemma {:induction false} ReaderUndoesWrite(s: State, x: int, y: int, key: int, value: int)
    requires x != y && Lookup(s.active, x).None? && Lookup(s.active, y).None? && key in s.data
    ensures var s1 := Run(s, [Begin(x, RepeatableRead), Read(x, key), Begin(y, ReadCommitted)]);
            var s2 := Run(s1, [Write(y, key, value), Commit(y), Commit(x)]);
            Step(Step(s1, Write(y, key, value)), Commit(y)).data == s.data[key := value] && s2.data == s.data
  {
    var tx, ty := Transaction(x, RepeatableRead, map[]), Transaction(y, ReadCommitted, map[]);
    var tx' := tx.(localData := map[key := s.data[key]]);
    RunThree(s, Begin(x, RepeatableRead), Read(x, key), Begin(y, ReadCommitted));
    var a1 := s.active + [tx];
    LookupAppend(s.active, tx, x);
    LookupAppend(s.active, tx, y);
    var a2 := Update(a1, tx');
    assert AfterRead(tx, key, s.data) == tx';
    LookupUpdated(a1, tx', x);
    LookupUpdated(a1, tx', y);
    var a3 := a2 + [ty];
    LookupAppend(a2, ty, x);
    LookupAppend(a2, ty, y);
    var s1 := State(s.data, a3);
    RunThree(s1, Write(y, key, value), Commit(y), Commit(x));
    LookupOther(a3, y, x);
    assert s.data[key := value] + map[] == s.data[key := value];
    assert s.data[key := value] + map[key := s.data[key]] == s.data;
  }

  // ----- the database -----

  class Database {
    var data: map<int, int>
    var activeTransactions: seq<Transaction>

    ghost function View(): State
      reads this
    {
      State(data, activeTransactions)
    }

    constructor ()
      ensures View() == State(map[1 := 100, 2 := 200, 3 := 300], [])
    {
      data := map[1 := 100, 2 := 200, 3 := 300];
      activeTransactions := [];
    }

    method BeginTransaction(id: int, level: IsolationLevel) returns (outcome: Outcome)
      modifies this
      ensures View() == Step(old(View()), Begin(id, level)) && outcome == Result(old(View()), Begin(id, level))
    {
      activeTransactions := activeTransactions + [Transaction(id, level, map[])];
      outcome := Done;
    }

    /** The position of the first transaction of an id, or the length of the list. */
    method GetTransaction(id: int) returns (i: nat)
      ensures i <= |activeTransactions|
      ensures i < |activeTransactions| ==> Lookup(activeTransactions, id) == Some(activeTransactions[i])
      ensures i < |activeTransactions| ==>
                forall t: Transaction :: t.id == id ==> Update(activeTransactions, t) == activeTransactions[i := t]
      ensures i == |activeTransactions| ==> Lookup(activeTransactions, id).None?
    {
      i := 0;
      while i < |activeTransactions| && activeTransactions[i].id != id
        invariant i <= |activeTransactions| && forall j :: 0 <= j < i ==> activeTransactions[j].id != id
      {
        i := i + 1;
      }
      FirstOf(activeTransactions, id, i);
    }

    method ReadItem(id: int, key: int) returns (outcome: Outcome)
      modifies this`activeTransactions
      ensures View() == Step(old(View()), Read(id, key)) && outcome == Result(old(View()), Read(id, key))
    {
      var i := GetTransaction(id);
      if i == |activeTransactions| {
        return TransactionNotFound;
      }
      LookupId(activeTransactions, id);
      var txn := activeTransactions[i];
      if Overlay(txn.level) && key in txn.localData {
        outcome := Value(txn.localData[key]);
      } else if key in data {
        outcome := Value(data[key]);
        if Overlay(txn.level) {
          txn := txn.(localData := txn.localData[key := data[key]]);
        }
      } else {
        outcome := KeyNotFound;
      }
      activeTransactions := activeTransactions[i := txn];
    }

    method WriteItem(id: int, key: int, value: int) returns (outcome: Outcome)
      modifies this
      ensures View() == Step(old(View()), Write(id, key, value)) &&
              outcome == Result(old(View()), Write(id, key, value))
    {
      var i := GetTransaction(id);
      if i == |activeTransactions| {
        return TransactionNotFound;
      }
      LookupId(activeTransactions, id);
      var txn := activeTransactions[i];
      if Overlay(txn.level) {
        activeTransactions := activeTransactions[i := txn.(localData := txn.localData[key := value])];
      } else {
        data := data[key := value];
      }
      outcome := Done;
    }

    /** The overlay is copied key by key, in no particular order. */
    method CommitLocal(localData: map<int, int>)
      modifies this`data
      ensures data == old(data) + localData
    {
      var rest := localData.Keys;
      while rest != {}
        invariant rest <= localData.Keys
        invariant data == old(data) + (localData - rest)
      {
        var key := Sets.AnyOf(rest);
        data := data[key := localData[key]];
        rest := rest - {key};
      }
      assert localData - rest == localData;
    }

    method RemoveTransaction(id: int)
      modifies this`activeTransactions
      ensures activeTransactions == RemoveAll(old(activeTransactions), id)
    {
      var all := activeTransactions;
      var kept := [];
      for i := |all| downto 0
        invariant kept == RemoveAll(all[i..], id) && activeTransactions == old(activeTransactions)
      {
        assert all[i..][1..] == all[i + 1..];
        if all[i].id != id {
          kept := [all[i]] + kept;
        }
      }
      assert all[0..] == all;
      activeTransactions := kept;
    }

    method CommitTransaction(id: int) returns (outcome: Outcome)
      modifies this
      ensures View() == Step(old(View()), Commit(id)) && outcome == Result(old(View()), Commit(id))
    {
      var i := GetTransaction(id);
      if i == |activeTransactions| {
        return TransactionNotFound;
      }
      CommitLocal(activeTransactions[i].localData);
      RemoveTransaction(id);
      outcome := Done;
    }

    method RollbackTransaction(id: int) returns (outcome: Outcome)
      modifies this
      ensures View() == Step(old(View()), Rollback(id)) && outcome == Result(old(View()), Rollback(id))
    {
      var i := GetTransaction(id);
      if i == |activeTransactions| {
        return TransactionNotFound;
      }
      RemoveTransaction(id);
      outcome := Done;
    }
  }

  lemma {:induction false} FirstOf(active: seq<Transaction>, id: int, i: nat)
    requires i <= |active| && (forall j :: 0 <= j < i ==> active[j].id != id) && (i < |active| ==> active[i].id == id)
    ensures i < |active| ==> Lookup(active, id) == Some(active[i])
    ensures i < |active| ==> forall t: Transaction :: t.id == id ==> Update(active, t) == active[i := t]
    ensures i == |active| ==> Lookup(active, id).None?
  {
    if i == 0 {
    } else {
      FirstOf(active[1..], id, i - 1);
      if i < |active| {
        forall t: Transaction | t.id == id ensures Update(active, t) == active[i := t] {
          assert Update(active[1..], t) == active[1..][i - 1 := t];
        }
      }
    }
  }
}
