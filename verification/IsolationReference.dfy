/**
 What every read returns, told from the operations so far and one key at a time: the level of a
 transaction, the value of the key that is its own, and the value that was published last.
 */
module IsolationReference {
  import opened IsolationLevels

  datatype Standing = Absent | At(level: IsolationLevel)

  datatype Maybe = Nothing | Just(value: int)

  /** A transaction stands at the level it was first begun with since it last ended. */
  function LevelOf(ops: seq<Op>, x: int): Standing {
    if ops == [] then Absent
    else
      var init, op := ops[..|ops| - 1], ops[|ops| - 1];
      if op.id != x then LevelOf(init, x)
      else
        match op
        case Begin(_, level) => if LevelOf(init, x).At? then LevelOf(init, x) else At(level)
        case Commit(_) => Absent
        case Rollback(_) => Absent
        case _ => LevelOf(init, x)
  }

  predicate Private(ops: seq<Op>, x: int) {
    LevelOf(ops, x).At? && Overlay(LevelOf(ops, x).level)
  }

  predicate Exposed(ops: seq<Op>, x: int) {
    LevelOf(ops, x).At? && !Overlay(LevelOf(ops, x).level)
  }

  /** The value of the key that a private transaction has for itself: its last write, or else what it first read. */
  function Own(data: map<int, int>, ops: seq<Op>, x: int, key: int): Maybe
    decreases ops, 0
  {
    if ops == [] then Nothing
    else
      var init, op := ops[..|ops| - 1], ops[|ops| - 1];
      var before := Own(data, init, x, key);
      if op.id != x then before
      else
        match op
        case Begin(_, _) => before
        case Commit(_) => Nothing
        case Rollback(_) => Nothing
        case Write(_, k, v) => if k == key && Private(init, x) then Just(v) else before
        case Read(_, k) =>
          if k == key && Private(init, x) && before.Nothing? then Published(data, init, key) else before
  }

  /** The value that everybody can see: the last exposed write or committed private value. */
  function Published(data: map<int, int>, ops: seq<Op>, key: int): Maybe
    decreases ops, 1
  {
    if ops == [] then if key in data then Just(data[key]) else Nothing
    else
      var init, op := ops[..|ops| - 1], ops[|ops| - 1];
      match op
      case Write(x, k, v) => if k == key && Exposed(init, x) then Just(v) else Published(data, init, key)
      case Commit(x) =>
        if Own(data, init, x, key).Just? then Own(data, init, x, key) else Published(data, init, key)
      case _ => Published(data, init, key)
  }

  // ----- the database does so -----

  function Start(data: map<int, int>): State {
    State(data, [])
  }

  lemma {:induction false} LookupRemoved(active: seq<Transaction>, x: int)
    ensures Lookup(RemoveAll(active, x), x).None?
  {
    if active == [] {
    } else {
      LookupRemoved(active[1..], x);
    }
  }

  /** What one operation does to the first transaction of an id. */
  function After(s: State, op: Op, x: int): Option {
    var found := Lookup(s.active, x);
    if op.id != x then found
    else
      match op
      case Begin(_, level) => if found.Some? then found else Some(Transaction(x, level, map[]))
      case Commit(_) => None
      case Rollback(_) => None
      case Read(_, key) => if found.Some? then Some(AfterRead(found.txn, key, s.data)) else None
      case Write(_, key, value) =>
        if found.Some? && Overlay(found.txn.level) then
          Some(found.txn.(localData := found.txn.localData[key := value]))
        else found
  }

  lemma {:induction false} LookupAfter(s: State, op: Op, x: int)
    ensures Lookup(Step(s, op).active, x) == After(s, op, x)
  {
    if op.Begin? {
      LookupAppend(s.active, Transaction(op.id, op.level, map[]), x);
    } else if Lookup(s.active, op.id).Some? {
      LookupId(s.active, op.id);
      var txn := Lookup(s.active, op.id).txn;
      match op
      case Read(_, key) => LookupUpdated(s.active, AfterRead(txn, key, s.data), x);
      case Write(_, key, value) => LookupUpdated(s.active, txn.(localData := txn.localData[key := value]), x);
      case _ =>
        if op.id == x {
          LookupRemoved(s.active, x);
        } else {
          LookupOther(s.active, op.id, x);
        }
    }
  }

  predicate Stands(found: Option, standing: Standing) {
    if found.None? then standing == Absent else standing == At(found.txn.level)
  }

  predicate Holds(m: map<int, int>, key: int, value: Maybe) {
    if key in m then value == Just(m[key]) else value == Nothing
  }

  /** The transaction of the state has the level and the own value that the operations give it. */
  ghost predicate Knows(data: map<int, int>, ops: seq<Op>, x: int, key: int) {
    var found := Lookup(Run(Start(data), ops).active, x);
    && Stands(found, LevelOf(ops, x))
    && Holds(if found.Some? then found.txn.localData else map[], key, Own(data, ops, x, key))
  }

  lemma {:induction false} KnowsNext(data: map<int, int>, ops: seq<Op>, x: int, key: int)
    requires ops != [] && Knows(data, ops[..|ops| - 1], x, key)
    requires Holds(Run(Start(data), ops[..|ops| - 1]).data, key, Published(data, ops[..|ops| - 1], key))
    ensures Knows(data, ops, x, key)
  {
    LookupAfter(Run(Start(data), ops[..|ops| - 1]), ops[|ops| - 1], x);
  }

  lemma {:induction false} PublishedNext(data: map<int, int>, ops: seq<Op>, key: int)
    requires ops != [] && Knows(data, ops[..|ops| - 1], ops[|ops| - 1].id, key)
    requires Holds(Run(Start(data), ops[..|ops| - 1]).data, key, Published(data, ops[..|ops| - 1], key))
    ensures Holds(Run(Start(data), ops).data, key, Published(data, ops, key))
  {
  }

  lemma {:induction false} RunIsReference(data: map<int, int>, ops: seq<Op>, x: int, key: int)
    ensures Knows(data, ops, x, key)
    ensures Holds(Run(Start(data), ops).data, key, Published(data, ops, key))
  {
    if ops == [] {
    } else {
      RunIsReference(data, ops[..|ops| - 1], x, key);
      RunIsReference(data, ops[..|ops| - 1], ops[|ops| - 1].id, key);
      KnowsNext(data, ops, x, key);
      PublishedNext(data, ops, key);
    }
  }

  lemma {:induction false} ExposedOwnsNothing(data: map<int, int>, ops: seq<Op>, x: int, key: int)
    requires !Private(ops, x)
    ensures Own(data, ops, x, key).Nothing?
  {
    if ops == [] {
    } else if !Private(ops[..|ops| - 1], x) {
      ExposedOwnsNothing(data, ops[..|ops| - 1], x, key);
    }
  }

  function Answer(value: Maybe): Outcome {
    if value.Just? then Value(value.value) else KeyNotFound
  }

  /**
   In every run a read returns the transaction's own value if it has one, and else the value
   published last; it fails exactly when the transaction is not active or there is no such value.
   */
  lemma {:induction false} ReadReturns(data: map<int, int>, ops: seq<Op>, x: int, key: int)
    ensures Result(Run(Start(data), ops), Read(x, key)) ==
            if LevelOf(ops, x).Absent? then TransactionNotFound
            else if Own(data, ops, x, key).Just? then Answer(Own(data, ops, x, key))
            else Answer(Published(data, ops, key))
  {
    RunIsReference(data, ops, x, key);
    if !Private(ops, x) {
      ExposedOwnsNothing(data, ops, x, key);
    }
  }

  // ----- the latest value -----

  /** The operation publishes a value of the key. */
  predicate Publishes(data: map<int, int>, ops: seq<Op>, op: Op, key: int) {
    || (op.Write? && op.key == key && Exposed(ops, op.id))
    || (op.Commit? && Own(data, ops, op.id, key).Just?)
  }

  lemma {:induction false} StaysPublished(data: map<int, int>, ops: seq<Op>, more: seq<Op>, key: int)
    requires forall k :: 0 <= k < |more| ==> !Publishes(data, ops + more[..k], more[k], key)
    ensures Published(data, ops + more, key) == Published(data, ops, key)
  {
    if more == [] {
      assert ops + more == ops;
    } else {
      var init := more[..|more| - 1];
      forall k | 0 <= k < |init| ensures !Publishes(data, ops + init[..k], init[k], key) {
        assert init[..k] == more[..k];
      }
      StaysPublished(data, ops, init, key);
      assert (ops + more)[..|ops + more| - 1] == ops + init;
    }
  }

  /**
   After a write below the overlays, and any operations that publish nothing else of the key, a read
   by any active transaction without a value of its own returns that write: every read at the two
   lower levels, and the first one at the two upper levels.
   */
  lemma {:induction false} ReadsLatest(data: map<int, int>, ops: seq<Op>, x: int, key: int, v: int,
                                       more: seq<Op>, y: int)
    requires Exposed(ops, x)
    requires forall k :: 0 <= k < |more| ==> !Publishes(data, ops + [Write(x, key, v)] + more[..k], more[k], key)
    requires var all := ops + [Write(x, key, v)] + more;
             Exposed(all, y) || (Private(all, y) && Own(data, all, y, key).Nothing?)
    ensures Result(Run(Start(data), ops + [Write(x, key, v)] + more), Read(y, key)) == Value(v)
  {
    var written := ops + [Write(x, key, v)];
    assert written[..|ops|] == ops;
    StaysPublished(data, written, more, key);
    ReadReturns(data, written + more, y, key);
    if Exposed(written + more, y) {
      ExposedOwnsNothing(data, written + more, y, key);
    }
  }
}
