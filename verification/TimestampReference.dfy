/**
 The scheduler against a plain reference that keeps no timestamps per item. It knows which
 transactions are live, what became of each, and the accesses granted so far; whether an access is
 granted it decides by looking through them.
 */
module TimestampReference {
  import opened TimestampOrdering

  /** `live` gives the place of a live transaction in `fates` and its start timestamp. */
  datatype Plain = Plain(live: map<int, (nat, nat)>, fates: seq<Fate>, accesses: seq<Access>)

  ghost predicate Written(h: seq<Access>, item: int) {
    exists a :: a in h && a.WriteAccess? && a.item == item
  }

  /** Some write of the item has a larger timestamp. */
  ghost predicate WrittenLater(h: seq<Access>, item: int, ts: nat) {
    exists a :: a in h && a.WriteAccess? && a.item == item && a.ts > ts
  }

  /** Some read or write of the item has a larger timestamp. */
  ghost predicate UsedLater(h: seq<Access>, item: int, ts: nat) {
    exists a :: a in h && a.item == item && a.ts > ts
  }

  predicate Placed(p: Plain) {
    forall t :: t in p.live ==> p.live[t].0 < |p.fates|
  }

  function End(p: Plain, txn: int, fate: Fate): Plain
    requires Placed(p)
  {
    if txn in p.live then Plain(p.live - {txn}, p.fates[p.live[txn].0 := fate], p.accesses) else p
  }

  ghost function PlainStep(p: Plain, r: Request): (q: Plain)
    requires Placed(p)
    ensures Placed(q)
  {
    match r
    case Begin(txn, ts) =>
      if txn in p.live then p
      else Plain(p.live[txn := (|p.fates|, ts)], p.fates + [Running], p.accesses)
    case Commit(txn, _) => End(p, txn, Committed)
    case Abort(txn) => End(p, txn, Aborted)
    case Read(txn, item) =>
      if txn !in p.live || !Written(p.accesses, item) then p
      else if WrittenLater(p.accesses, item, p.live[txn].1) then End(p, txn, Aborted)
      else
        var value := if item in Replay(p.accesses) then Replay(p.accesses)[item] else 0;
        p.(accesses := p.accesses + [ReadAccess(txn, p.live[txn].1, item, value, p.live[txn].0)])
    case Write(txn, item, value) =>
      if txn !in p.live then p
      else if UsedLater(p.accesses, item, p.live[txn].1) then End(p, txn, Aborted)
      else p.(accesses := p.accesses + [WriteAccess(txn, p.live[txn].1, item, value, p.live[txn].0)])
  }

  ghost function PlainRun(rs: seq<Request>): (p: Plain)
    ensures Placed(p)
  {
    if rs == [] then Plain(map[], [], []) else PlainStep(PlainRun(rs[..|rs| - 1]), rs[|rs| - 1])
  }

  // ----- the timestamps of an item are those of its accesses -----

  ghost predicate AttainedBy(h: seq<Access>, item: int, d: DataItem) {
    && (d.writeTs > 0 ==> exists a :: a in h && a.WriteAccess? && a.item == item && a.ts == d.writeTs)
    && (d.readTs > 0 ==> exists a :: a in h && a.ReadAccess? && a.item == item && a.ts == d.readTs)
  }

  ghost predicate Attained(s: State) {
    forall item :: item in s.items ==> Written(s.history, item) && AttainedBy(s.history, item, s.items[item])
  }

  lemma {:induction false} AttainedGrows(h: seq<Access>, a: Access, item: int, d: DataItem)
    requires Written(h, item) && AttainedBy(h, item, d)
    ensures Written(h + [a], item) && AttainedBy(h + [a], item, d)
  {
    forall x | x in h ensures x in h + [a] {
    }
  }

  lemma {:induction false} NewItemAttained(s: State, r: Request)
    requires Attained(s) && (r.Read? || r.Write?) && Granted(s, r)
    ensures Written(s.history + [AccessOf(s, r)], r.item)
    ensures AttainedBy(s.history + [AccessOf(s, r)], r.item, ItemAfter(s, r))
  {
    var h, a := s.history, AccessOf(s, r);
    assert a in h + [a];
    if r.item in s.items {
      AttainedGrows(h, a, r.item, s.items[r.item]);
    }
  }

  lemma {:induction false} StepKeepsAttained(s: State, r: Request)
    requires Attained(s)
    ensures Attained(Step(s, r))
  {
    if (r.Read? || r.Write?) && Granted(s, r) {
      NewItemAttained(s, r);
      forall item | item in s.items && item != r.item
        ensures Written(Step(s, r).history, item) && AttainedBy(Step(s, r).history, item, s.items[item])
      {
        AttainedGrows(s.history, AccessOf(s, r), item, s.items[item]);
      }
    }
  }

  lemma {:induction false} RunAttained(rs: seq<Request>)
    ensures Attained(Run(rs))
  {
    if rs == [] {
    } else {
      RunAttained(rs[..|rs| - 1]);
      StepKeepsAttained(Run(rs[..|rs| - 1]), rs[|rs| - 1]);
    }
  }

  // ----- what is granted -----

  lemma {:induction false} ReadGrantedIff(s: State, txn: int, item: int)
    requires Bounded(s) && Attained(s) && txn in s.active
    ensures Granted(s, Read(txn, item)) <==>
            Written(s.history, item) && !WrittenLater(s.history, item, s.active[txn])
    ensures item in s.items <==> Written(s.history, item)
  {
    if item in s.items && s.items[item].writeTs > s.active[txn] {
      var a :| a in s.history && a.WriteAccess? && a.item == item && a.ts == s.items[item].writeTs;
      assert WrittenLater(s.history, item, s.active[txn]);
    }
  }

  lemma {:induction false} WriteGrantedIff(s: State, txn: int, item: int, value: int)
    requires Bounded(s) && Attained(s) && txn in s.active
    ensures Granted(s, Write(txn, item, value)) <==> !UsedLater(s.history, item, s.active[txn])
  {
    if item in s.items {
      var d, ts := s.items[item], s.active[txn];
      assert AttainedBy(s.history, item, d);
      if d.writeTs > ts {
        var a :| a in s.history && a.WriteAccess? && a.item == item && a.ts == d.writeTs;
      }
      if d.readTs > ts {
        var a :| a in s.history && a.ReadAccess? && a.item == item && a.ts == d.readTs;
      }
    }
  }

  /**
   For every run: a read by an active transaction of an item written before is refused exactly when
   some granted write of the item has a larger timestamp, and a write exactly when some granted
   access of the item has one.
   */
  lemma {:induction false} RefusedExactlyWhenLate(rs: seq<Request>, txn: int, item: int, value: int)
    requires txn in Run(rs).active
    ensures var s := Run(rs);
            && (Written(s.history, item) ==>
                  (!Granted(s, Read(txn, item)) <==> WrittenLater(s.history, item, s.active[txn])))
            && (!Granted(s, Write(txn, item, value)) <==> UsedLater(s.history, item, s.active[txn]))
  {
    RunKeepsInv(rs);
    RunAttained(rs);
    ReadGrantedIff(Run(rs), txn, item);
    WriteGrantedIff(Run(rs), txn, item, value);
  }

  // ----- the refinement -----

  /** The two know the same transactions, what became of them, and the same accesses. */
  ghost predicate Agree(s: State, p: Plain) {
    && s.active.Keys == s.current.Keys == p.live.Keys
    && (forall t :: t in p.live ==> p.live[t] == (s.current[t], s.active[t]))
    && |p.fates| == |s.begun| && (forall i :: 0 <= i < |p.fates| ==> s.begun[i].fate == p.fates[i])
    && s.history == p.accesses
  }

  lemma {:induction false} FinishAgrees(s: State, p: Plain, txn: int, fate: Fate)
    requires Tracked(s) && Placed(p) && Agree(s, p)
    ensures Agree(Finish(s, txn, fate), End(p, txn, fate))
  {
  }

  lemma {:induction false} ReadAgrees(s: State, p: Plain, txn: int, item: int)
    requires Inv(s) && Attained(s) && Placed(p) && Agree(s, p)
    ensures Agree(Step(s, Read(txn, item)), PlainStep(p, Read(txn, item)))
  {
    if txn in s.active {
      ReadGrantedIff(s, txn, item);
      if Granted(s, Read(txn, item)) {
        assert Values(s.items)[item] == s.items[item].value;
      } else {
        FinishAgrees(s, p, txn, Aborted);
      }
    }
  }

  lemma {:induction false} WriteAgrees(s: State, p: Plain, txn: int, item: int, value: int)
    requires Inv(s) && Attained(s) && Placed(p) && Agree(s, p)
    ensures Agree(Step(s, Write(txn, item, value)), PlainStep(p, Write(txn, item, value)))
  {
    if txn in s.active {
      WriteGrantedIff(s, txn, item, value);
      if !Granted(s, Write(txn, item, value)) {
        FinishAgrees(s, p, txn, Aborted);
      }
    }
  }

  lemma {:induction false} StepAgrees(s: State, p: Plain, r: Request)
    requires Inv(s) && Attained(s) && Placed(p) && Agree(s, p)
    ensures Agree(Step(s, r), PlainStep(p, r))
  {
    match r
    case Begin(_, _) =>
    case Commit(txn, _) => FinishAgrees(s, p, txn, Committed);
    case Abort(txn) => FinishAgrees(s, p, txn, Aborted);
    case Read(txn, item) => ReadAgrees(s, p, txn, item);
    case Write(txn, item, value) => WriteAgrees(s, p, txn, item, value);
  }

  /** Over every run the scheduler does what the reference does, and an item holds what was last written to it. */
  lemma {:induction false} SchedulerIsPlain(rs: seq<Request>)
    ensures Agree(Run(rs), PlainRun(rs)) && Values(Run(rs).items) == Replay(PlainRun(rs).accesses)
  {
    RunKeepsInv(rs);
    if rs == [] {
    } else {
      var init := rs[..|rs| - 1];
      SchedulerIsPlain(init);
      RunKeepsInv(init);
      RunAttained(init);
      StepAgrees(Run(init), PlainRun(init), rs[|rs| - 1]);
    }
  }
}
