/**
 Aborts under timestamp ordering. An abort leaves the transaction's writes in place, so others
 can read them. Which transaction's write a read returns is decided by the history before it;
 as long as no surviving read returned the write of an aborted transaction, the aborted ones
 can be struck out of the equivalent serial history.
 */
module TimestampAborts {
  import opened TimestampOrdering

  // ----- whose write a read returns -----

  /** The place of the last write to an item, or -1. */
  function LastWrite(h: seq<Access>, item: int): (j: int)
    ensures -1 <= j < |h|
    ensures j >= 0 ==> h[j].WriteAccess? && h[j].item == item
    ensures forall k :: j < k < |h| && h[k].WriteAccess? ==> h[k].item != item
  {
    if h == [] then -1
    else if h[|h| - 1].WriteAccess? && h[|h| - 1].item == item then |h| - 1
    else LastWrite(h[..|h| - 1], item)
  }

  /** Access k returns the value of write j: no write to the item lies between them. */
  predicate ReadsFrom(h: seq<Access>, k: nat, j: nat) {
    && j < k < |h| && h[k].ReadAccess? && h[j].WriteAccess? && h[j].item == h[k].item && h[j].value == h[k].value
    && forall i :: j < i < k && h[i].WriteAccess? ==> h[i].item != h[k].item
  }

  /** Access k returns a write of a transaction that has come to the given end. */
  ghost predicate ReturnsWriteOf(s: State, k: nat, fate: Fate) {
    exists j: nat :: ReadsFrom(s.history, k, j) && s.history[j].owner < |s.begun| &&
      s.begun[s.history[j].owner].fate == fate
  }

  lemma {:induction false} LastWriteIsStored(h: seq<Access>, item: int)
    ensures item in Replay(h) <==> LastWrite(h, item) >= 0
    ensures item in Replay(h) ==> Replay(h)[item] == h[LastWrite(h, item)].value
  {
    if h == [] {
    } else {
      LastWriteIsStored(h[..|h| - 1], item);
    }
  }

  lemma {:induction false} LastWriteIsRead(h: seq<Access>, a: Access)
    requires a.ReadAccess? && Fits(Replay(h), a)
    ensures LastWrite(h, a.item) >= 0
    ensures forall j: nat :: ReadsFrom(h + [a], |h|, j) <==> j == LastWrite(h, a.item)
  {
    LastWriteIsStored(h, a.item);
    var j0: nat := LastWrite(h, a.item);
    assert (h + [a])[j0] == h[j0];
  }

  /**
   For every run and every granted read: it returns a write of a transaction that has aborted, is
   still running or has committed, exactly as the last granted write of the item is one of such a
   transaction. That is known before the read.
   */
  lemma {:induction false} ReadReturnsWriteOfIff(rs: seq<Request>, txn: int, item: int, fate: Fate)
    requires Granted(Run(rs), Read(txn, item))
    ensures var s := Run(rs);
            var j := LastWrite(s.history, item);
            && 0 <= j && s.history[j].owner < |s.begun|
            && (ReturnsWriteOf(Run(rs + [Read(txn, item)]), |s.history|, fate) <==>
                s.begun[s.history[j].owner].fate == fate)
  {
    var s, r := Run(rs), Read(txn, item);
    RunKeepsInv(rs);
    StepKeepsInv(s, r);
    Extend(rs, r);
    var h, a := s.history, AccessOf(s, r);
    Append(h, a);
    LastWriteIsRead(h, a);
    var j: nat := LastWrite(h, item);
    assert h[j] in h;
    assert ReadsFrom(h + [a], |h|, j) && (h + [a])[j] == h[j];
  }

  // ----- striking out aborted transactions -----

  ghost function AbortedOnes(s: State): set<nat> {
    set i: nat | i < |s.begun| && s.begun[i].fate == Aborted
  }

  /** The accesses of the transactions that are not in the set. */
  function Without(h: seq<Access>, gone: set<nat>): seq<Access> {
    if h == [] then []
    else
      var rest := Without(h[..|h| - 1], gone);
      if h[|h| - 1].owner in gone then rest else rest + [h[|h| - 1]]
  }

  /** No access that stays reads a value written by one that goes. */
  ghost predicate ReadsOnlyKept(h: seq<Access>, gone: set<nat>) {
    forall k: nat, j: nat :: ReadsFrom(h, k, j) && h[k].owner !in gone ==> h[j].owner !in gone
  }

  lemma {:induction false} WithoutAppend(h: seq<Access>, a: Access, gone: set<nat>)
    ensures Without(h + [a], gone) == if a.owner in gone then Without(h, gone) else Without(h, gone) + [a]
  {
    assert (h + [a])[..|h|] == h;
  }

  lemma {:induction false} WithoutElement(h: seq<Access>, gone: set<nat>, x: Access)
    requires x in Without(h, gone)
    ensures x in h
  {
    if x !in Without(h[..|h| - 1], gone) {
      assert x == h[|h| - 1];
    } else {
      WithoutElement(h[..|h| - 1], gone, x);
    }
  }

  lemma {:induction false} WithoutNotLate(h: seq<Access>, gone: set<nat>)
    requires NotLate(h)
    ensures NotLate(Without(h, gone))
  {
    if h == [] {
    } else {
      var init, last := h[..|h| - 1], h[|h| - 1];
      var kept := Without(init, gone);
      WithoutNotLate(init, gone);
      forall x | x in kept && x.ts > last.ts ensures !Conflict(x, last) {
        WithoutElement(init, gone, x);
      }
      assert (kept + [last])[..|kept|] == kept;
    }
  }

  /** The place of the last write to an item by an access that stays, or -1. */
  function LastKept(h: seq<Access>, gone: set<nat>, item: int): (j: int)
    ensures -1 <= j < |h|
    ensures j >= 0 ==> h[j].WriteAccess? && h[j].item == item && h[j].owner !in gone
    ensures forall k :: j < k < |h| && h[k].WriteAccess? && h[k].owner !in gone ==> h[k].item != item
  {
    if h == [] then -1
    else
      var last := h[|h| - 1];
      if last.WriteAccess? && last.item == item && last.owner !in gone then |h| - 1
      else LastKept(h[..|h| - 1], gone, item)
  }

  /** What the last write that stays left in an item is there without the others, and nothing else is. */
  lemma {:induction false} LastKeptIsStored(h: seq<Access>, gone: set<nat>, item: int)
    ensures item in Replay(Without(h, gone)) <==> LastKept(h, gone, item) >= 0
    ensures item in Replay(Without(h, gone)) ==> Replay(Without(h, gone))[item] == h[LastKept(h, gone, item)].value
  {
    if h == [] {
    } else {
      var init, last := h[..|h| - 1], h[|h| - 1];
      LastKeptIsStored(init, gone, item);
      if last.owner !in gone {
        Append(Without(init, gone), last);
      }
    }
  }

  /** Access k, if it is a read that stays, returns the value of the last write before it that stays. */
  predicate ReadStands(h: seq<Access>, gone: set<nat>, k: nat)
    requires k < |h|
  {
    h[k].ReadAccess? && h[k].owner !in gone ==>
      var j := LastKept(h[..k], gone, h[k].item);
      j >= 0 && h[j].value == h[k].value
  }

  ghost predicate ReadsStand(h: seq<Access>, gone: set<nat>) {
    forall k: nat :: k < |h| ==> ReadStands(h, gone, k)
  }

  lemma {:induction false} ReadsStandAppend(h: seq<Access>, a: Access, gone: set<nat>)
    ensures ReadsStand(h + [a], gone) <==> ReadsStand(h, gone) && ReadStands(h + [a], gone, |h|)
  {
    var all := h + [a];
    forall k: nat | k < |h| ensures ReadStands(all, gone, k) <==> ReadStands(h, gone, k) {
      assert all[..k] == h[..k] && all[k] == h[k];
    }
  }

  lemma {:induction false} WithoutAppendLegalIff(h: seq<Access>, a: Access, gone: set<nat>)
    ensures Legal(Without(h + [a], gone)) <==> Legal(Without(h, gone)) && ReadStands(h + [a], gone, |h|)
  {
    WithoutAppend(h, a, gone);
    assert (h + [a])[..|h|] == h;
    if a.owner !in gone {
      Append(Without(h, gone), a);
      LastKeptIsStored(h, gone, a.item);
    }
  }

  /** A history without some transactions is legal exactly when every read that stays stands without them. */
  lemma {:induction false} WithoutLegalIff(h: seq<Access>, gone: set<nat>)
    ensures Legal(Without(h, gone)) <==> ReadsStand(h, gone)
  {
    if h == [] {
    } else {
      var init, last := h[..|h| - 1], h[|h| - 1];
      assert h == init + [last];
      WithoutLegalIff(init, gone);
      WithoutAppendLegalIff(init, last, gone);
      ReadsStandAppend(init, last, gone);
    }
  }

  lemma {:induction false} InsertWithout(h: seq<Access>, a: Access, gone: set<nat>)
    requires Sorted(h)
    ensures Without(InsertByTs(h, a), gone) ==
            if a.owner in gone then Without(h, gone) else InsertByTs(Without(h, gone), a)
  {
    if h == [] || h[|h| - 1].ts <= a.ts {
      WithoutAppend(h, a, gone);
      var kept := Without(h, gone);
      if kept != [] {
        WithoutElement(h, gone, kept[|kept| - 1]);
      }
    } else {
      var init, last := h[..|h| - 1], h[|h| - 1];
      InsertWithout(init, a, gone);
      WithoutAppend(InsertByTs(init, a), last, gone);
      var kept := Without(init, gone);
      assert (kept + [last])[..|kept|] == kept;
    }
  }

  /** Striking out and sorting can be done in either order. */
  lemma {:induction false} SortWithout(h: seq<Access>, gone: set<nat>)
    ensures Without(SortByTs(h), gone) == SortByTs(Without(h, gone))
  {
    if h == [] {
    } else {
      var init, last := h[..|h| - 1], h[|h| - 1];
      SortWithout(init, gone);
      SortIsStable(init, 0);
      InsertWithout(SortByTs(init), last, gone);
      SortAppend(Without(init, gone), last);
    }
  }

  /**
   The serial history without the aborted transactions is legal exactly when every surviving read
   returned the value of the last surviving write of its item before it in the run. The items are
   left, in any case, as the last surviving writes left them.
   */
  lemma {:induction false} StruckOutLegalIff(rs: seq<Request>)
    ensures var s, gone := Run(rs), AbortedOnes(Run(rs));
            var serial := Without(SortByTs(s.history), gone);
            && (Legal(serial) <==> ReadsStand(s.history, gone))
            && forall item :: (item in Replay(serial) <==> LastKept(s.history, gone, item) >= 0) &&
                 (item in Replay(serial) ==> Replay(serial)[item] == s.history[LastKept(s.history, gone, item)].value)
  {
    var h, gone := Run(rs).history, AbortedOnes(Run(rs));
    RunKeepsInv(rs);
    SortWithout(h, gone);
    WithoutNotLate(h, gone);
    SortingKeepsMeaning(Without(h, gone));
    WithoutLegalIff(h, gone);
    forall item
      ensures item in Replay(Without(h, gone)) <==> LastKept(h, gone, item) >= 0
      ensures item in Replay(Without(h, gone)) ==> Replay(Without(h, gone))[item] == h[LastKept(h, gone, item)].value
    {
      LastKeptIsStored(h, gone, item);
    }
  }

  /** A read of a kept write is one of the last kept write. */
  lemma {:induction false} KeptReadStands(h: seq<Access>, gone: set<nat>, k: nat)
    requires Legal(h) && ReadsOnlyKept(h, gone) && k < |h|
    ensures ReadStands(h, gone, k)
  {
    if h[k].ReadAccess? && h[k].owner !in gone {
      LegalRead(h, k);
      var j: nat := LastWrite(h[..k], h[k].item);
      assert ReadsFrom(h, k, j);
      assert h[..k][j] == h[j];
      var m := LastKept(h[..k], gone, h[k].item);
      assert m >= 0 ==> h[..k][m] == h[m];
    }
  }

  lemma {:induction false} LegalRead(h: seq<Access>, k: nat)
    requires Legal(h) && k < |h| && h[k].ReadAccess?
    ensures var j := LastWrite(h[..k], h[k].item); j >= 0 && ReadsFrom(h, k, j)
  {
    var init := h[..|h| - 1];
    if k == |init| {
      LastWriteIsRead(init, h[k]);
      assert h == init + [h[k]];
    } else {
      LegalRead(init, k);
      assert init[..k] == h[..k];
    }
  }

  /**
   In particular it is legal if no surviving transaction read a value that an aborted one had
   written; and every item whose last write survives ends with the value it has in the run.
   */
  lemma {:induction false} AbortedCanBeStruckOut(rs: seq<Request>)
    requires ReadsOnlyKept(Run(rs).history, AbortedOnes(Run(rs)))
    ensures var s, gone := Run(rs), AbortedOnes(Run(rs));
            var serial := Without(SortByTs(s.history), gone);
            && Legal(serial)
            && forall item :: LastWriteKept(s.history, gone, item) ==>
                 item in s.items && item in Replay(serial) && Replay(serial)[item] == s.items[item].value
  {
    var s, gone := Run(rs), AbortedOnes(Run(rs));
    RunKeepsInv(rs);
    forall k: nat | k < |s.history| ensures ReadStands(s.history, gone, k) {
      KeptReadStands(s.history, gone, k);
    }
    StruckOutLegalIff(rs);
    forall item | LastWriteKept(s.history, gone, item)
      ensures item in s.items && s.items[item].value == s.history[LastKept(s.history, gone, item)].value
      ensures LastKept(s.history, gone, item) >= 0
    {
      KeptItem(s, gone, item);
    }
  }

  /** The last write to the item is one that stays. */
  predicate LastWriteKept(h: seq<Access>, gone: set<nat>, item: int) {
    LastWrite(h, item) >= 0 && h[LastWrite(h, item)].owner !in gone
  }

  lemma {:induction false} KeptItem(s: State, gone: set<nat>, item: int)
    requires Inv(s) && LastWriteKept(s.history, gone, item)
    ensures LastKept(s.history, gone, item) == LastWrite(s.history, item)
    ensures item in s.items && s.items[item].value == s.history[LastWrite(s.history, item)].value
  {
    LastWriteIsStored(s.history, item);
    assert item in Values(s.items);
  }

  // ----- reading only what is committed -----

  /** The last write to the item is one of a committed transaction, or of the reader itself. */
  predicate SeesCommitted(s: State, txn: int, item: int) {
    var j := LastWrite(s.history, item);
    j >= 0 &&
    var owner := s.history[j].owner;
    owner == Owner(s, txn) || (owner < |s.begun| && s.begun[owner].fate == Committed)
  }

  /** Every granted read of the run sees a committed write or one of its own transaction. */
  ghost predicate ReadsCommitted(rs: seq<Request>) {
    if rs == [] then true
    else
      var s, r := Run(rs[..|rs| - 1]), rs[|rs| - 1];
      ReadsCommitted(rs[..|rs| - 1]) && (r.Read? && Granted(s, r) ==> SeesCommitted(s, r.txn, r.item))
  }

  /** Whatever was read is the reader's own or committed. */
  ghost predicate Clean(s: State) {
    forall k: nat, j: nat :: ReadsFrom(s.history, k, j) ==>
      var owner := s.history[j].owner;
      owner == s.history[k].owner || (owner < |s.begun| && s.begun[owner].fate == Committed)
  }

  lemma {:induction false} CommittedStays(s: State, r: Request, i: nat)
    requires Inv(s) && i < |s.begun| && s.begun[i].fate == Committed
    ensures i < |Step(s, r).begun| && Step(s, r).begun[i].fate == Committed
  {
    assert r.txn in s.active ==> s.begun[s.current[r.txn]].fate == Running;
  }

  lemma {:induction false} EarlierReads(h: seq<Access>, a: Access, k: nat, j: nat)
    requires ReadsFrom(h + [a], k, j) && k < |h|
    ensures ReadsFrom(h, k, j)
  {
    assert forall i :: 0 <= i < |h| ==> (h + [a])[i] == h[i];
  }

  lemma {:induction false} NewReadIsClean(s: State, r: Request, j: nat)
    requires Inv(s) && r.Read? && Granted(s, r) && SeesCommitted(s, r.txn, r.item)
    requires ReadsFrom(s.history + [AccessOf(s, r)], |s.history|, j)
    ensures j < |s.history| && (s.history[j].owner == AccessOf(s, r).owner ||
              (s.history[j].owner < |s.begun| && s.begun[s.history[j].owner].fate == Committed))
  {
    StepKeepsInv(s, r);
    Append(s.history, AccessOf(s, r));
    LastWriteIsRead(s.history, AccessOf(s, r));
  }

  lemma {:induction false} StepKeepsClean(s: State, r: Request)
    requires Inv(s) && Clean(s) && (r.Read? && Granted(s, r) ==> SeesCommitted(s, r.txn, r.item))
    ensures Clean(Step(s, r))
  {
    var s', h := Step(s, r), s.history;
    forall k: nat, j: nat | ReadsFrom(s'.history, k, j)
      ensures var owner := s'.history[j].owner;
              owner == s'.history[k].owner || (owner < |s'.begun| && s'.begun[owner].fate == Committed)
    {
      if k < |h| {
        if s'.history != h {
          EarlierReads(h, s'.history[|h|], k, j);
        }
      } else {
        NewReadIsClean(s, r, j);
      }
      var owner := h[j].owner;
      if owner < |s.begun| && s.begun[owner].fate == Committed {
        CommittedStays(s, r, owner);
      }
    }
  }

  lemma {:induction false} CommittedReadsAreClean(rs: seq<Request>)
    requires ReadsCommitted(rs)
    ensures Clean(Run(rs))
  {
    if rs == [] {
    } else {
      CommittedReadsAreClean(rs[..|rs| - 1]);
      RunKeepsInv(rs[..|rs| - 1]);
      StepKeepsClean(Run(rs[..|rs| - 1]), rs[|rs| - 1]);
    }
  }

  /**
   If before every granted read the last write to its item was committed or the reader's own, then
   at the end of the run, whoever has aborted, the aborted transactions can be struck out.
   */
  lemma {:induction false} CommittedReadsSurviveAborts(rs: seq<Request>)
    requires ReadsCommitted(rs)
    ensures ReadsOnlyKept(Run(rs).history, AbortedOnes(Run(rs)))
    ensures Legal(Without(SortByTs(Run(rs).history), AbortedOnes(Run(rs))))
  {
    CommittedReadsAreClean(rs);
    AbortedCanBeStruckOut(rs);
  }

  // ----- an aborted write that is read -----

  function DirtyRun(item: int, value: int): seq<Request> {
    [Begin(1, 1), Write(1, item, value), Abort(1), Begin(2, 2), Read(2, item)]
  }

  function DirtyState(item: int, value: int): State {
    State(map[item := DataItem(2, 1, value)], map[2 := 2], map[2 := 1],
          [Transaction(1, 1, Aborted), Transaction(2, 2, Running)],
          [WriteAccess(1, 1, item, value, 0), ReadAccess(2, 2, item, value, 1)])
  }

  lemma {:induction false} DirtySteps(item: int, value: int)
    ensures Step(Step(Step(Step(Step(INITIAL, Begin(1, 1)), Write(1, item, value)), Abort(1)), Begin(2, 2)),
                 Read(2, item)) ==
            DirtyState(item, value)
  {
    var w, items := WriteAccess(1, 1, item, value, 0), map[item := DataItem(0, 1, value)];
    var begun := State(map[], map[1 := 1], map[1 := 0], [Transaction(1, 1, Running)], []);
    var written := State(items, map[1 := 1], map[1 := 0], [Transaction(1, 1, Running)], [w]);
    var aborted := State(items, map[], map[], [Transaction(1, 1, Aborted)], [w]);
    var next := State(items, map[2 := 2], map[2 := 1], [Transaction(1, 1, Aborted), Transaction(2, 2, Running)], [w]);
    assert Step(INITIAL, Begin(1, 1)) == begun;
    assert Step(begun, Write(1, item, value)) == written;
    assert Step(written, Abort(1)) == aborted;
    assert Step(aborted, Begin(2, 2)) == next;
    assert Step(next, Read(2, item)) == DirtyState(item, value);
  }

  lemma {:induction false} DirtyRunEnds(item: int, value: int)
    ensures Run(DirtyRun(item, value)) == DirtyState(item, value)
  {
    var r1, r2 := [Begin(1, 1)], [Begin(1, 1), Write(1, item, value)];
    var r3 := r2 + [Abort(1)];
    var r4 := r3 + [Begin(2, 2)];
    assert r1 == [] + [Begin(1, 1)] && r2 == r1 + [Write(1, item, value)] &&
           DirtyRun(item, value) == r4 + [Read(2, item)];
    Extend([], Begin(1, 1));
    Extend(r1, Write(1, item, value));
    Extend(r2, Abort(1));
    Extend(r3, Begin(2, 2));
    Extend(r4, Read(2, item));
    DirtySteps(item, value);
  }

  lemma {:induction false} ReadAlone(w: Access, r: Access)
    requires r.ReadAccess? && w.owner == 0 && r.owner == 1
    ensures !Legal(Without(SortByTs([w, r]), {0}))
  {
    SortWithout([w, r], {0});
    assert [w, r] == [w] + [r] && [w] == [] + [w];
    WithoutAppend([], w, {0});
    WithoutAppend([w], r, {0});
    assert [] + [r] == [r];
    SortAppend([], r);
    Append([], r);
  }

  /**
   Transaction 1 aborts after writing, and transaction 2 reads its value: with transaction 1 struck
   out, nobody wrote what transaction 2 read.
   */
  lemma {:induction false} AbortedWriteIsRead(item: int, value: int)
    ensures var s := Run(DirtyRun(item, value));
            && s.history == [WriteAccess(1, 1, item, value, 0), ReadAccess(2, 2, item, value, 1)]
            && AbortedOnes(s) == {0} && ReturnsWriteOf(s, 1, Aborted)
            && !Legal(Without(SortByTs(s.history), AbortedOnes(s)))
  {
    var s := DirtyState(item, value);
    DirtyRunEnds(item, value);
    assert ReadsFrom(s.history, 1, 0);
    ReadAlone(s.history[0], s.history[1]);
  }
}
