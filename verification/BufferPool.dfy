/**
 The buffer pool over a disk: pages are cached, changed in the cache and written back late. The
 operations of the pool are atomic, but a client changes a page between them, through the page
 it was given, and marks it dirty later or never. The reference is a plain store of pages; the
 pool looks like it exactly as long as no write is lost, and what loses one is stated below.
 */
module BufferPool {
  import opened UseLog

  type Data = seq<char>

  /** A page that was never written: 4096 zero bytes. */
  function BlankPage(): Data {
    seq(4096, i => '\0')
  }

  type Disk = map<int, Data>

  function ReadPage(disk: Disk, id: int): Data {
    if id in disk then disk[id] else BlankPage()
  }

  datatype Frame = Frame(data: Data, dirty: bool)

  /** The cached pages, their ids with the most recently used first, and the disk. */
  datatype Pool = Pool(table: map<int, Frame>, lru: seq<int>, disk: Disk)

  datatype Op =
    | Fetch(id: int)
    | Change(id: int, data: Data)         // a client writes to the cached page, which stays as clean or dirty as it was
    | StaleChange(id: int, data: Data)    // a client writes to a page that has been evicted since it was fetched
    | MarkDirty(id: int)
    | Flush(id: int)
    | FlushAll

  function Back(s: Pool): int
    requires s.lru != []
  {
    s.lru[|s.lru| - 1]
  }

  function WriteIfDirty(disk: Disk, id: int, frame: Frame): Disk {
    if frame.dirty then disk[id := frame.data] else disk
  }

  /** The list names the cached pages, each once. */
  ghost predicate Listed(s: Pool) {
    Distinct(s.lru) && forall id :: id in s.lru <==> id in s.table
  }

  /** The page at the back goes, written back first if it is dirty. */
  function EvictOne(s: Pool): (r: Pool)
    requires s.lru != [] && Back(s) in s.table
    ensures Listed(s) ==> Listed(r)
  {
    assert s.lru == s.lru[..|s.lru| - 1] + [Back(s)];
    Pool(s.table - {Back(s)}, s.lru[..|s.lru| - 1], WriteIfDirty(s.disk, Back(s), s.table[Back(s)]))
  }

  /** A negative capacity, compared as an unsigned number, is never reached. */
  function Evict(capacity: int, s: Pool): Pool
    requires capacity != 0 && Listed(s)
    decreases |s.lru|
  {
    if capacity > 0 && |s.lru| >= capacity then Evict(capacity, EvictOne(s)) else s
  }

  function Load(s: Pool, id: int): Pool {
    Pool(s.table[id := Frame(ReadPage(s.disk, id), false)], [id] + s.lru, s.disk)
  }

  function FetchStep(capacity: int, s: Pool, id: int): Pool
    requires capacity != 0 && Listed(s)
  {
    if id in s.table then s.(lru := [id] + Remove(s.lru, id)) else Load(Evict(capacity, s), id)
  }

  function ChangeStep(s: Pool, id: int, data: Data): Pool {
    if id in s.table then s.(table := s.table[id := Frame(data, s.table[id].dirty)]) else s
  }

  function MarkDirtyStep(s: Pool, id: int): Pool {
    if id in s.table then s.(table := s.table[id := Frame(s.table[id].data, true)]) else s
  }

  function FlushStep(s: Pool, id: int): Pool {
    if id in s.table && s.table[id].dirty then
      s.(table := s.table[id := Frame(s.table[id].data, false)], disk := s.disk[id := s.table[id].data])
    else s
  }

  function AllClean(table: map<int, Frame>): map<int, Frame> {
    map id | id in table :: Frame(table[id].data, false)
  }

  function DirtyPages(table: map<int, Frame>): Disk {
    map id | id in table && table[id].dirty :: table[id].data
  }

  /** All dirty pages are written back. */
  function FlushAllStep(s: Pool): Pool {
    Pool(AllClean(s.table), s.lru, s.disk + DirtyPages(s.table))
  }

  // ----- runs -----

  lemma {:induction false} EvictListed(capacity: int, s: Pool)
    requires Listed(s) && capacity != 0
    ensures Listed(Evict(capacity, s)) && Evict(capacity, s).lru <= s.lru
    ensures capacity > 0 ==> |Evict(capacity, s).lru| < capacity
    decreases |s.lru|
  {
    if capacity > 0 && |s.lru| >= capacity {
      EvictListed(capacity, EvictOne(s));
    }
  }

  lemma {:induction false} FetchListed(capacity: int, s: Pool, id: int)
    requires Listed(s) && capacity != 0
    ensures Listed(FetchStep(capacity, s, id)) && id in FetchStep(capacity, s, id).table
  {
    if id in s.table {
      RemoveElements(s.lru, id);
    } else {
      var room := Evict(capacity, s);
      EvictListed(capacity, s);
      assert id !in room.lru;
    }
  }

  ghost function Step(capacity: int, s: Pool, op: Op): (r: Pool)
    requires capacity != 0 && Listed(s)
    ensures Listed(r)
  {
    match op
    case Fetch(id) =>
      FetchListed(capacity, s, id);
      FetchStep(capacity, s, id)
    case Change(id, data) => ChangeStep(s, id, data)
    case StaleChange(_, _) => s
    case MarkDirty(id) => MarkDirtyStep(s, id)
    case Flush(id) => FlushStep(s, id)
    case FlushAll => FlushAllStep(s)
  }

  ghost function Run(capacity: int, disk: Disk, ops: seq<Op>): (r: Pool)
    requires capacity != 0
    ensures Listed(r)
  {
    if ops == [] then Pool(map[], [], disk) else Step(capacity, Run(capacity, disk, ops[..|ops| - 1]), ops[|ops| - 1])
  }

  lemma {:induction false} Extend(capacity: int, disk: Disk, ops: seq<Op>, op: Op)
    requires capacity != 0
    ensures Run(capacity, disk, ops + [op]) == Step(capacity, Run(capacity, disk, ops), op)
  {
    assert (ops + [op])[..|ops|] == ops;
  }

  lemma {:induction false} FetchSize(capacity: int, s: Pool, id: int)
    requires capacity > 0 && Listed(s) && |s.lru| <= capacity
    ensures |FetchStep(capacity, s, id).lru| <= capacity
  {
    if id in s.table {
      RemoveElements(s.lru, id);
    } else {
      EvictListed(capacity, s);
    }
  }

  /** The pool never holds more pages than its capacity. */
  lemma {:induction false} SizeWithinCapacity(capacity: int, disk: Disk, ops: seq<Op>)
    requires capacity > 0
    ensures |Run(capacity, disk, ops).lru| <= capacity
  {
    if ops == [] {
    } else {
      SizeWithinCapacity(capacity, disk, ops[..|ops| - 1]);
      if ops[|ops| - 1].Fetch? {
        FetchSize(capacity, Run(capacity, disk, ops[..|ops| - 1]), ops[|ops| - 1].id);
      }
    }
  }

  ghost predicate Fits(capacity: int, s: Pool) {
    capacity != 0 && Listed(s) && (capacity > 0 ==> |s.lru| <= capacity)
  }

  /** A page is evicted only from a full pool, and only one. */
  lemma {:induction false} EvictsAtMostOne(capacity: int, s: Pool)
    requires Fits(capacity, s)
    ensures if |s.lru| == capacity then s.lru != [] && Evict(capacity, s) == EvictOne(s) else Evict(capacity, s) == s
  {
  }

  lemma {:induction false} RunFits(capacity: int, disk: Disk, ops: seq<Op>)
    requires capacity != 0
    ensures Fits(capacity, Run(capacity, disk, ops))
  {
    if capacity > 0 {
      SizeWithinCapacity(capacity, disk, ops);
    }
  }

  // ----- what the pool holds -----

  /** The contents of a page as clients see them: the cached page, or the one on disk. */
  function Contents(s: Pool, id: int): Data {
    if id in s.table then s.table[id].data else ReadPage(s.disk, id)
  }

  /** A cached page was changed and not marked: it counts as clean and is not as on disk. */
  predicate Unmarked(s: Pool, id: int) {
    id in s.table && !s.table[id].dirty && s.table[id].data != ReadPage(s.disk, id)
  }

  /** An eviction leaves the contents as they were exactly when the victim is dirty or as on disk. */
  lemma {:induction false} EvictKeepsContentsIff(s: Pool)
    requires Listed(s) && s.lru != []
    ensures (forall id :: Contents(EvictOne(s), id) == Contents(s, id)) <==> !Unmarked(s, Back(s))
  {
    if Unmarked(s, Back(s)) {
      assert Contents(EvictOne(s), Back(s)) != Contents(s, Back(s));
    }
  }

  /** What a page should be after an operation: only writes change it. */
  function Expected(s: Pool, op: Op, id: int): Data {
    if (op.Change? || op.StaleChange?) && op.id == id then op.data else Contents(s, id)
  }

  /**
   The operation loses a write: a fetch evicts a page that was changed and not marked, or a client
   writes something new to a page that is no longer the cached one.
   */
  predicate Loses(capacity: int, s: Pool, op: Op) {
    match op
    case Fetch(id) => id !in s.table && s.lru != [] && |s.lru| == capacity && Unmarked(s, Back(s))
    case Change(id, data) => id !in s.table && Contents(s, id) != data
    case StaleChange(id, data) => Contents(s, id) != data
    case _ => false
  }

  lemma {:induction false} LoadKeepsContents(s: Pool, id: int)
    requires id !in s.table
    ensures forall x :: Contents(Load(s, id), x) == Contents(s, x)
  {
  }

  lemma {:induction false} FetchLosesIff(capacity: int, s: Pool, id: int)
    requires Fits(capacity, s)
    ensures (forall x :: Contents(FetchStep(capacity, s, id), x) == Contents(s, x)) <==> !Loses(capacity, s, Fetch(id))
  {
    if id !in s.table {
      var room := Evict(capacity, s);
      EvictsAtMostOne(capacity, s);
      EvictListed(capacity, s);
      assert id !in room.lru;
      LoadKeepsContents(room, id);
      if |s.lru| == capacity {
        EvictKeepsContentsIff(s);
        assert (forall x :: Contents(FetchStep(capacity, s, id), x) == Contents(s, x)) <==>
               (forall x :: Contents(room, x) == Contents(s, x));
      }
    }
  }

  lemma {:induction false} FlushAllKeepsContents(s: Pool)
    ensures forall x :: Contents(FlushAllStep(s), x) == Contents(s, x)
  {
  }

  /** One operation does to the contents what it should exactly when it loses no write. */
  lemma {:induction false} StepAsExpectedIff(capacity: int, s: Pool, op: Op)
    requires Fits(capacity, s)
    ensures (forall x :: Contents(Step(capacity, s, op), x) == Expected(s, op, x)) <==> !Loses(capacity, s, op)
  {
    match op
    case Fetch(id) =>
      FetchLosesIff(capacity, s, id);
      assert forall x :: Expected(s, op, x) == Contents(s, x);
    case Change(id, data) =>
      assert Expected(s, op, id) == data;
    case StaleChange(id, data) =>
      assert Expected(s, op, id) == data;
    case MarkDirty(_) =>
    case Flush(_) =>
    case FlushAll => FlushAllKeepsContents(s);
  }

  /** The reference: a page is as last written by a client, or as it was on disk. */
  function LastWritten(disk: Disk, ops: seq<Op>, id: int): Data {
    if ops == [] then ReadPage(disk, id)
    else
      var op := ops[|ops| - 1];
      if (op.Change? || op.StaleChange?) && op.id == id then op.data else LastWritten(disk, ops[..|ops| - 1], id)
  }

  ghost predicate AsWritten(capacity: int, disk: Disk, ops: seq<Op>)
    requires capacity != 0
  {
    forall id :: Contents(Run(capacity, disk, ops), id) == LastWritten(disk, ops, id)
  }

  /** No operation of the run loses a write. */
  ghost predicate NothingLost(capacity: int, disk: Disk, ops: seq<Op>)
    requires capacity != 0
  {
    if ops == [] then true
    else
      var init := ops[..|ops| - 1];
      NothingLost(capacity, disk, init) && !Loses(capacity, Run(capacity, disk, init), ops[|ops| - 1])
  }

  lemma {:induction false} NextAsWrittenIff(capacity: int, disk: Disk, ops: seq<Op>)
    requires capacity != 0 && ops != [] && AsWritten(capacity, disk, ops[..|ops| - 1])
    ensures AsWritten(capacity, disk, ops) <==>
            !Loses(capacity, Run(capacity, disk, ops[..|ops| - 1]), ops[|ops| - 1])
  {
    var init, op := ops[..|ops| - 1], ops[|ops| - 1];
    var s := Run(capacity, disk, init);
    RunFits(capacity, disk, init);
    StepAsExpectedIff(capacity, s, op);
    forall id ensures LastWritten(disk, ops, id) == Expected(s, op, id) {
      assert Contents(s, id) == LastWritten(disk, init, id);
    }
  }

  lemma {:induction false} NothingLostAsWritten(capacity: int, disk: Disk, ops: seq<Op>)
    requires capacity != 0 && NothingLost(capacity, disk, ops)
    ensures AsWritten(capacity, disk, ops)
  {
    if ops == [] {
    } else {
      NothingLostAsWritten(capacity, disk, ops[..|ops| - 1]);
      NextAsWrittenIff(capacity, disk, ops);
    }
  }

  lemma {:induction false} PrefixLosesNothing(capacity: int, disk: Disk, ops: seq<Op>, k: nat)
    requires capacity != 0 && NothingLost(capacity, disk, ops) && k <= |ops|
    ensures NothingLost(capacity, disk, ops[..k])
  {
    if k == |ops| {
      assert ops[..k] == ops;
    } else {
      PrefixLosesNothing(capacity, disk, ops[..|ops| - 1], k);
      assert ops[..|ops| - 1][..k] == ops[..k];
    }
  }

  lemma {:induction false} AsWrittenLosesNothing(capacity: int, disk: Disk, ops: seq<Op>)
    requires capacity != 0 && forall k :: 0 <= k <= |ops| ==> AsWritten(capacity, disk, ops[..k])
    ensures NothingLost(capacity, disk, ops)
  {
    if ops == [] {
    } else {
      var init := ops[..|ops| - 1];
      forall k | 0 <= k <= |init| ensures AsWritten(capacity, disk, init[..k]) {
        assert init[..k] == ops[..k];
      }
      AsWrittenLosesNothing(capacity, disk, init);
      assert ops[..|ops|] == ops;
      NextAsWrittenIff(capacity, disk, ops);
    }
  }

  /** Pages are as last written, throughout a run, exactly when no operation of the run loses a write. */
  lemma {:induction false} PagesAsWrittenIff(capacity: int, disk: Disk, ops: seq<Op>)
    requires capacity != 0
    ensures NothingLost(capacity, disk, ops) <==> forall k :: 0 <= k <= |ops| ==> AsWritten(capacity, disk, ops[..k])
  {
    if NothingLost(capacity, disk, ops) {
      forall k | 0 <= k <= |ops| ensures AsWritten(capacity, disk, ops[..k]) {
        PrefixLosesNothing(capacity, disk, ops, k);
        NothingLostAsWritten(capacity, disk, ops[..k]);
      }
    } else if forall k :: 0 <= k <= |ops| ==> AsWritten(capacity, disk, ops[..k]) {
      AsWrittenLosesNothing(capacity, disk, ops);
    }
  }

  // ----- the disk -----

  /** Flushing everything brings the disk up to date exactly when no change is left unmarked. */
  lemma {:induction false} FlushAllUpdatesDiskIff(s: Pool)
    ensures (forall x :: ReadPage(FlushAllStep(s).disk, x) == Contents(s, x)) <==> forall x :: !Unmarked(s, x)
  {
    forall x ensures ReadPage(FlushAllStep(s).disk, x) == Contents(s, x) <==> !Unmarked(s, x) {
    }
  }

  /** So at the end of a run that lost nothing, the disk holds the last writes exactly then. */
  lemma {:induction false} FlushedDiskIsLastWrittenIff(capacity: int, disk: Disk, ops: seq<Op>)
    requires capacity != 0 && NothingLost(capacity, disk, ops)
    ensures (forall id :: ReadPage(Run(capacity, disk, ops + [FlushAll]).disk, id) == LastWritten(disk, ops, id)) <==>
            forall id :: !Unmarked(Run(capacity, disk, ops), id)
  {
    var s := Run(capacity, disk, ops);
    Extend(capacity, disk, ops, FlushAll);
    NothingLostAsWritten(capacity, disk, ops);
    assert forall id :: Contents(s, id) == LastWritten(disk, ops, id);
    FlushAllUpdatesDiskIff(s);
  }

  /** Flushing a page brings it up to date on disk exactly when it has no unmarked change, and touches no other. */
  lemma {:induction false} FlushUpdatesPageIff(s: Pool, id: int)
    ensures ReadPage(FlushStep(s, id).disk, id) == Contents(s, id) <==> !Unmarked(s, id)
    ensures forall x :: x != id ==> ReadPage(FlushStep(s, id).disk, x) == ReadPage(s.disk, x)
  {
  }

  lemma {:induction false} FlushedPageIsLastWrittenIff(capacity: int, disk: Disk, ops: seq<Op>, id: int)
    requires capacity != 0 && NothingLost(capacity, disk, ops)
    ensures var s, s' := Run(capacity, disk, ops), Run(capacity, disk, ops + [Flush(id)]);
            && (ReadPage(s'.disk, id) == LastWritten(disk, ops, id) <==> !Unmarked(s, id))
            && forall x :: x != id ==> ReadPage(s'.disk, x) == ReadPage(s.disk, x)
  {
    var s := Run(capacity, disk, ops);
    Extend(capacity, disk, ops, Flush(id));
    NothingLostAsWritten(capacity, disk, ops);
    assert Contents(s, id) == LastWritten(disk, ops, id);
    FlushUpdatesPageIff(s, id);
  }

  /** The page was marked while it was cached, and neither flushed nor loaded anew since. */
  ghost predicate MarkedSince(capacity: int, disk: Disk, ops: seq<Op>, id: int)
    requires capacity != 0
  {
    if ops == [] then false
    else
      var init, op := ops[..|ops| - 1], ops[|ops| - 1];
      var cached, before := id in Run(capacity, disk, init).table, MarkedSince(capacity, disk, init, id);
      match op
      case MarkDirty(x) => if x == id then cached else before
      case Flush(x) => x != id && before
      case FlushAll => false
      case Fetch(x) => (x != id || cached) && before
      case _ => before
  }

  lemma {:induction false} EvictKeepsFrames(capacity: int, s: Pool)
    requires capacity != 0 && Listed(s)
    ensures forall x :: x in Evict(capacity, s).table ==> x in s.table && Evict(capacity, s).table[x] == s.table[x]
    decreases |s.lru|
  {
    if capacity > 0 && |s.lru| >= capacity {
      EvictKeepsFrames(capacity, EvictOne(s));
    }
  }

  /** In every run a cached page is dirty exactly when it was so marked. */
  lemma {:induction false} DirtyIff(capacity: int, disk: Disk, ops: seq<Op>, id: int)
    requires capacity != 0 && id in Run(capacity, disk, ops).table
    ensures Run(capacity, disk, ops).table[id].dirty <==> MarkedSince(capacity, disk, ops, id)
  {
    var init, op := ops[..|ops| - 1], ops[|ops| - 1];
    var s := Run(capacity, disk, init);
    if op.Fetch? {
      EvictKeepsFrames(capacity, s);
    }
    if id in s.table {
      DirtyIff(capacity, disk, init, id);
    }
  }

  // ----- a discipline for clients -----

  /** The pages that were asked for, in order. */
  function Touched(ops: seq<Op>): seq<int> {
    if ops == [] then []
    else
      var init, op := Touched(ops[..|ops| - 1]), ops[|ops| - 1];
      if op.Fetch? then init + [op.id] else init
  }

  /** The pages that were written and not marked since, by the calls alone. */
  function Pending(ops: seq<Op>): set<int> {
    if ops == [] then {}
    else
      var init, op := Pending(ops[..|ops| - 1]), ops[|ops| - 1];
      if op.Change? then init + {op.id} else if op.MarkDirty? then init - {op.id} else init
  }

  /** Clients write only to cached pages, and nothing is fetched before every written page is marked. */
  ghost predicate Disciplined(capacity: int, disk: Disk, ops: seq<Op>)
    requires capacity != 0
  {
    if ops == [] then true
    else
      var init, op := ops[..|ops| - 1], ops[|ops| - 1];
      && Disciplined(capacity, disk, init) && !op.StaleChange?
      && (op.Fetch? ==> Pending(init) == {})
      && (op.Change? ==> op.id in Run(capacity, disk, init).table)
  }

  /** The same as far as the calls show it: the page fetched last is surely cached. */
  predicate DisciplinedCalls(ops: seq<Op>) {
    if ops == [] then true
    else
      var init, op := ops[..|ops| - 1], ops[|ops| - 1];
      && DisciplinedCalls(init) && !op.StaleChange?
      && (op.Fetch? ==> Pending(init) == {})
      && (op.Change? ==> Touched(init) != [] && Touched(init)[|Touched(init)| - 1] == op.id)
  }

  lemma {:induction false} FetchLeavesNoMore(capacity: int, s: Pool, id: int, x: int)
    requires Fits(capacity, s) && Unmarked(FetchStep(capacity, s, id), x)
    ensures Unmarked(s, x)
  {
    if id !in s.table {
      EvictsAtMostOne(capacity, s);
    }
  }

  /** Only a pending page can be unmarked in the pool. */
  lemma {:induction false} UnmarkedIsPending(capacity: int, disk: Disk, ops: seq<Op>, id: int)
    requires capacity != 0 && Unmarked(Run(capacity, disk, ops), id)
    ensures id in Pending(ops)
  {
    var init, op := ops[..|ops| - 1], ops[|ops| - 1];
    if !(op.Change? && op.id == id) {
      RunFits(capacity, disk, init);
      if op.Fetch? {
        FetchLeavesNoMore(capacity, Run(capacity, disk, init), op.id, id);
      }
      UnmarkedIsPending(capacity, disk, init, id);
    }
  }

  lemma {:induction false} LastTouchedIsCached(capacity: int, disk: Disk, ops: seq<Op>)
    requires capacity != 0 && Touched(ops) != []
    ensures Touched(ops)[|Touched(ops)| - 1] in Run(capacity, disk, ops).table
  {
    var init, op := ops[..|ops| - 1], ops[|ops| - 1];
    if op.Fetch? {
      FetchListed(capacity, Run(capacity, disk, init), op.id);
    } else {
      LastTouchedIsCached(capacity, disk, init);
    }
  }

  /**
   Clients that write to cached pages and mark them before the next fetch lose nothing; what is
   unmarked is pending.
   */
  lemma {:induction false} DisciplineLosesNothing(capacity: int, disk: Disk, ops: seq<Op>)
    requires capacity != 0 && Disciplined(capacity, disk, ops)
    ensures NothingLost(capacity, disk, ops)
    ensures Pending(ops) == {} ==> forall id :: !Unmarked(Run(capacity, disk, ops), id)
  {
    if ops == [] {
    } else {
      DisciplineLosesNothing(capacity, disk, ops[..|ops| - 1]);
    }
    forall id | Pending(ops) == {} ensures !Unmarked(Run(capacity, disk, ops), id) {
      if Unmarked(Run(capacity, disk, ops), id) {
        UnmarkedIsPending(capacity, disk, ops, id);
      }
    }
  }

  /** In particular clients that write only to the page fetched last, which the calls alone show. */
  lemma {:induction false} CallsShowDiscipline(capacity: int, disk: Disk, ops: seq<Op>)
    requires capacity != 0 && DisciplinedCalls(ops)
    ensures Disciplined(capacity, disk, ops)
  {
    if ops == [] {
    } else {
      var init := ops[..|ops| - 1];
      CallsShowDiscipline(capacity, disk, init);
      if ops[|ops| - 1].Change? {
        LastTouchedIsCached(capacity, disk, init);
      }
    }
  }

  /**
   To mark every change is not enough: in a pool of one page, a page is fetched and written,
   another is fetched, and the first is marked when it is gone. Its write is lost.
   */
  lemma {:induction false} MarkedTooLate(disk: Disk, data: Data)
    requires data != ReadPage(disk, 1)
    ensures var ops := [Fetch(1), Change(1, data), Fetch(2), MarkDirty(1)];
            LastWritten(disk, ops, 1) == data && Contents(Run(1, disk, ops), 1) == ReadPage(disk, 1)
  {
    var one, two, three := [Fetch(1)], [Fetch(1), Change(1, data)], [Fetch(1), Change(1, data), Fetch(2)];
    assert one == [] + [Fetch(1)] && two == one + [Change(1, data)] && three == two + [Fetch(2)];
    Extend(1, disk, [], Fetch(1));
    Extend(1, disk, one, Change(1, data));
    Extend(1, disk, two, Fetch(2));
    Extend(1, disk, three, MarkDirty(1));
    assert three + [MarkDirty(1)] == [Fetch(1), Change(1, data), Fetch(2), MarkDirty(1)];
    var s := Run(1, disk, two);
    assert s == Pool(map[1 := Frame(data, false)], [1], disk);
    EvictsAtMostOne(1, s);
    assert (three + [MarkDirty(1)])[..3] == three && three[..2] == two;
    assert LastWritten(disk, two, 1) == data;
  }

  // ----- who is evicted -----

  lemma {:induction false} FetchByLastUse(capacity: int, s: Pool, id: int, log: seq<int>)
    requires capacity != 0 && Listed(s) && ByLastUse(s.lru, log)
    ensures ByLastUse(FetchStep(capacity, s, id).lru, log + [id])
  {
    if id in s.table {
      RemoveByLastUse(s.lru, id, log);
      RemoveElements(s.lru, id);
      LogGrows(Remove(s.lru, id), log, id);
    } else {
      EvictListed(capacity, s);
      LogGrows(Evict(capacity, s).lru, log, id);
    }
  }

  /** In every run the list is in the order in which pages were last asked for. */
  lemma {:induction false} ListIsByLastUse(capacity: int, disk: Disk, ops: seq<Op>)
    requires capacity != 0
    ensures ByLastUse(Run(capacity, disk, ops).lru, Touched(ops))
  {
    if ops == [] {
    } else {
      var init, op := ops[..|ops| - 1], ops[|ops| - 1];
      ListIsByLastUse(capacity, disk, init);
      if op.Fetch? {
        FetchByLastUse(capacity, Run(capacity, disk, init), op.id, Touched(init));
      }
    }
  }

  lemma {:induction false} PrefixKeepsOrder(kept: seq<int>, all: seq<int>, log: seq<int>, gone: int, x: int)
    requires kept <= all && ByLastUse(all, log) && gone in all && gone !in kept && x in kept
    ensures Last(log, gone) < Last(log, x)
  {
    forall k | 0 <= k < |kept| ensures all[k] == kept[k] && all[k] != gone {
      assert kept[k] in kept;
    }
    var i :| 0 <= i < |all| && all[i] == gone;
    var j :| 0 <= j < |kept| && kept[j] == x;
  }

  /** A fetch that evicts a page keeps only pages that were asked for more recently. */
  lemma {:induction false} LeastRecentGoes(capacity: int, disk: Disk, ops: seq<Op>, id: int, gone: int, x: int)
    requires capacity != 0
    requires var s, s' := Run(capacity, disk, ops), Run(capacity, disk, ops + [Fetch(id)]);
             gone in s.table && gone !in s'.table && x in s'.table && x != id
    ensures Last(Touched(ops), gone) < Last(Touched(ops), x)
  {
    var s := Run(capacity, disk, ops);
    Extend(capacity, disk, ops, Fetch(id));
    ListIsByLastUse(capacity, disk, ops);
    EvictListed(capacity, s);
    PrefixKeepsOrder(Evict(capacity, s).lru, s.lru, Touched(ops), gone, x);
  }
}
