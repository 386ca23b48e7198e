/** The buffer manager's own objects: pages shared with clients by reference, a page table and a recency list. */
module BufferManager {
  import opened BufferPool
  import opened UseLog
  import Sets

  class Page {
    const pageId: int
    var dirty: bool
    var data: Data

    constructor (id: int, contents: Data)
      ensures pageId == id && !dirty && data == contents
    {
      pageId, dirty, data := id, false, contents;
    }
  }

  /** The pool with the pages of some ids flushed. */
  function PartFlushed(s: Pool, done: set<int>): Pool {
    Pool(PartClean(s.table, done), s.lru, s.disk + DirtyAmong(s.table, done))
  }

  function PartClean(table: map<int, Frame>, done: set<int>): map<int, Frame> {
    map id | id in table :: Frame(table[id].data, id !in done && table[id].dirty)
  }

  function DirtyAmong(table: map<int, Frame>, done: set<int>): Disk {
    map id | id in table && id in done && table[id].dirty :: table[id].data
  }

  lemma {:induction false} FlushOneMore(s: Pool, done: set<int>, id: int)
    requires id in s.table && id !in done
    ensures FlushStep(PartFlushed(s, done), id) == PartFlushed(s, done + {id})
  {
    var part, next := PartFlushed(s, done), PartFlushed(s, done + {id});
    if s.table[id].dirty {
      assert part.disk[id := s.table[id].data] == next.disk;
      assert part.table[id := Frame(s.table[id].data, false)] == next.table;
    } else {
      assert part.disk == next.disk;
      assert part.table == next.table;
    }
  }

  lemma {:induction false} FlushNone(s: Pool)
    ensures PartFlushed(s, {}) == s
  {
    assert DirtyAmong(s.table, {}) == map[];
    forall id | id in s.table ensures PartClean(s.table, {})[id] == s.table[id] {
    }
    assert PartClean(s.table, {}) == s.table;
    assert s.disk + map[] == s.disk;
  }

  lemma {:induction false} FlushedAll(s: Pool)
    ensures PartFlushed(s, s.table.Keys) == FlushAllStep(s)
  {
    assert DirtyAmong(s.table, s.table.Keys) == DirtyPages(s.table);
    assert PartClean(s.table, s.table.Keys) == AllClean(s.table);
  }

  class Manager {
    const capacity: int
    var disk: Disk
    var lruList: seq<int>
    var pageTable: map<int, Page>
    ghost const initial: Disk
    ghost var pages: set<Page>
    ghost var ops: seq<Op>

    ghost predicate Linked()
      reads this
    {
      forall id :: id in pageTable ==> pageTable[id] in pages && pageTable[id].pageId == id
    }

    ghost function Frames(): map<int, Frame>
      requires Linked()
      reads this, pages
    {
      map id | id in pageTable :: Frame(pageTable[id].data, pageTable[id].dirty)
    }

    ghost function View(): Pool
      requires Linked()
      reads this, pages
    {
      Pool(Frames(), lruList, disk)
    }

    /** The objects are in the state that the operations so far lead to. */
    ghost predicate Valid()
      reads this, pages
    {
      capacity != 0 && Linked() && View() == Run(capacity, initial, ops)
    }

    /** A capacity of 0 leaves nothing to evict for the first page. */
    constructor (cap: int, storage: Disk)
      requires cap != 0
      ensures Valid() && ops == [] && capacity == cap && initial == storage && fresh(pages)
    {
      capacity, disk, initial := cap, storage, storage;
      lruList, pageTable, pages, ops := [], map[], {}, [];
    }

    ghost method Record(op: Op)
      requires capacity != 0 && Linked() && View() == Step(capacity, Run(capacity, initial, ops), op)
      modifies this`ops
      ensures Valid() && ops == old(ops) + [op]
    {
      Extend(capacity, initial, ops, op);
      ops := ops + [op];
    }

    method EvictLast()
      requires Linked() && Listed(View()) && lruList != []
      modifies this`disk, this`lruList, this`pageTable
      ensures Linked() && View() == EvictOne(old(View()))
    {
      var evictId := lruList[|lruList| - 1];
      assert evictId in lruList && evictId in View().table;
      lruList := lruList[..|lruList| - 1];
      var page := pageTable[evictId];
      if page.dirty {
        disk := disk[page.pageId := page.data];
      }
      pageTable := pageTable - {evictId};
    }

    method EvictPage()
      requires capacity != 0 && Linked() && Listed(View())
      modifies this`disk, this`lruList, this`pageTable
      ensures Linked() && View() == Evict(capacity, old(View()))
    {
      ListSize(lruList, pageTable.Keys);
      while capacity > 0 && |pageTable| >= capacity
        invariant Linked() && Listed(View()) && Evict(capacity, View()) == Evict(capacity, old(View()))
        invariant |pageTable| == |lruList|
        decreases |lruList|
      {
        EvictLast();
        ListSize(lruList, pageTable.Keys);
      }
    }

    method Load(id: int) returns (page: Page)
      requires Linked() && id !in pageTable
      modifies this`lruList, this`pageTable, this`pages
      ensures Linked() && id in pageTable && page == pageTable[id] && fresh(page) && pages == old(pages) + {page}
      ensures View() == BufferPool.Load(old(View()), id)
    {
      page := new Page(id, ReadPage(disk, id));
      pageTable := pageTable[id := page];
      lruList := [id] + lruList;
      pages := pages + {page};
    }

    /** Brings the page in and makes it the most recently used; operations are recorded by the callers. */
    method Bring(id: int) returns (page: Page)
      requires capacity != 0 && Linked() && Listed(View())
      modifies this`disk, this`lruList, this`pageTable, this`pages
      ensures Linked() && id in pageTable && page == pageTable[id]
      ensures View() == FetchStep(capacity, old(View()), id) && old(pages) <= pages && fresh(pages - old(pages))
    {
      if id in pageTable {
        lruList := [id] + Remove(lruList, id);
        page := pageTable[id];
      } else {
        EvictListed(capacity, View());
        EvictPage();
        assert id !in lruList && Listed(View());
        page := Load(id);
      }
    }

    method FetchPage(id: int) returns (page: Page)
      requires Valid()
      modifies this
      ensures Valid() && ops == old(ops) + [Fetch(id)] && old(pages) <= pages && fresh(pages - old(pages))
      ensures id in pageTable && page == pageTable[id] && page in pages
      ensures NothingLost(capacity, initial, ops) ==> page.data == LastWritten(initial, ops, id)
    {
      page := Bring(id);
      Record(Fetch(id));
      if NothingLost(capacity, initial, ops) {
        NothingLostAsWritten(capacity, initial, ops);
        assert page.data == Contents(View(), id);
      }
    }

    /** A change made through a page changes its frame and no other. */
    method SetPage(page: Page, data: Data, dirty: bool)
      requires Linked() && page.pageId in pageTable && pageTable[page.pageId] == page
      modifies page
      ensures Linked() && View() == old(View()).(table := old(View()).table[page.pageId := Frame(data, dirty)])
    {
      page.data, page.dirty := data, dirty;
      forall id | id in pageTable && id != page.pageId ensures Frames()[id] == old(Frames()[id]) {
        assert pageTable[id].pageId == id;
      }
      assert Frames() == old(Frames())[page.pageId := Frame(data, dirty)];
    }

    /** The page is the one that the table holds, and not one evicted since it was fetched. */
    ghost predicate Cached(page: Page)
      reads this
    {
      page.pageId in pageTable && pageTable[page.pageId] == page
    }

    /** A client writes through a page it was given at some time; whether the pool still holds it, it cannot see. */
    method WritePage(page: Page, data: Data)
      requires Valid() && page in pages
      modifies this`ops, page
      ensures Valid() && page.data == data && page.dirty == old(page.dirty)
      ensures ops == old(ops) + [if Cached(page) then Change(page.pageId, data) else StaleChange(page.pageId, data)]
    {
      page.data := data;
      forall id | id in pageTable && id != page.pageId ensures Frames()[id] == old(Frames()[id]) {
        assert pageTable[id].pageId == id;
      }
      if Cached(page) {
        assert Frames() == old(Frames())[page.pageId := Frame(data, page.dirty)];
        Record(Change(page.pageId, data));
      } else {
        assert page.pageId in pageTable ==> Frames()[page.pageId] == old(Frames()[page.pageId]);
        assert Frames() == old(Frames());
        Record(StaleChange(page.pageId, data));
      }
    }

    method MarkPage(id: int)
      requires Valid()
      modifies this, pages
      ensures Valid() && ops == old(ops) + [MarkDirty(id)] && pages == old(pages)
    {
      if id in pageTable {
        SetPage(pageTable[id], pageTable[id].data, true);
      }
      Record(MarkDirty(id));
    }

    method WriteBack(id: int)
      requires Linked()
      modifies this`disk, pages
      ensures Linked() && View() == FlushStep(old(View()), id)
    {
      if id in pageTable && pageTable[id].dirty {
        var page := pageTable[id];
        disk := disk[id := page.data];
        SetPage(page, page.data, false);
      }
    }

    method FlushPage(id: int)
      requires Valid()
      modifies this, pages
      ensures Valid() && ops == old(ops) + [Flush(id)] && pages == old(pages)
    {
      WriteBack(id);
      Record(Flush(id));
    }

    /** Writes back every dirty page, in the order the table happens to give. */
    method WriteAllBack()
      requires Linked()
      modifies this`disk, pages
      ensures Linked() && View() == FlushAllStep(old(View()))
    {
      ghost var s := View();
      ghost var done: set<int> := {};
      FlushNone(s);
      var rest := pageTable.Keys;
      while rest != {}
        invariant Linked() && View() == PartFlushed(s, done)
        invariant rest <= s.table.Keys && done == s.table.Keys - rest
      {
        var id := Sets.AnyOf(rest);
        FlushOneMore(s, done, id);
        WriteBack(id);
        rest, done := rest - {id}, done + {id};
      }
      assert done == s.table.Keys;
      FlushedAll(s);
    }

    method FlushAllPages()
      requires Valid()
      modifies this, pages
      ensures Valid() && ops == old(ops) + [FlushAll] && pages == old(pages)
      ensures NothingLost(capacity, initial, old(ops)) ==>
                ((forall id :: ReadPage(disk, id) == LastWritten(initial, old(ops), id)) <==>
                 forall id :: !Unmarked(old(View()), id))
    {
      WriteAllBack();
      Record(FlushAll);
      if NothingLost(capacity, initial, old(ops)) {
        FlushedDiskIsLastWrittenIff(capacity, initial, old(ops));
      }
    }
  }
}
