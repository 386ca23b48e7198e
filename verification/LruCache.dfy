/**
 The least-recently-used cache over whole runs: its list is the resident keys by their last use,
 and a cache is included, at every moment of any run, in any larger one fed the same operations.
 */
module LruCache {
  import opened UseLog

  datatype Op = Get(key: int) | Put(key: int, value: int)

  /** The keys, the most recently used first, and their values. */
  datatype State = State(list: seq<int>, cache: map<int, int>)

  function MoveToFront(list: seq<int>, key: int): seq<int> {
    [key] + Remove(list, key)
  }

  /** A full cache drops the key at the back. */
  function MakeRoom(capacity: int, s: State): State {
    if |s.list| == capacity && s.list != [] then
      s.(list := s.list[..|s.list| - 1], cache := s.cache - {s.list[|s.list| - 1]})
    else s
  }

  function Step(capacity: int, s: State, op: Op): State {
    match op
    case Get(key) =>
      if key in s.cache then State(MoveToFront(s.list, key), s.cache) else s
    case Put(key, value) =>
      if key in s.cache then State(MoveToFront(s.list, key), s.cache[key := value])
      else
        var room := MakeRoom(capacity, s);
        State([key] + room.list, room.cache[key := value])
  }

  function Run(capacity: int, ops: seq<Op>): State {
    if ops == [] then State([], map[]) else Step(capacity, Run(capacity, ops[..|ops| - 1]), ops[|ops| - 1])
  }

  lemma {:induction false} Extend(capacity: int, ops: seq<Op>, op: Op)
    ensures Run(capacity, ops + [op]) == Step(capacity, Run(capacity, ops), op)
  {
    assert (ops + [op])[..|ops|] == ops;
  }

  // ----- the list is the resident keys by last use -----

  /** The keys of the operations, in order: each one uses its key, or finds it missing. */
  function Keys(ops: seq<Op>): seq<int> {
    if ops == [] then [] else Keys(ops[..|ops| - 1]) + [ops[|ops| - 1].key]
  }

  /** The list names the resident keys, each once. */
  ghost predicate Inv(s: State) {
    Distinct(s.list) && forall k :: k in s.list <==> k in s.cache
  }

  lemma {:induction false} FrontOrder(s: State, key: int, log: seq<int>)
    requires Inv(s) && ByLastUse(s.list, log)
    ensures var list := MoveToFront(s.list, key);
            Distinct(list) && ByLastUse(list, log + [key]) && forall k :: k in list <==> k in s.cache || k == key
  {
    RemoveElements(s.list, key);
    RemoveByLastUse(s.list, key, log);
    LogGrows(Remove(s.list, key), log, key);
  }

  lemma {:induction false} MakeRoomInv(capacity: int, s: State)
    requires Inv(s)
    ensures Inv(MakeRoom(capacity, s)) && MakeRoom(capacity, s).list <= s.list
  {
    if |s.list| == capacity && s.list != [] {
      var init, back := s.list[..|s.list| - 1], s.list[|s.list| - 1];
      assert s.list == init + [back];
    }
  }

  lemma {:induction false} MissOrder(list: seq<int>, key: int, log: seq<int>)
    requires ByLastUse(list, log) && key !in list
    ensures ByLastUse(list, log + [key])
  {
    LogGrows(list, log, key);
    assert forall i :: 0 <= i < |list| ==> ([key] + list)[i + 1] == list[i];
  }

  lemma {:induction false} StepOrder(capacity: int, s: State, op: Op, log: seq<int>)
    requires Inv(s) && ByLastUse(s.list, log)
    ensures Inv(Step(capacity, s, op)) && ByLastUse(Step(capacity, s, op).list, log + [op.key])
  {
    if op.key in s.cache {
      FrontOrder(s, op.key, log);
    } else if op.Put? {
      MakeRoomInv(capacity, s);
      LogGrows(MakeRoom(capacity, s).list, log, op.key);
    } else {
      MissOrder(s.list, op.key, log);
    }
  }

  /** In every run the list holds the resident keys, each once, in the order of their last get or put. */
  lemma {:induction false} ListIsByLastUse(capacity: int, ops: seq<Op>)
    ensures Inv(Run(capacity, ops)) && ByLastUse(Run(capacity, ops).list, Keys(ops))
  {
    if ops == [] {
    } else {
      ListIsByLastUse(capacity, ops[..|ops| - 1]);
      StepOrder(capacity, Run(capacity, ops[..|ops| - 1]), ops[|ops| - 1], Keys(ops[..|ops| - 1]));
    }
  }

  // ----- who is resident -----

  /** The resident key whose last get or put is the oldest. */
  ghost predicate IsLeastRecent(s: State, ops: seq<Op>, k: int) {
    k in s.cache && forall x :: x in s.cache && x != k ==> Last(Keys(ops), k) < Last(Keys(ops), x)
  }

  lemma {:induction false} BackIsLeastRecent(capacity: int, ops: seq<Op>)
    requires Run(capacity, ops).list != []
    ensures var list := Run(capacity, ops).list; IsLeastRecent(Run(capacity, ops), ops, list[|list| - 1])
  {
    var s := Run(capacity, ops);
    var back := s.list[|s.list| - 1];
    ListIsByLastUse(capacity, ops);
    assert back in s.list;
    forall x | x in s.cache && x != back ensures Last(Keys(ops), back) < Last(Keys(ops), x) {
      var i :| 0 <= i < |s.list| && s.list[i] == x;
    }
  }

  /**
   A put makes its key resident with its value and keeps the other residents and their values,
   except that a new key drives out of a full cache the one least recently used.
   */
  lemma {:induction false} PutEffect(capacity: int, ops: seq<Op>, key: int, value: int)
    ensures var s, s' := Run(capacity, ops), Run(capacity, ops + [Put(key, value)]);
            && key in s'.cache && s'.cache[key] == value
            && (forall k :: k in s'.cache && k != key ==> k in s.cache && s'.cache[k] == s.cache[k])
            && (forall k :: k in s.cache && k !in s'.cache ==>
                  key !in s.cache && |s.cache| == capacity && IsLeastRecent(s, ops, k))
            && (key !in s.cache && |s.cache| == capacity && capacity != 0 ==>
                  exists k :: k in s.cache && k !in s'.cache)
  {
    var s := Run(capacity, ops);
    Extend(capacity, ops, Put(key, value));
    ListIsByLastUse(capacity, ops);
    ListSize(s.list, s.cache.Keys);
    if key !in s.cache && |s.list| == capacity && s.list != [] {
      BackIsLeastRecent(capacity, ops);
      var back := s.list[|s.list| - 1];
      assert back in s.cache && back !in Run(capacity, ops + [Put(key, value)]).cache;
    }
  }

  /** So the key that goes is the resident key used longest ago. */
  lemma {:induction false} VictimIsLeastRecent(capacity: int, ops: seq<Op>, key: int, value: int, k: int)
    requires k in Run(capacity, ops).cache && k !in Run(capacity, ops + [Put(key, value)]).cache
    ensures |Run(capacity, ops).cache| == capacity && IsLeastRecent(Run(capacity, ops), ops, k)
  {
    PutEffect(capacity, ops, key, value);
  }

  /** A get changes no resident and no value. */
  lemma {:induction false} GetEffect(capacity: int, ops: seq<Op>, key: int)
    ensures Run(capacity, ops + [Get(key)]).cache == Run(capacity, ops).cache
  {
    Extend(capacity, ops, Get(key));
  }

  datatype Option = None | Some(value: int)

  function LastPut(ops: seq<Op>, key: int): Option {
    if ops == [] then None
    else
      var op := ops[|ops| - 1];
      if op.Put? && op.key == key then Some(op.value) else LastPut(ops[..|ops| - 1], key)
  }

  /** Whatever was evicted in between, a resident key has the value of its last put. */
  lemma {:induction false} ResidentsHoldLastPut(capacity: int, ops: seq<Op>, key: int)
    requires key in Run(capacity, ops).cache
    ensures LastPut(ops, key) == Some(Run(capacity, ops).cache[key])
  {
    var init, op := ops[..|ops| - 1], ops[|ops| - 1];
    assert ops == init + [op];
    if op.Put? {
      PutEffect(capacity, init, op.key, op.value);
    } else {
      GetEffect(capacity, init, op.key);
    }
    if !(op.Put? && op.key == key) {
      ResidentsHoldLastPut(capacity, init, key);
    }
  }

  lemma {:induction false} RunSize(capacity: int, ops: seq<Op>)
    ensures |Run(capacity, ops).list| == |Run(capacity, ops).cache|
  {
    ListIsByLastUse(capacity, ops);
    ListSize(Run(capacity, ops).list, Run(capacity, ops).cache.Keys);
  }

  // ----- inclusion -----

  predicate Subseq(a: seq<int>, b: seq<int>)
    decreases |b|
  {
    if a == [] then true
    else if b == [] then false
    else if a[0] == b[0] then Subseq(a[1..], b[1..])
    else Subseq(a, b[1..])
  }

  lemma {:induction false} SubseqElements(a: seq<int>, b: seq<int>)
    requires Subseq(a, b)
    ensures |a| <= |b| && (forall k :: k in a ==> k in b) && (|a| == |b| ==> a == b)
    decreases |b|
  {
    if a == [] {
    } else {
      assert b == [b[0]] + b[1..];
      if a[0] == b[0] {
        SubseqElements(a[1..], b[1..]);
        assert a == [a[0]] + a[1..];
      } else {
        SubseqElements(a, b[1..]);
      }
    }
  }

  lemma {:induction false} SubseqTail(a: seq<int>, b: seq<int>)
    requires a != [] && Subseq(a, b)
    ensures Subseq(a[1..], b)
    decreases |b|, 0
  {
    if a[0] != b[0] {
      SubseqTail(a, b[1..]);
    }
    SubseqLonger(a[1..], b[0], b[1..]);
    assert b == [b[0]] + b[1..];
  }

  lemma {:induction false} SubseqLonger(a: seq<int>, x: int, b: seq<int>)
    requires Subseq(a, b)
    ensures Subseq(a, [x] + b)
    decreases |b|, 1
  {
    assert ([x] + b)[1..] == b;
    if a != [] && a[0] == x {
      SubseqTail(a, b);
    }
  }

  lemma {:induction false} SubseqCons(x: int, a: seq<int>, b: seq<int>)
    requires Subseq(a, b)
    ensures Subseq([x] + a, [x] + b)
  {
    assert ([x] + a)[1..] == a && ([x] + b)[1..] == b;
  }

  /** Removing a key from the longer list, and from the shorter one if it is there. */
  lemma {:induction false} SubseqRemove(a: seq<int>, b: seq<int>, key: int)
    requires Subseq(a, b) && Distinct(b)
    ensures Subseq(Remove(a, key), Remove(b, key))
    decreases |b|
  {
    if a == [] {
    } else {
      if b[0] == key {
        RemoveAbsent(b[1..], key);
        SubseqElements(if a[0] == key then a[1..] else a, b[1..]);
        RemoveAbsent(if a[0] == key then a[1..] else a, key);
      } else if a[0] == b[0] {
        SubseqRemove(a[1..], b[1..], key);
        SubseqCons(a[0], Remove(a[1..], key), Remove(b[1..], key));
      } else {
        SubseqRemove(a, b[1..], key);
        SubseqLonger(Remove(a, key), b[0], Remove(b[1..], key));
      }
    }
  }

  lemma {:induction false} SubseqDropBack(a: seq<int>, b: seq<int>)
    requires a != [] && Subseq(a, b)
    ensures Subseq(a[..|a| - 1], b[..|b| - 1])
    decreases |b|
  {
    if |a| == 1 {
    } else {
      SubseqElements(a, b);
      var a', b' := a[..|a| - 1], b[..|b| - 1];
      assert a'[1..] == a[1..][..|a| - 2] && b'[1..] == b[1..][..|b| - 2];
      if a[0] == b[0] {
        SubseqDropBack(a[1..], b[1..]);
      } else {
        SubseqDropBack(a, b[1..]);
      }
    }
  }

  lemma {:induction false} SubseqDropBackLeft(a: seq<int>, b: seq<int>)
    requires a != [] && Subseq(a, b)
    ensures Subseq(a[..|a| - 1], b)
    decreases |b|
  {
    if |a| == 1 {
    } else {
      assert a[..|a| - 1][1..] == a[1..][..|a| - 2];
      if a[0] == b[0] {
        SubseqDropBackLeft(a[1..], b[1..]);
      } else {
        SubseqDropBackLeft(a, b[1..]);
      }
    }
  }

  /**
   The smaller list is part of the larger, in the same order and with the same values; they differ
   only when the smaller is full.
   */
  predicate Included(c1: int, small: State, large: State) {
    && Subseq(small.list, large.list)
    && (forall k :: k in small.cache ==> k in large.cache && small.cache[k] == large.cache[k])
    && |small.list| <= c1 && (|small.list| < c1 ==> small.list == large.list)
  }

  /** The second capacity is the larger; a negative one stands for a cache that never evicts. */
  predicate AtMost(c1: int, c2: int) {
    1 <= c1 && (c1 <= c2 || c2 < 0)
  }

  lemma {:induction false} HitIncluded(c1: int, small: State, large: State, key: int)
    requires Inv(small) && Inv(large) && Included(c1, small, large) && key in small.cache
    ensures Subseq(MoveToFront(small.list, key), MoveToFront(large.list, key))
    ensures |MoveToFront(small.list, key)| == |small.list|
  {
    RemoveElements(small.list, key);
    SubseqRemove(small.list, large.list, key);
    SubseqCons(key, Remove(small.list, key), Remove(large.list, key));
  }

  /** A get that only the larger cache can answer. */
  lemma {:induction false} LargeHitIncluded(c1: int, small: State, large: State, key: int)
    requires Inv(small) && Inv(large) && Included(c1, small, large) && key in large.cache && key !in small.cache
    ensures Subseq(small.list, MoveToFront(large.list, key))
  {
    SubseqRemove(small.list, large.list, key);
    RemoveAbsent(small.list, key);
    SubseqLonger(small.list, key, Remove(large.list, key));
  }

  lemma {:induction false} StepKeepsIncluded(c1: int, c2: int, small: State, large: State, op: Op)
    requires AtMost(c1, c2) && Inv(small) && Inv(large) && Included(c1, small, large)
    ensures Included(c1, Step(c1, small, op), Step(c2, large, op))
  {
    if op.key in small.cache {
      HitIncluded(c1, small, large, op.key);
    } else if op.Get? {
      if op.key in large.cache {
        LargeHitIncluded(c1, small, large, op.key);
      }
    } else if op.key in large.cache {
      RefillIncluded(c1, c2, small, large, op.key, op.value);
    } else {
      NewKeyIncluded(c1, c2, small, large, op.key, op.value);
    }
  }

  lemma {:induction false} RoomLists(c1: int, c2: int, small: State, large: State)
    requires AtMost(c1, c2) && Included(c1, small, large)
    ensures Subseq(MakeRoom(c1, small).list, MakeRoom(c2, large).list)
    ensures |MakeRoom(c1, small).list| < c1
    ensures |MakeRoom(c1, small).list| + 1 < c1 ==> MakeRoom(c1, small).list == MakeRoom(c2, large).list
  {
    if |small.list| == c1 {
      if |large.list| == c2 {
        SubseqDropBack(small.list, large.list);
      } else {
        SubseqDropBackLeft(small.list, large.list);
      }
    }
  }

  lemma {:induction false} MakeRoomValue(capacity: int, s: State, k: int)
    requires Inv(s)
    ensures k in MakeRoom(capacity, s).list <==> k in MakeRoom(capacity, s).cache
    ensures k in MakeRoom(capacity, s).cache ==> k in s.cache && MakeRoom(capacity, s).cache[k] == s.cache[k]
  {
    MakeRoomInv(capacity, s);
  }

  /** A put of a key that neither cache has. */
  lemma {:induction false} NewKeyIncluded(c1: int, c2: int, small: State, large: State, key: int, value: int)
    requires AtMost(c1, c2) && Inv(small) && Inv(large) && Included(c1, small, large)
    requires key !in small.cache && key !in large.cache
    ensures Included(c1, Step(c1, small, Put(key, value)), Step(c2, large, Put(key, value)))
  {
    var room1, room2 := MakeRoom(c1, small), MakeRoom(c2, large);
    RoomLists(c1, c2, small, large);
    SubseqCons(key, room1.list, room2.list);
    forall k | k in room1.cache ensures k in room2.cache && room1.cache[k] == room2.cache[k] {
      MakeRoomValue(c1, small, k);
      SubseqElements(room1.list, room2.list);
      MakeRoomValue(c2, large, k);
    }
  }

  /** A put of a key that only the larger cache has. */
  lemma {:induction false} RefillIncluded(c1: int, c2: int, small: State, large: State, key: int, value: int)
    requires AtMost(c1, c2) && Inv(small) && Inv(large) && Included(c1, small, large)
    requires key !in small.cache && key in large.cache
    ensures Included(c1, Step(c1, small, Put(key, value)), Step(c2, large, Put(key, value)))
  {
    var room := MakeRoom(c1, small);
    assert |small.list| == c1 by {
      assert key in large.list && key !in small.list;
    }
    SubseqDropBackLeft(small.list, large.list);
    MakeRoomValue(c1, small, key);
    SubseqRemove(room.list, large.list, key);
    RemoveAbsent(room.list, key);
    SubseqCons(key, room.list, Remove(large.list, key));
    forall k | k in room.cache ensures k in large.cache && room.cache[k] == large.cache[k] {
      MakeRoomValue(c1, small, k);
    }
  }

  /** Inclusion: at every moment of every run, the smaller cache is part of the larger. */
  lemma {:induction false} SmallerIsIncluded(c1: int, c2: int, ops: seq<Op>)
    requires AtMost(c1, c2)
    ensures Included(c1, Run(c1, ops), Run(c2, ops))
  {
    if ops == [] {
    } else {
      var init := ops[..|ops| - 1];
      SmallerIsIncluded(c1, c2, init);
      ListIsByLastUse(c1, init);
      ListIsByLastUse(c2, init);
      StepKeepsIncluded(c1, c2, Run(c1, init), Run(c2, init), ops[|ops| - 1]);
    }
  }

  function Answer(s: State, key: int): int {
    if key in s.cache then s.cache[key] else -1
  }

  /** So a larger cache never misses where a smaller one hits, and answers the same. */
  lemma {:induction false} HitsAgree(c1: int, c2: int, ops: seq<Op>, key: int)
    requires AtMost(c1, c2) && key in Run(c1, ops).cache
    ensures key in Run(c2, ops).cache && Answer(Run(c1, ops), key) == Answer(Run(c2, ops), key)
    ensures |Run(c1, ops).cache| <= c1
  {
    SmallerIsIncluded(c1, c2, ops);
    RunSize(c1, ops);
  }

  // ----- the cache -----

  function Position(list: seq<int>, key: int): (i: nat)
    requires key in list
    ensures i < |list| && list[i] == key
  {
    if list[0] == key then 0 else 1 + Position(list[1..], key)
  }

  predicate Precedes(list: seq<int>, a: int, b: int) {
    exists i, j :: 0 <= i < j < |list| && list[i] == a && list[j] == b
  }

  lemma {:induction false} OthersKeepOrder(list: seq<int>, moved: seq<int>, i: nat, a: int, b: int)
    requires i < |list| == |moved| && a != list[i] && b != list[i] && moved[0] == list[i]
    requires forall j :: 0 <= j < i ==> moved[j + 1] == list[j]
    requires forall j :: i < j < |list| ==> moved[j] == list[j]
    ensures Precedes(moved, a, b) <==> Precedes(list, a, b)
  {
    if Precedes(list, a, b) {
      var j, k :| 0 <= j < k < |list| && list[j] == a && list[k] == b;
      assert moved[if j < i then j + 1 else j] == a && moved[if k < i then k + 1 else k] == b;
    }
    if Precedes(moved, a, b) {
      var j, k :| 0 <= j < k < |moved| && moved[j] == a && moved[k] == b;
      assert j <= i ==> moved[(j - 1) + 1] == list[j - 1];
      assert k <= i ==> moved[(k - 1) + 1] == list[k - 1];
      assert list[if j <= i then j - 1 else j] == a && list[if k <= i then k - 1 else k] == b;
    }
  }

  lemma {:induction false} ToFront(list: seq<int>, i: nat)
    requires i < |list|
    ensures var moved := [list[i]] + (list[..i] + list[i + 1..]);
            && multiset(moved) == multiset(list)
            && forall a, b :: a != list[i] && b != list[i] ==> (Precedes(moved, a, b) <==> Precedes(list, a, b))
  {
    var moved := [list[i]] + (list[..i] + list[i + 1..]);
    assert list == list[..i] + [list[i]] + list[i + 1..];
    forall a, b | a != list[i] && b != list[i] ensures Precedes(moved, a, b) <==> Precedes(list, a, b) {
      OthersKeepOrder(list, moved, i, a, b);
    }
  }

  class LRUCache {
    const capacity: int
    var lruList: seq<int>
    var cache: map<int, int>
    ghost var ops: seq<Op>

    ghost predicate Valid()
      reads this
    {
      lruList == Run(capacity, ops).list && cache == Run(capacity, ops).cache
    }

    constructor (cap: int)
      ensures Valid() && ops == [] && capacity == cap
    {
      capacity := cap;
      lruList, cache, ops := [], map[], [];
    }

    ghost method Record(op: Op)
      requires var s := Step(capacity, Run(capacity, ops), op); lruList == s.list && cache == s.cache
      modifies this`ops
      ensures Valid() && ops == old(ops) + [op]
    {
      Extend(capacity, ops, op);
      ops := ops + [op];
    }

    /** The key moves to the front and the others keep their order; its place is what the stored iterator gives. */
    method MoveKeyToFront(key: int)
      requires Distinct(lruList) && key in lruList
      modifies this`lruList
      ensures lruList == MoveToFront(old(lruList), key)
      ensures lruList[0] == key && multiset(lruList) == multiset(old(lruList))
      ensures forall a, b :: a != key && b != key ==> (Precedes(lruList, a, b) <==> Precedes(old(lruList), a, b))
    {
      var i := Position(lruList, key);
      RemoveAt(lruList, i);
      ToFront(lruList, i);
      lruList := lruList[..i] + lruList[i + 1..];
      lruList := [key] + lruList;
    }

    method Get(key: int) returns (r: int)
      requires Valid()
      modifies this
      ensures Valid() && ops == old(ops) + [Op.Get(key)]
      ensures r == Answer(Run(capacity, old(ops)), key)
      ensures if key in cache then LastPut(old(ops), key) == Some(r) else r == -1
    {
      if key !in cache {
        r := -1;
      } else {
        ListIsByLastUse(capacity, ops);
        ResidentsHoldLastPut(capacity, ops, key);
        MoveKeyToFront(key);
        r := cache[key];
      }
      Record(Op.Get(key));
    }

    /** A cache of capacity 0 has no key to evict. */
    method Put(key: int, value: int)
      requires Valid() && capacity != 0
      modifies this
      ensures Valid() && ops == old(ops) + [Op.Put(key, value)]
    {
      if key in cache {
        ListIsByLastUse(capacity, ops);
        cache := cache[key := value];
        MoveKeyToFront(key);
      } else {
        RunSize(capacity, ops);
        if |cache| == capacity {
          var evictKey := lruList[|lruList| - 1];
          lruList := lruList[..|lruList| - 1];
          cache := cache - {evictKey};
        }
        lruList := [key] + lruList;
        cache := cache[key := value];
      }
      Record(Op.Put(key, value));
    }
  }
}
