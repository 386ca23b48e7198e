/**
 The least-frequently-used cache, whose entries sit in one list per use count, against a
 specification that only knows the history: which keys are resident, since when, and the keys
 of all operations so far. Every operation on a resident key is a use of it.
 */
module LfuCache {
  import Sets
  import opened UseLog

  // ----- the history-based specification -----

  datatype Entry = Entry(value: int, born: nat)

  /** `log` has the key of every operation in order; an entry's uses are those from `born` on. */
  datatype History = History(log: seq<int>, entries: map<int, Entry>)

  datatype Op = Get(key: int) | Put(key: int, value: int)

  /** How often a resident key was used since it came in, coming in included. */
  function Uses(h: History, key: int): nat
    requires key in h.entries
  {
    Count(h.log, h.entries[key].born, key)
  }

  /** Key `a` goes before key `b`: fewer uses, or as many and not used since. */
  predicate GoesFirst(h: History, a: int, b: int)
    requires a in h.entries && b in h.entries
  {
    Uses(h, a) < Uses(h, b) || (Uses(h, a) == Uses(h, b) && Last(h.log, a) <= Last(h.log, b))
  }

  predicate IsVictim(h: History, v: int) {
    v in h.entries && forall k :: k in h.entries ==> GoesFirst(h, v, k)
  }

  lemma {:induction false} VictimAmong(h: History, keys: set<int>) returns (v: int)
    requires keys != {} && keys <= h.entries.Keys
    ensures v in keys && forall k :: k in keys ==> GoesFirst(h, v, k)
    decreases |keys|
  {
    var k := Sets.Member(keys);
    var rest := keys - {k};
    if rest == {} {
      v := k;
      assert keys == {k};
    } else {
      var w := VictimAmong(h, rest);
      v := if GoesFirst(h, w, k) then w else k;
      forall j | j in keys ensures GoesFirst(h, v, j) {
        assert j == k || GoesFirst(h, w, j);
      }
    }
  }

  ghost function Victim(h: History): (v: int)
    requires h.entries != map[]
    ensures IsVictim(h, v)
  {
    VictimExists(h);
    var v :| IsVictim(h, v);
    v
  }

  lemma {:induction false} VictimExists(h: History)
    requires h.entries != map[]
    ensures exists v :: IsVictim(h, v)
  {
    assert h.entries.Keys != {};
    var v := VictimAmong(h, h.entries.Keys);
    assert IsVictim(h, v);
  }

  function Use(h: History, key: int): History {
    h.(log := h.log + [key])
  }

  function Enter(h: History, key: int, value: int): History {
    History(h.log + [key], h.entries[key := Entry(value, |h.log|)])
  }

  /** Room for one more: a full cache gives up its victim. */
  ghost function MakeRoom(capacity: int, h: History): History
    requires capacity != 0
  {
    if |h.entries| == capacity then h.(entries := h.entries - {Victim(h)}) else h
  }

  ghost function Step(capacity: int, h: History, op: Op): History {
    if capacity == 0 then Use(h, op.key)
    else
      match op
      case Get(key) => Use(h, key)
      case Put(key, value) =>
        if key in h.entries then
          Use(h.(entries := h.entries[key := h.entries[key].(value := value)]), key)
        else Enter(MakeRoom(capacity, h), key, value)
  }

  ghost function Run(capacity: int, ops: seq<Op>): History {
    if ops == [] then History([], map[]) else Step(capacity, Run(capacity, ops[..|ops| - 1]), ops[|ops| - 1])
  }

  lemma {:induction false} Extend(capacity: int, ops: seq<Op>, op: Op)
    ensures Run(capacity, ops + [op]) == Step(capacity, Run(capacity, ops), op)
  {
    assert (ops + [op])[..|ops|] == ops;
  }

  // ----- the history -----

  predicate Sound(h: History) {
    forall k :: k in h.entries ==> h.entries[k].born < |h.log| && h.log[h.entries[k].born] == k
  }

  lemma {:induction false} StepKeepsSound(capacity: int, h: History, op: Op)
    requires Sound(h)
    ensures Sound(Step(capacity, h, op))
  {
  }

  lemma {:induction false} RunSound(capacity: int, ops: seq<Op>)
    ensures Sound(Run(capacity, ops))
  {
    if ops == [] {
    } else {
      RunSound(capacity, ops[..|ops| - 1]);
      StepKeepsSound(capacity, Run(capacity, ops[..|ops| - 1]), ops[|ops| - 1]);
    }
  }

  /** Two residents are never last used at the same time, so the victim is unique. */
  lemma {:induction false} VictimUnique(h: History, v: int)
    requires Sound(h) && IsVictim(h, v)
    ensures v == Victim(h)
  {
    var w := Victim(h);
    LastFound(h.log, h.entries[v].born);
    LastFound(h.log, h.entries[w].born);
  }

  // ----- the operations decide -----

  function Keys(ops: seq<Op>): seq<int> {
    if ops == [] then [] else Keys(ops[..|ops| - 1]) + [ops[|ops| - 1].key]
  }

  lemma {:induction false} LogIsKeys(capacity: int, ops: seq<Op>)
    ensures Run(capacity, ops).log == Keys(ops) && |Keys(ops)| == |ops|
  {
    if ops == [] {
    } else {
      LogIsKeys(capacity, ops[..|ops| - 1]);
    }
  }

  /** The resident key with the fewest operations since the put that brought it in, the longest ago among equals. */
  ghost predicate IsLeastUsed(capacity: int, ops: seq<Op>, v: int) {
    var entries := Run(capacity, ops).entries;
    && v in entries
    && forall k :: k in entries && k != v ==>
         var a, b := Count(Keys(ops), entries[v].born, v), Count(Keys(ops), entries[k].born, k);
         a < b || (a == b && Last(Keys(ops), v) < Last(Keys(ops), k))
  }

  lemma {:induction false} VictimIsLeastUsed(capacity: int, ops: seq<Op>)
    requires Run(capacity, ops).entries != map[]
    ensures IsLeastUsed(capacity, ops, Victim(Run(capacity, ops)))
  {
    var h := Run(capacity, ops);
    var v := Victim(h);
    LogIsKeys(capacity, ops);
    RunSound(capacity, ops);
    forall k | k in h.entries && k != v ensures GoesFirst(h, v, k) && Last(h.log, v) != Last(h.log, k) {
      LastFound(h.log, h.entries[v].born);
      LastFound(h.log, h.entries[k].born);
    }
  }

  lemma {:induction false} EntryStep(capacity: int, h: History, op: Op, k: int)
    requires k in Step(capacity, h, op).entries && (capacity == 0 ==> h.entries == map[])
    ensures if k in h.entries then Step(capacity, h, op).entries[k].born == h.entries[k].born
            else op.Put? && op.key == k && Step(capacity, h, op).entries[k].born == |h.log|
  {
  }

  /** A resident has been so without a break since its entry, a put of it that found it missing. */
  lemma {:induction false} BornIsEntry(capacity: int, ops: seq<Op>, k: int)
    requires k in Run(capacity, ops).entries
    ensures var b := Run(capacity, ops).entries[k].born;
            && b < |ops| && ops[b].Put? && ops[b].key == k && k !in Run(capacity, ops[..b]).entries
            && forall j :: b < j <= |ops| ==> k in Run(capacity, ops[..j]).entries
  {
    var init, op := ops[..|ops| - 1], ops[|ops| - 1];
    var b := Run(capacity, ops).entries[k].born;
    LogIsKeys(capacity, init);
    if capacity == 0 {
      SizeWithinCapacity(0, init);
    }
    EntryStep(capacity, Run(capacity, init), op, k);
    assert ops[..|ops|] == ops;
    if k in Run(capacity, init).entries {
      BornIsEntry(capacity, init, k);
      forall j | 0 <= j <= |init| ensures init[..j] == ops[..j] {
      }
      forall j | b < j <= |ops| ensures k in Run(capacity, ops[..j]).entries {
        assert j <= |init| ==> init[..j] == ops[..j];
      }
    }
  }

  /** The operations on the key since the put that brought it in, that put included. */
  ghost function UsesIn(ops: seq<Op>, born: nat, key: int): set<nat> {
    set i: nat | born <= i < |ops| && ops[i].key == key
  }

  lemma {:induction false} CountIsUses(ops: seq<Op>, born: nat, key: int)
    ensures |Keys(ops)| == |ops| && Count(Keys(ops), born, key) == |UsesIn(ops, born, key)|
  {
    if ops == [] {
      assert UsesIn(ops, born, key) == {};
    } else {
      var init, n := ops[..|ops| - 1], |ops| - 1;
      CountIsUses(init, born, key);
      assert Keys(ops)[..n] == Keys(init);
      assert UsesIn(ops, born, key) ==
             UsesIn(init, born, key) + if born <= n && ops[n].key == key then {n} else {};
      assert n !in UsesIn(init, born, key);
      if n < born {
        assert UsesIn(init, born, key) == {};
      }
    }
  }

  /** The uses of a resident are the gets and puts of it since the put that brought it in. */
  lemma {:induction false} UsesAreOperations(capacity: int, ops: seq<Op>, k: int)
    requires k in Run(capacity, ops).entries
    ensures Uses(Run(capacity, ops), k) == |UsesIn(ops, Run(capacity, ops).entries[k].born, k)|
  {
    LogIsKeys(capacity, ops);
    CountIsUses(ops, Run(capacity, ops).entries[k].born, k);
  }

  /**
   A put makes its key resident with its value and keeps the other residents and their values,
   except that a new key drives the least used one out of a full cache.
   */
  lemma {:induction false} PutEffect(capacity: int, ops: seq<Op>, key: int, value: int)
    requires capacity != 0
    ensures var e, e' := Run(capacity, ops).entries, Run(capacity, ops + [Put(key, value)]).entries;
            && key in e' && e'[key].value == value
            && (forall k :: k in e' && k != key ==> k in e && e'[k].value == e[k].value)
            && (forall k :: k in e && k !in e' ==> key !in e && |e| == capacity && IsLeastUsed(capacity, ops, k))
            && (key !in e && |e| == capacity ==> exists k :: k in e && k !in e')
  {
    var h := Run(capacity, ops);
    Extend(capacity, ops, Put(key, value));
    if key !in h.entries && |h.entries| == capacity {
      assert h.entries != map[];
      VictimIsLeastUsed(capacity, ops);
      assert Victim(h) in h.entries && Victim(h) !in Run(capacity, ops + [Put(key, value)]).entries;
    }
  }

  /** A get changes no resident and no value. */
  lemma {:induction false} GetEffect(capacity: int, ops: seq<Op>, key: int)
    ensures Run(capacity, ops + [Get(key)]).entries == Run(capacity, ops).entries
  {
    Extend(capacity, ops, Get(key));
  }

  // ----- the size -----

  lemma {:induction false} StepKeepsSize(capacity: int, h: History, op: Op)
    requires capacity >= 0 ==> |h.entries| <= capacity
    ensures capacity >= 0 ==> |Step(capacity, h, op).entries| <= capacity
  {
    if capacity > 0 && op.Put? && op.key !in h.entries {
      var room := MakeRoom(capacity, h);
      assert |room.entries| < capacity;
      assert Step(capacity, h, op).entries.Keys == room.entries.Keys + {op.key};
    }
  }

  /** A cache of non-negative capacity never holds more than its capacity; one of capacity 0 holds nothing. */
  lemma {:induction false} SizeWithinCapacity(capacity: int, ops: seq<Op>)
    requires capacity >= 0
    ensures |Run(capacity, ops).entries| <= capacity
  {
    if ops == [] {
    } else {
      SizeWithinCapacity(capacity, ops[..|ops| - 1]);
      StepKeepsSize(capacity, Run(capacity, ops[..|ops| - 1]), ops[|ops| - 1]);
    }
  }

  // ----- the lists by frequency -----

  datatype Node = Node(key: int, value: int, freq: nat)

  type Lists = map<nat, seq<Node>>

  /** A list of the table, empty when there is none. */
  function At(lists: Lists, f: nat): seq<Node> {
    if f in lists then lists[f] else []
  }

  /** The table with a list put back; empty lists are not kept. */
  function Store(lists: Lists, f: nat, list: seq<Node>): Lists {
    if list == [] then lists - {f} else lists[f := list]
  }

  predicate HasKey(list: seq<Node>, key: int) {
    exists i :: 0 <= i < |list| && list[i].key == key
  }

  function IndexOf(list: seq<Node>, key: int): (i: nat)
    requires HasKey(list, key)
    ensures i < |list| && list[i].key == key
  {
    if list[0].key == key then 0
    else
      assert HasKey(list[1..], key) by {
        var i :| 0 <= i < |list| && list[i].key == key;
        assert list[1..][i - 1] == list[i];
      }
      1 + IndexOf(list[1..], key)
  }

  function Without(list: seq<Node>, key: int): seq<Node>
    requires HasKey(list, key)
  {
    list[..IndexOf(list, key)] + list[IndexOf(list, key) + 1..]
  }

  /** The node belongs in the list of its frequency. */
  predicate Belongs(h: History, f: nat, n: Node) {
    n.freq == f && n.key in h.entries && n.value == h.entries[n.key].value && Uses(h, n.key) == f
  }

  /** The nodes of one frequency, the most recently used first. */
  predicate ListOk(h: History, f: nat, list: seq<Node>) {
    && (forall i :: 0 <= i < |list| ==> Belongs(h, f, list[i]))
    && (forall i, j :: 0 <= i < j < |list| ==> Last(h.log, list[i].key) > Last(h.log, list[j].key))
  }

  /** The lists hold exactly the resident keys, each under the number of its uses. */
  ghost predicate Filed(h: History, keyNode: map<int, nat>, lists: Lists) {
    && keyNode.Keys == h.entries.Keys
    && (forall k :: k in keyNode ==> keyNode[k] == Uses(h, k) && HasKey(At(lists, keyNode[k]), k))
    && (forall f :: f in lists ==> lists[f] != [] && ListOk(h, f, lists[f]))
  }

  predicate Least(minFreq: nat, lists: Lists) {
    lists != map[] ==> minFreq in lists && forall f :: f in lists ==> minFreq <= f
  }

  lemma {:induction false} OtherUnchanged(h: History, key: int, x: int)
    requires Sound(h) && x in h.entries && x != key
    ensures Uses(Use(h, key), x) == Uses(h, x) && Last(Use(h, key).log, x) == Last(h.log, x)
  {
    CountAppend(h.log, h.entries[x].born, x, key);
  }

  lemma {:induction false} OthersOk(h: History, key: int, f: nat, list: seq<Node>)
    requires Sound(h) && ListOk(h, f, list) && forall i :: 0 <= i < |list| ==> list[i].key != key
    ensures ListOk(Use(h, key), f, list)
  {
    forall i | 0 <= i < |list|
      ensures Belongs(Use(h, key), f, list[i]) && Last(Use(h, key).log, list[i].key) == Last(h.log, list[i].key)
    {
      OtherUnchanged(h, key, list[i].key);
    }
  }

  lemma {:induction false} WithoutOk(h: History, f: nat, list: seq<Node>, key: int)
    requires ListOk(h, f, list) && HasKey(list, key)
    ensures ListOk(h, f, Without(list, key))
    ensures forall i :: 0 <= i < |Without(list, key)| ==> Without(list, key)[i].key != key
  {
    var p, rest := IndexOf(list, key), Without(list, key);
    assert forall i :: 0 <= i < |rest| ==> rest[i] == if i < p then list[i] else list[i + 1];
  }

  lemma {:induction false} WithoutKeeps(list: seq<Node>, key: int, x: int)
    requires HasKey(list, key) && x != key && HasKey(list, x)
    ensures HasKey(Without(list, key), x)
  {
    var p, rest := IndexOf(list, key), Without(list, key);
    var i :| 0 <= i < |list| && list[i].key == x;
    assert list[i] == if i < p then rest[i] else rest[i - 1];
  }

  /** A used key moves to the front of the next list. */
  function Moved(lists: Lists, f: nat, n: Node): Lists
    requires HasKey(At(lists, f), n.key)
  {
    var lists' := Store(lists, f, Without(At(lists, f), n.key));
    Store(lists', f + 1, [n.(freq := f + 1)] + At(lists', f + 1))
  }

  lemma {:induction false} FrontOk(h: History, key: int, f: nat, list: seq<Node>)
    requires Sound(h) && ListOk(h, f + 1, list) && key in h.entries && Uses(h, key) == f
    ensures ListOk(Use(h, key), f + 1, [Node(key, h.entries[key].value, f + 1)] + list)
  {
    OthersOk(h, key, f + 1, list);
    CountAppend(h.log, h.entries[key].born, key, key);
    forall i | 0 <= i < |list| ensures Last(h.log, list[i].key) < |h.log| {
      LastBelow(h.log, list[i].key);
    }
  }

  lemma {:induction false} MovedAt(lists: Lists, f: nat, n: Node, g: nat)
    requires HasKey(At(lists, f), n.key)
    ensures At(Moved(lists, f, n), g) ==
            if g == f + 1 then [n.(freq := f + 1)] + At(lists, g)
            else if g == f then Without(At(lists, f), n.key)
            else At(lists, g)
  {
  }

  lemma {:induction false} MovedListOk(h: History, lists: Lists, key: int, f: nat, g: nat)
    requires Sound(h) && key in h.entries && Uses(h, key) == f && HasKey(At(lists, f), key)
    requires ListOk(h, g, At(lists, g))
    ensures ListOk(Use(h, key), g, At(Moved(lists, f, Node(key, h.entries[key].value, f)), g))
  {
    MovedAt(lists, f, Node(key, h.entries[key].value, f), g);
    if g == f + 1 {
      FrontOk(h, key, f, At(lists, g));
    } else if g == f {
      WithoutOk(h, f, At(lists, f), key);
      OthersOk(h, key, f, Without(At(lists, f), key));
    } else {
      OthersOk(h, key, g, At(lists, g));
    }
  }

  lemma {:induction false} MovedKeyOk(h: History, lists: Lists, key: int, f: nat, k: int)
    requires Sound(h) && key in h.entries && Uses(h, key) == f && HasKey(At(lists, f), key)
    requires k in h.entries && HasKey(At(lists, Uses(h, k)), k)
    ensures Uses(Use(h, key), k) == if k == key then f + 1 else Uses(h, k)
    ensures HasKey(At(Moved(lists, f, Node(key, h.entries[key].value, f)), Uses(Use(h, key), k)), k)
  {
    var n := Node(key, h.entries[key].value, f);
    if k == key {
      CountAppend(h.log, h.entries[key].born, key, key);
      MovedAt(lists, f, n, f + 1);
      FrontAdded(n.(freq := f + 1), At(lists, f + 1), key);
    } else {
      OtherUnchanged(h, key, k);
      StillListed(lists, f, n, Uses(h, k), k);
    }
  }

  lemma {:induction false} NoneEmpty(lists: Lists, f: nat, n: Node, g: nat)
    requires HasKey(At(lists, f), n.key) && g in Moved(lists, f, n) && (g in lists ==> lists[g] != [])
    ensures Moved(lists, f, n)[g] != []
  {
  }

  lemma {:induction false} MovedLists(h: History, lists: Lists, key: int, f: nat, g: nat)
    requires Sound(h) && key in h.entries && Uses(h, key) == f && HasKey(At(lists, f), key)
    requires g in lists ==> lists[g] != [] && ListOk(h, g, lists[g])
    ensures var lists' := Moved(lists, f, Node(key, h.entries[key].value, f));
            g in lists' ==> lists'[g] != [] && ListOk(Use(h, key), g, lists'[g])
  {
    if g in Moved(lists, f, Node(key, h.entries[key].value, f)) {
      NoneEmpty(lists, f, Node(key, h.entries[key].value, f), g);
      MovedListOk(h, lists, key, f, g);
    }
  }

  lemma {:induction false} MoveFiles(h: History, keyNode: map<int, nat>, lists: Lists, key: int)
    requires Sound(h) && Filed(h, keyNode, lists) && key in keyNode
    ensures Filed(Use(h, key), keyNode[key := keyNode[key] + 1],
                  Moved(lists, keyNode[key], Node(key, h.entries[key].value, keyNode[key])))
  {
    var f := keyNode[key];
    var lists', keyNode' := Moved(lists, f, Node(key, h.entries[key].value, f)), keyNode[key := f + 1];
    forall g | g in lists' ensures lists'[g] != [] && ListOk(Use(h, key), g, lists'[g]) {
      MovedLists(h, lists, key, f, g);
    }
    forall k | k in keyNode' ensures keyNode'[k] == Uses(Use(h, key), k) && HasKey(At(lists', keyNode'[k]), k) {
      assert keyNode[k] == Uses(h, k) && HasKey(At(lists, keyNode[k]), k);
      MovedKeyOk(h, lists, key, f, k);
    }
  }

  lemma {:induction false} StillListed(lists: Lists, f: nat, n: Node, g: nat, k: int)
    requires HasKey(At(lists, f), n.key) && k != n.key && HasKey(At(lists, g), k)
    ensures HasKey(At(Moved(lists, f, n), g), k)
  {
    MovedAt(lists, f, n, g);
    if g == f + 1 {
      FrontAdded(n.(freq := f + 1), At(lists, g), k);
    } else if g == f {
      WithoutKeeps(At(lists, f), n.key, k);
    }
  }

  lemma {:induction false} FoundNode(h: History, f: nat, list: seq<Node>, key: int)
    requires ListOk(h, f, list) && HasKey(list, key)
    ensures key in h.entries && list[IndexOf(list, key)] == Node(key, h.entries[key].value, f)
  {
    assert Belongs(h, f, list[IndexOf(list, key)]);
  }

  lemma {:induction false} MoveKeepsLeast(lists: Lists, f: nat, n: Node, minFreq: nat)
    requires f in lists && HasKey(lists[f], n.key) && Least(minFreq, lists)
    ensures Least(if Without(lists[f], n.key) == [] && minFreq == f then f + 1 else minFreq, Moved(lists, f, n))
  {
  }

  /** The least frequency after a node has left a list for the next. */
  function MinAfter(lists: Lists, f: nat, key: int, minFreq: nat): nat
    requires HasKey(At(lists, f), key)
  {
    if Without(At(lists, f), key) == [] && minFreq == f then f + 1 else minFreq
  }

  lemma {:induction false} MoveIsUse(h: History, keyNode: map<int, nat>, lists: Lists, minFreq: nat, key: int)
    requires Sound(h) && Filed(h, keyNode, lists) && Least(minFreq, lists) && key in keyNode
    ensures var f := keyNode[key];
            && f in lists && HasKey(lists[f], key)
            && var node := lists[f][IndexOf(lists[f], key)];
               Filed(Use(h, key), keyNode[key := f + 1], Moved(lists, f, node)) &&
               Least(MinAfter(lists, f, key, minFreq), Moved(lists, f, node))
  {
    var f := keyNode[key];
    assert HasKey(At(lists, f), key);
    FoundNode(h, f, lists[f], key);
    MoveFiles(h, keyNode, lists, key);
    MoveKeepsLeast(lists, f, Node(key, h.entries[key].value, f), minFreq);
  }

  lemma {:induction false} ReplaceKeepsKeys(list: seq<Node>, p: nat, n: Node, k: int)
    requires p < |list| && list[p].key == n.key && HasKey(list, k)
    ensures HasKey(list[p := n], k)
  {
    var i :| 0 <= i < |list| && list[i].key == k;
    assert list[p := n][i].key == k;
  }

  lemma {:induction false} BackDropped(list: seq<Node>, k: int)
    requires list != [] && HasKey(list, k) && k != list[|list| - 1].key
    ensures HasKey(list[..|list| - 1], k)
  {
    var i :| 0 <= i < |list| && list[i].key == k;
    assert list[..|list| - 1][i].key == k;
  }

  lemma {:induction false} FrontAdded(n: Node, list: seq<Node>, k: int)
    requires HasKey(list, k) || n.key == k
    ensures HasKey([n] + list, k)
  {
    if n.key == k {
      assert ([n] + list)[0].key == k;
    } else {
      var i :| 0 <= i < |list| && list[i].key == k;
      assert ([n] + list)[i + 1].key == k;
    }
  }

  function WithValue(h: History, key: int, value: int): History
    requires key in h.entries
  {
    h.(entries := h.entries[key := h.entries[key].(value := value)])
  }

  function ReplaceValue(list: seq<Node>, key: int, value: int): seq<Node>
    requires HasKey(list, key)
  {
    list[IndexOf(list, key) := list[IndexOf(list, key)].(value := value)]
  }

  /** The node of a resident key gets a new value where it is. */
  lemma {:induction false} SetValueFiles(h: History, keyNode: map<int, nat>, lists: Lists, key: int, value: int)
    requires Filed(h, keyNode, lists) && key in keyNode
    ensures Filed(WithValue(h, key, value), keyNode,
                  lists[keyNode[key] := ReplaceValue(At(lists, keyNode[key]), key, value)])
  {
    var h', f := WithValue(h, key, value), keyNode[key];
    var lists' := lists[f := ReplaceValue(At(lists, f), key, value)];
    forall k | k in keyNode ensures keyNode[k] == Uses(h', k) && HasKey(At(lists', keyNode[k]), k) {
      var p := IndexOf(lists[f], key);
      if keyNode[k] == f {
        ReplaceKeepsKeys(lists[f], p, lists[f][p].(value := value), k);
      }
    }
    forall g | g in lists' ensures lists'[g] != [] && ListOk(h', g, lists'[g]) {
      if g == f {
        SetValueHere(h, f, lists[f], key, value);
      } else {
        SetValueElsewhere(h, g, lists[g], key, value);
      }
    }
  }

  lemma {:induction false} SetValueHere(h: History, f: nat, list: seq<Node>, key: int, value: int)
    requires ListOk(h, f, list) && key in h.entries && HasKey(list, key)
    ensures ListOk(WithValue(h, key, value), f, ReplaceValue(list, key, value))
  {
    var p := IndexOf(list, key);
    forall i | 0 <= i < |list| ensures Belongs(WithValue(h, key, value), f, ReplaceValue(list, key, value)[i]) {
      assert Belongs(h, f, list[i]);
      assert i != p ==> Last(h.log, list[i].key) != Last(h.log, list[p].key);
    }
  }

  lemma {:induction false} SetValueElsewhere(h: History, g: nat, list: seq<Node>, key: int, value: int)
    requires ListOk(h, g, list) && key in h.entries && Uses(h, key) != g
    ensures ListOk(WithValue(h, key, value), g, list)
  {
    forall i | 0 <= i < |list| ensures Belongs(WithValue(h, key, value), g, list[i]) {
      assert Belongs(h, g, list[i]);
    }
  }

  lemma {:induction false} BackIsVictim(h: History, keyNode: map<int, nat>, lists: Lists, minFreq: nat)
    requires Filed(h, keyNode, lists) && Least(minFreq, lists) && minFreq in lists
    ensures IsVictim(h, lists[minFreq][|lists[minFreq]| - 1].key)
  {
    var list := lists[minFreq];
    var v := list[|list| - 1].key;
    assert Belongs(h, minFreq, list[|list| - 1]);
    forall k | k in h.entries ensures GoesFirst(h, v, k) {
      var g := keyNode[k];
      var i :| 0 <= i < |At(lists, g)| && At(lists, g)[i].key == k;
      assert minFreq <= g;
    }
  }

  lemma {:induction false} EvictFiles(h: History, keyNode: map<int, nat>, lists: Lists, f: nat, v: int)
    requires Sound(h) && Filed(h, keyNode, lists) && f in lists && v == lists[f][|lists[f]| - 1].key
    ensures Filed(h.(entries := h.entries - {v}), keyNode - {v}, Store(lists, f, lists[f][..|lists[f]| - 1]))
  {
    var h', keyNode' := h.(entries := h.entries - {v}), keyNode - {v};
    var lists' := Store(lists, f, lists[f][..|lists[f]| - 1]);
    forall g | g in lists' ensures lists'[g] != [] && ListOk(h', g, lists'[g]) {
      EvictList(h, lists, f, v, g);
    }
    forall k | k in keyNode' ensures keyNode'[k] == Uses(h', k) && HasKey(At(lists', keyNode'[k]), k) {
      EvictKey(lists, f, k, keyNode[k]);
    }
  }

  lemma {:induction false} EvictKey(lists: Lists, f: nat, k: int, g: nat)
    requires f in lists && lists[f] != [] && k != lists[f][|lists[f]| - 1].key && HasKey(At(lists, g), k)
    ensures HasKey(At(Store(lists, f, lists[f][..|lists[f]| - 1]), g), k)
  {
    if g == f {
      BackDropped(lists[f], k);
    }
  }

  lemma {:induction false} EvictList(h: History, lists: Lists, f: nat, v: int, g: nat)
    requires f in lists && lists[f] != [] && v == lists[f][|lists[f]| - 1].key
    requires ListOk(h, f, lists[f]) && ListOk(h, g, At(lists, g))
    ensures ListOk(h.(entries := h.entries - {v}), g, At(Store(lists, f, lists[f][..|lists[f]| - 1]), g))
  {
    if g == f {
      DistinctBack(h, f, lists[f]);
      EvictedListOk(h, f, lists[f][..|lists[f]| - 1], v);
    } else {
      assert Belongs(h, f, lists[f][|lists[f]| - 1]);
      OnlyInItsList(h, g, At(lists, g), v);
      EvictedListOk(h, g, At(lists, g), v);
    }
  }

  lemma {:induction false} DistinctBack(h: History, f: nat, list: seq<Node>)
    requires ListOk(h, f, list) && list != []
    ensures ListOk(h, f, list[..|list| - 1])
    ensures forall i :: 0 <= i < |list| - 1 ==> list[i].key != list[|list| - 1].key
  {
  }

  lemma {:induction false} OnlyInItsList(h: History, g: nat, list: seq<Node>, v: int)
    requires ListOk(h, g, list) && v in h.entries && Uses(h, v) != g
    ensures forall i :: 0 <= i < |list| ==> list[i].key != v
  {
    forall i | 0 <= i < |list| ensures list[i].key != v {
      assert Belongs(h, g, list[i]);
    }
  }

  lemma {:induction false} EvictedListOk(h: History, g: nat, list: seq<Node>, v: int)
    requires ListOk(h, g, list) && forall i :: 0 <= i < |list| ==> list[i].key != v
    ensures ListOk(h.(entries := h.entries - {v}), g, list)
  {
  }

  lemma {:induction false} EnterUses(h: History, key: int, value: int, x: int)
    requires Sound(h) && key !in h.entries && x in Enter(h, key, value).entries
    ensures Uses(Enter(h, key, value), x) == if x == key then 1 else Uses(h, x)
    ensures Last(Enter(h, key, value).log, x) == if x == key then |h.log| else Last(h.log, x)
  {
    CountAppend(h.log, if x == key then |h.log| else h.entries[x].born, x, key);
  }

  lemma {:induction false} EnterListOk(h: History, key: int, value: int, g: nat, list: seq<Node>)
    requires Sound(h) && key !in h.entries && ListOk(h, g, list)
    ensures ListOk(Enter(h, key, value), g, list)
    ensures g == 1 ==> ListOk(Enter(h, key, value), 1, [Node(key, value, 1)] + list)
  {
    var h' := Enter(h, key, value);
    forall i | 0 <= i < |list|
      ensures Belongs(h', g, list[i]) && Last(h'.log, list[i].key) == Last(h.log, list[i].key) < |h.log|
    {
      EnterUses(h, key, value, list[i].key);
      LastBelow(h.log, list[i].key);
    }
    EnterUses(h, key, value, key);
  }

  lemma {:induction false} CountPositive(log: seq<int>, born: nat)
    requires born < |log|
    ensures Count(log, born, log[born]) >= 1
  {
    if born < |log| - 1 {
      CountPositive(log[..|log| - 1], born);
    }
  }

  lemma {:induction false} ListsPositive(h: History, lists: Lists, g: nat)
    requires Sound(h) && g in lists && lists[g] != [] && Belongs(h, g, lists[g][0])
    ensures g >= 1
  {
    CountPositive(h.log, h.entries[lists[g][0].key].born);
  }

  lemma {:induction false} EnterFiles(h: History, keyNode: map<int, nat>, lists: Lists, key: int, value: int)
    requires Sound(h) && Filed(h, keyNode, lists) && key !in keyNode
    ensures Filed(Enter(h, key, value), keyNode[key := 1], Store(lists, 1, [Node(key, value, 1)] + At(lists, 1)))
    ensures Least(1, Store(lists, 1, [Node(key, value, 1)] + At(lists, 1)))
  {
    var h', keyNode' := Enter(h, key, value), keyNode[key := 1];
    var lists' := Store(lists, 1, [Node(key, value, 1)] + At(lists, 1));
    forall g | g in lists' ensures lists'[g] != [] && ListOk(h', g, lists'[g]) {
      EnterListOk(h, key, value, g, At(lists, g));
    }
    forall k | k in keyNode' ensures keyNode'[k] == Uses(h', k) && HasKey(At(lists', keyNode'[k]), k) {
      EnterUses(h, key, value, k);
      if keyNode'[k] == 1 {
        FrontAdded(Node(key, value, 1), At(lists, 1), k);
      }
    }
    forall g | g in lists ensures g >= 1 {
      ListsPositive(h, lists, g);
    }
  }

  /** The least frequency the cache tracks is the least number of uses of any resident key. */
  lemma {:induction false} MinFreqIsLeastUse(h: History, keyNode: map<int, nat>, lists: Lists, minFreq: nat)
    requires Filed(h, keyNode, lists) && Least(minFreq, lists) && h.entries != map[]
    ensures forall k :: k in h.entries ==> minFreq <= Uses(h, k)
    ensures exists k :: k in h.entries && Uses(h, k) == minFreq
  {
    var k := Sets.Member(h.entries.Keys);
    assert k in keyNode && keyNode[k] in lists;
    assert Belongs(h, minFreq, lists[minFreq][0]);
    forall k | k in h.entries ensures minFreq <= Uses(h, k) {
      assert k in keyNode && keyNode[k] in lists;
    }
  }

  // ----- what the cache answers -----

  datatype Option = None | Some(value: int)

  /** The value of the last put of a key. */
  function LastPut(ops: seq<Op>, key: int): Option {
    if ops == [] then None
    else
      var op := ops[|ops| - 1];
      if op.Put? && op.key == key then Some(op.value) else LastPut(ops[..|ops| - 1], key)
  }

  /** What a lookup returns: the value of a resident key, or -1. */
  function Answer(h: History, key: int): int {
    if key in h.entries then h.entries[key].value else -1
  }

  lemma {:induction false} StepValue(capacity: int, h: History, op: Op, key: int)
    requires capacity != 0 && key in Step(capacity, h, op).entries
    ensures var value := Step(capacity, h, op).entries[key].value;
            if op.Put? && op.key == key then value == op.value else key in h.entries && value == h.entries[key].value
  {
  }

  /** Whatever was evicted in between, a resident key has the value of its last put. */
  lemma {:induction false} ResidentsHoldLastPut(capacity: int, ops: seq<Op>, key: int)
    requires key in Run(capacity, ops).entries
    ensures LastPut(ops, key) == Some(Run(capacity, ops).entries[key].value)
  {
    var init, op := ops[..|ops| - 1], ops[|ops| - 1];
    if capacity == 0 {
      SizeWithinCapacity(0, ops);
    }
    StepValue(capacity, Run(capacity, init), op, key);
    if op != Put(key, Run(capacity, ops).entries[key].value) {
      ResidentsHoldLastPut(capacity, init, key);
    }
  }

  /** An operation on a key that is not resident leaves the lists right. */
  lemma {:induction false} MissFiles(h: History, keyNode: map<int, nat>, lists: Lists, key: int)
    requires Sound(h) && Filed(h, keyNode, lists) && key !in keyNode
    ensures Filed(Use(h, key), keyNode, lists)
  {
    forall k | k in keyNode ensures Uses(Use(h, key), k) == Uses(h, k) {
      OtherUnchanged(h, key, k);
    }
    forall f | f in lists ensures ListOk(Use(h, key), f, lists[f]) {
      forall i | 0 <= i < |lists[f]| ensures lists[f][i].key != key {
        assert Belongs(h, f, lists[f][i]);
      }
      OthersOk(h, key, f, lists[f]);
    }
  }

  // ----- the cache -----

  class LFUCache {
    const capacity: int
    var minFreq: nat
    var keyNode: map<int, nat>
    var freqList: Lists
    ghost var ops: seq<Op>

    /** The fields are those of the history of operations so far. */
    ghost predicate Valid()
      reads this
    {
      Filed(Run(capacity, ops), keyNode, freqList) && Least(minFreq, freqList)
    }

    constructor (cap: int)
      ensures Valid() && ops == [] && capacity == cap
    {
      capacity, minFreq := cap, 0;
      keyNode, freqList := map[], map[];
      ops := [];
    }

    ghost method Record(op: Op)
      requires Filed(Step(capacity, Run(capacity, ops), op), keyNode, freqList) && Least(minFreq, freqList)
      modifies this`ops
      ensures Valid() && ops == old(ops) + [op]
    {
      Extend(capacity, ops, op);
      ops := ops + [op];
    }

    /** Takes the node of a key from its list and puts it in front of the next. */
    method MoveNode(key: int)
      requires key in keyNode && keyNode[key] in freqList && HasKey(freqList[keyNode[key]], key)
      modifies this`minFreq, this`keyNode, this`freqList
      ensures var f, lists := old(keyNode[key]), old(freqList);
              var node := lists[f][IndexOf(lists[f], key)];
              && keyNode == old(keyNode)[key := f + 1] && freqList == Moved(lists, f, node)
              && minFreq == MinAfter(lists, f, key, old(minFreq))
    {
      var f := keyNode[key];
      var list := freqList[f];
      var node := list[IndexOf(list, key)];
      list := Without(list, key);
      freqList := freqList[f := list];
      if list == [] {
        freqList := freqList - {f};
        if minFreq == f {
          minFreq := minFreq + 1;
        }
      }
      assert freqList == Store(old(freqList), f, list);
      node := Node(node.key, node.value, f + 1);
      freqList := freqList[f + 1 := [node] + At(freqList, f + 1)];
      keyNode := keyNode[key := f + 1];
    }

    method UpdateFrequency(key: int, ghost h: History)
      requires Sound(h) && Filed(h, keyNode, freqList) && Least(minFreq, freqList) && key in keyNode
      modifies this`minFreq, this`keyNode, this`freqList
      ensures Filed(Use(h, key), keyNode, freqList) && Least(minFreq, freqList)
    {
      MoveIsUse(h, keyNode, freqList, minFreq, key);
      MoveNode(key);
    }

    method Get(key: int) returns (r: int)
      requires Valid()
      modifies this
      ensures Valid() && ops == old(ops) + [Op.Get(key)]
      ensures r == Answer(Run(capacity, old(ops)), key)
      ensures if key in keyNode then LastPut(old(ops), key) == Some(r) else r == -1
    {
      ghost var h := Run(capacity, ops);
      RunSound(capacity, ops);
      if capacity == 0 {
        SizeWithinCapacity(0, ops);
      }
      if capacity == 0 || key !in keyNode {
        r := -1;
        MissFiles(h, keyNode, freqList, key);
      } else {
        ResidentsHoldLastPut(capacity, ops, key);
        var list := freqList[keyNode[key]];
        FoundNode(h, keyNode[key], list, key);
        r := list[IndexOf(list, key)].value;
        UpdateFrequency(key, h);
      }
      Record(Op.Get(key));
    }

    /** Drops the last node of the list of the least frequency. */
    method Evict(ghost h: History)
      requires Sound(h) && Filed(h, keyNode, freqList) && Least(minFreq, freqList) && keyNode != map[]
      modifies this`keyNode, this`freqList
      ensures h.entries != map[]
      ensures Filed(h.(entries := h.entries - {Victim(h)}), keyNode, freqList)
    {
      ghost var k := Sets.Member(keyNode.Keys);
      assert keyNode[k] in freqList;
      BackIsVictim(h, keyNode, freqList, minFreq);
      var list := freqList[minFreq];
      var victim := list[|list| - 1].key;
      VictimUnique(h, victim);
      EvictFiles(h, keyNode, freqList, minFreq, victim);
      ghost var dropped := Store(freqList, minFreq, list[..|list| - 1]);
      keyNode := keyNode - {victim};
      freqList := freqList[minFreq := list[..|list| - 1]];
      if freqList[minFreq] == [] {
        freqList := freqList - {minFreq};
      }
      assert freqList == dropped;
    }

    method SetValue(key: int, value: int, ghost h: History)
      requires Filed(h, keyNode, freqList) && Least(minFreq, freqList) && key in keyNode
      modifies this`freqList
      ensures Filed(WithValue(h, key, value), keyNode, freqList) && Least(minFreq, freqList)
    {
      SetValueFiles(h, keyNode, freqList, key, value);
      var list := freqList[keyNode[key]];
      freqList := freqList[keyNode[key] := ReplaceValue(list, key, value)];
    }

    method Add(key: int, value: int, ghost h: History)
      requires Sound(h) && Filed(h, keyNode, freqList) && key !in keyNode
      modifies this`minFreq, this`keyNode, this`freqList
      ensures Filed(Enter(h, key, value), keyNode, freqList) && Least(minFreq, freqList)
    {
      EnterFiles(h, keyNode, freqList, key, value);
      minFreq := 1;
      freqList := freqList[minFreq := [Node(key, value, 1)] + At(freqList, minFreq)];
      keyNode := keyNode[key := 1];
    }

    /** A resident key gets the value and one more use. */
    method Refresh(key: int, value: int, ghost h: History)
      requires Sound(h) && Filed(h, keyNode, freqList) && Least(minFreq, freqList) && key in keyNode
      modifies this`minFreq, this`keyNode, this`freqList
      ensures Filed(Use(WithValue(h, key, value), key), keyNode, freqList) && Least(minFreq, freqList)
    {
      SetValue(key, value, h);
      UpdateFrequency(key, WithValue(h, key, value));
    }

    /** A new key comes in, after the victim of a full cache has gone. */
    method Admit(key: int, value: int, ghost h: History)
      requires capacity != 0 && Sound(h) && Filed(h, keyNode, freqList) && Least(minFreq, freqList) && key !in keyNode
      modifies this`minFreq, this`keyNode, this`freqList
      ensures Filed(Enter(MakeRoom(capacity, h), key, value), keyNode, freqList) && Least(minFreq, freqList)
    {
      assert |keyNode| == |keyNode.Keys| == |h.entries.Keys| == |h.entries|;
      if |keyNode| == capacity {
        Evict(h);
      }
      Add(key, value, MakeRoom(capacity, h));
    }

    method Put(key: int, value: int)
      requires Valid()
      modifies this
      ensures Valid() && ops == old(ops) + [Op.Put(key, value)]
    {
      ghost var h := Run(capacity, ops);
      RunSound(capacity, ops);
      if capacity == 0 {
        SizeWithinCapacity(0, ops);
        MissFiles(h, keyNode, freqList, key);
      } else if key in keyNode {
        Refresh(key, value, h);
      } else {
        Admit(key, value, h);
      }
      Record(Op.Put(key, value));
    }
  }
}
