/**
 The mutable nodes of the B-tree index. Each node owns an array of keys and an array of child
 pointers; every loop that shifts or copies array elements is proved equal to a sequence
 operation, and every node operation is proved equal to the function of BTreeModel it computes.
 */
module BTreeNodes {
  import opened BTreeModel
  import opened BTreeRebalance

  // ----- the shifting and copying loops -----

  /** Moves a[lo..hi] one place to the right, from the last element down. */
  method ShiftRight<T>(a: array<T>, lo: nat, hi: nat)
    requires lo <= hi < a.Length
    modifies a
    ensures a[..lo] == old(a[..lo])
    ensures a[lo + 1..hi + 1] == old(a[lo..hi])
    ensures a[hi + 1..] == old(a[hi + 1..])
  {
    var j := hi;
    while j > lo
      invariant lo <= j <= hi
      invariant forall x :: 0 <= x <= j ==> a[x] == old(a[x])
      invariant forall x :: j < x <= hi ==> a[x] == old(a[x - 1])
      invariant forall x :: hi < x < a.Length ==> a[x] == old(a[x])
    {
      a[j] := a[j - 1];
      j := j - 1;
    }
  }

  lemma {:induction false} SlotUnique(keys: seq<int>, k: int, p: nat)
    requires p <= |keys| && (p > 0 ==> keys[p - 1] <= k)
    requires forall j :: p <= j < |keys| ==> keys[j] > k
    ensures Slot(keys, k) == p
  {
  }

  /** Inserts k among the first n elements: the scan for its place shifts the larger elements. */
  method InsertSorted(a: array<int>, n: nat, k: int)
    requires n < a.Length
    modifies a
    ensures a[..n + 1] == old(a[..n])[..Slot(old(a[..n]), k)] + [k] + old(a[..n])[Slot(old(a[..n]), k)..]
  {
    ghost var before := a[..n];
    var i: nat := n;
    while i > 0 && a[i - 1] > k
      invariant i <= n
      invariant forall j :: 0 <= j < i ==> a[j] == before[j]
      invariant forall j :: i < j <= n ==> a[j] == before[j - 1]
      invariant forall j :: i <= j < n ==> before[j] > k
    {
      a[i] := a[i - 1];
      i := i - 1;
    }
    SlotUnique(before, k, i);
    a[i] := k;
    assert a[..n + 1] == before[..i] + [k] + before[i..];
  }

  /** Moves a[lo..hi] one place to the left, from the first element up. */
  method ShiftLeft<T>(a: array<T>, lo: nat, hi: nat)
    requires 0 < lo <= hi <= a.Length
    modifies a
    ensures a[..lo - 1] == old(a[..lo - 1])
    ensures a[lo - 1..hi - 1] == old(a[lo..hi])
  {
    var j := lo;
    while j < hi
      invariant lo <= j <= hi
      invariant forall x :: 0 <= x < lo - 1 ==> a[x] == old(a[x])
      invariant forall x :: lo - 1 <= x < j - 1 ==> a[x] == old(a[x + 1])
      invariant forall x :: j <= x < a.Length ==> a[x] == old(a[x])
    {
      a[j - 1] := a[j];
      j := j + 1;
    }
  }

  /** Copies src[from..from + n] to dst[to..to + n]. */
  method CopyRange<T>(src: array<T>, from: nat, n: nat, dst: array<T>, to: nat)
    requires src != dst && from + n <= src.Length && to + n <= dst.Length
    modifies dst
    ensures dst[..to] == old(dst[..to])
    ensures dst[to..to + n] == src[from..from + n]
  {
    for j := 0 to n
      invariant dst[..to] == old(dst[..to])
      invariant forall x :: to <= x < to + j ==> dst[x] == src[x - to + from]
    {
      dst[to + j] := src[from + j];
    }
  }

  lemma {:induction false} LowerBoundUnique(keys: seq<int>, k: int, p: nat)
    requires p <= |keys| && (p < |keys| ==> k <= keys[p])
    requires forall j :: 0 <= j < p ==> keys[j] < k
    ensures LowerBound(keys, k) == p
  {
  }

  // ----- nodes in memory -----

  /** Where a tree lies in memory: a node, the places of its children, and all objects below it. */
  datatype Cell = Cell(node: BTreeNode, kids: seq<Cell>, objs: set<object>)

  ghost function Own(n: BTreeNode): set<object> {
    {n, n.keys, n.children}
  }

  ghost predicate FullArrays(n: BTreeNode) {
    n.keys.Length == MAX_KEYS && n.children.Length == MAX_KEYS + 1
  }

  /** No object is used twice, and every node has arrays of the full size. */
  ghost predicate Tidy(c: Cell) {
    && FullArrays(c.node)
    && Own(c.node) <= c.objs
    && (forall i :: 0 <= i < |c.kids| ==>
          Tidy(c.kids[i]) && c.kids[i].objs <= c.objs && Own(c.node) !! c.kids[i].objs)
    && (forall i, j :: 0 <= i < j < |c.kids| ==> c.kids[i].objs !! c.kids[j].objs)
  }

  ghost function Union(kids: seq<Cell>): set<object> {
    if kids == [] then {} else kids[0].objs + Union(kids[1..])
  }

  lemma {:induction false} UnionHas(kids: seq<Cell>, i: nat)
    requires i < |kids|
    ensures kids[i].objs <= Union(kids)
  {
    if i == 0 {
    } else {
      UnionHas(kids[1..], i - 1);
    }
  }

  lemma {:induction false} UnionWithin(kids: seq<Cell>, s: set<object>)
    requires forall i :: 0 <= i < |kids| ==> kids[i].objs <= s
    ensures Union(kids) <= s
  {
    if kids == [] {
    } else {
      UnionWithin(kids[1..], s);
    }
  }

  lemma {:induction false} UnionApart(kids: seq<Cell>, s: set<object>)
    requires forall i :: 0 <= i < |kids| ==> kids[i].objs !! s
    ensures Union(kids) !! s
  {
    if kids == [] {
    } else {
      UnionApart(kids[1..], s);
    }
  }

  ghost function NodesOf(kids: seq<Cell>): (s: seq<BTreeNode?>)
    ensures |s| == |kids| && forall j :: 0 <= j < |kids| ==> s[j] == kids[j].node
  {
    seq(|kids|, j requires 0 <= j < |kids| => kids[j].node)
  }

  ghost function MakeCell(n: BTreeNode, kids: seq<Cell>): Cell {
    Cell(n, kids, Own(n) + Union(kids))
  }

  /** The nodes of c hold the tree t. */
  ghost predicate Holds(c: Cell, t: Tree)
    requires Tidy(c)
    reads c.objs
    decreases c
  {
    && |t.keys| == c.node.numKeys <= MAX_KEYS
    && c.node.keys[..c.node.numKeys] == t.keys
    && c.node.leaf == t.Leaf?
    && (t.Leaf? ==> c.kids == [])
    && (t.Node? ==>
          && |t.children| == |c.kids| <= MAX_KEYS + 1
          && forall i :: 0 <= i < |c.kids| ==>
               c.node.children[i] == c.kids[i].node && Holds(c.kids[i], t.children[i]))
  }

  /** The cells hold the trees, one by one. */
  ghost predicate AllHold(kids: seq<Cell>, ts: seq<Tree>)
    reads set i, o | 0 <= i < |kids| && o in kids[i].objs :: o
  {
    |kids| == |ts| && forall i :: 0 <= i < |kids| ==> Tidy(kids[i]) && Holds(kids[i], ts[i])
  }

  lemma {:induction false} AllHoldConcat(a: seq<Cell>, at: seq<Tree>, b: seq<Cell>, bt: seq<Tree>)
    requires AllHold(a, at) && AllHold(b, bt)
    ensures AllHold(a + b, at + bt)
  {
  }

  lemma {:induction false} AllHoldPart(a: seq<Cell>, at: seq<Tree>, lo: nat, hi: nat)
    requires AllHold(a, at) && lo <= hi <= |a|
    ensures AllHold(a[lo..hi], at[lo..hi])
  {
  }

  lemma {:induction false} AllHoldOne(x: Cell, xt: Tree)
    requires Tidy(x) && Holds(x, xt)
    ensures AllHold([x], [xt])
  {
  }

  class BTreeNode {
    const leaf: bool
    var numKeys: nat
    const keys: array<int>
    const children: array<BTreeNode?>

    constructor (leaf: bool)
      ensures this.leaf == leaf && numKeys == 0
      ensures FullArrays(this)
      ensures fresh(keys) && fresh(children)
    {
      this.leaf := leaf;
      numKeys := 0;
      keys := new int[MAX_KEYS](_ => 0);
      children := new BTreeNode?[MAX_KEYS + 1](_ => null);
    }

    // ----- searching and traversing -----

    /** The position of the first key that is not below k. */
    method FindKey(k: int) returns (idx: nat)
      requires numKeys <= keys.Length
      ensures idx == LowerBound(keys[..numKeys], k)
    {
      idx := 0;
      while idx < numKeys && keys[idx] < k
        invariant idx <= numKeys
        invariant forall j :: 0 <= j < idx ==> keys[j] < k
      {
        idx := idx + 1;
      }
      LowerBoundUnique(keys[..numKeys], k, idx);
    }

    method Search(k: int, ghost c: Cell, ghost t: Tree, ghost h: nat) returns (r: BTreeNode?)
      requires c.node == this && Tidy(c) && Holds(c, t) && Shape(t, h)
      ensures r != null <==> BTreeModel.Search(t, h, k).In?
      ensures r != null ==> r in c.objs && r.numKeys <= r.keys.Length &&
                            r.keys[..r.numKeys] == BTreeModel.Search(t, h, k).node.keys
      decreases h
    {
      var i := 0;
      while i < numKeys && k > keys[i]
        invariant i <= numKeys
        invariant forall j :: 0 <= j < i ==> t.keys[j] < k
      {
        i := i + 1;
      }
      LowerBoundUnique(t.keys, k, i);
      if i < numKeys && keys[i] == k {
        return this;
      }
      if leaf {
        return null;
      }
      r := children[i].Search(k, c.kids[i], t.children[i], h - 1);
    }

    /** The sequence of keys printed. */
    method Traverse(ghost c: Cell, ghost t: Tree, ghost h: nat) returns (out: seq<int>)
      requires c.node == this && Tidy(c) && Holds(c, t) && Shape(t, h)
      ensures out == InOrder(t)
      decreases h, 1
    {
      out := [];
      var i := 0;
      while i < numKeys
        invariant i <= numKeys
        invariant out == Printed(t, i)
      {
        PrintedStep(t, i);
        if !leaf {
          var s := TraverseChild(i, c, t, h);
          out := out + s;
        }
        out := out + [keys[i]];
        i := i + 1;
      }
      if !leaf {
        var s := TraverseChild(i, c, t, h);
        out := out + s;
      }
      PrintedAll(t);
    }

    method TraverseChild(i: nat, ghost c: Cell, ghost t: Tree, ghost h: nat) returns (out: seq<int>)
      requires c.node == this && Tidy(c) && Holds(c, t) && Shape(t, h) && t.Node? && i < |t.children|
      ensures out == InOrder(t.children[i])
      decreases h, 0
    {
      out := children[i].Traverse(c.kids[i], t.children[i], h - 1);
    }

    // ----- splitting -----

    /** Moves the upper half of the arrays to the new node z. */
    method CopyUpperHalf(z: BTreeNode)
      requires z != this && z.keys != keys && z.children != children
      requires FullArrays(this) && FullArrays(z)
      modifies this`numKeys, z`numKeys, z.keys, z.children
      ensures numKeys == z.numKeys == MIN_DEGREE - 1
      ensures z.keys[..MIN_DEGREE - 1] == keys[MIN_DEGREE..]
      ensures !leaf ==> forall i :: 0 <= i < MIN_DEGREE ==> z.children[i] == children[MIN_DEGREE + i]
    {
      z.numKeys := MIN_DEGREE - 1;
      CopyRange(keys, MIN_DEGREE, MIN_DEGREE - 1, z.keys, 0);
      if !leaf {
        CopyRange(children, MIN_DEGREE, MIN_DEGREE, z.children, 0);
        assert forall i :: 0 <= i < MIN_DEGREE ==>
               z.children[i] == z.children[0..MIN_DEGREE][i] == children[MIN_DEGREE + i];
      }
      numKeys := MIN_DEGREE - 1;
    }

    /** Moves the upper half of a full node to the new node z, which leaves the lower half here. */
    method MoveUpperHalf(z: BTreeNode, ghost c: Cell, ghost t: Tree) returns (ghost l: Cell, ghost r: Cell)
      requires c.node == this && Tidy(c) && Holds(c, t) && Full(t) && (t.Node? ==> |t.children| == MAX_KEYS + 1)
      requires z.leaf == leaf && FullArrays(z)
      requires Own(z) !! c.objs
      modifies this, z, z.keys, z.children
      ensures l.node == this && r.node == z && l.objs !! r.objs
      ensures l.objs <= c.objs && r.objs <= c.objs + Own(z)
      ensures Tidy(l) && Holds(l, LeftHalf(t))
      ensures Tidy(r) && Holds(r, RightHalf(t))
    {
      l, r := MakeCell(this, c.kids[..|c.kids| / 2]), MakeCell(z, c.kids[|c.kids| / 2..]);
      HalvesTidy(c, z);
      assert keys[..MAX_KEYS] == t.keys;
      CopyUpperHalf(z);
      assert forall i :: 0 <= i < |c.kids| ==> Holds(c.kids[i], t.children[i]);
      LowerHalfHolds(c, t);
      UpperHalfHolds(c, z, t);
    }

    /** Makes room after position i and puts in a key and the child to its right. */
    method PutKeyAndChild(i: nat, k: int, z: BTreeNode)
      requires FullArrays(this) && i <= numKeys < MAX_KEYS
      modifies this`numKeys, keys, children
      ensures numKeys == old(numKeys) + 1
      ensures keys[..numKeys] == old(keys[..i]) + [k] + old(keys[i..numKeys])
      ensures children[..numKeys + 1] == old(children[..i + 1]) + [z] + old(children[i + 1..numKeys + 1])
    {
      ShiftRight(children, i + 1, numKeys + 1);
      children[i + 1] := z;
      ShiftRight(keys, i, numKeys);
      keys[i] := k;
      numKeys := numKeys + 1;
    }

    /** Puts the upper half r of child i beside its lower half l, with the key between them. */
    method AttachHalf(i: nat, k: int, z: BTreeNode, ghost c: Cell, ghost t: Tree, ghost l: Cell, ghost r: Cell)
      returns (ghost c': Cell)
      requires c.node == this && Tidy(c) && TopHolds(c, t) && Splittable(t, i) &&
               k == t.children[i].keys[MIN_DEGREE - 1]
      requires Tidy(l) && Tidy(r) && l.objs !! r.objs && l.node == c.kids[i].node && r.node == z
      requires l.objs <= c.kids[i].objs && r.objs <= c.kids[i].objs + Own(z) && Own(z) !! c.objs
      requires Holds(l, LeftHalf(t.children[i])) && Holds(r, RightHalf(t.children[i]))
      requires forall j :: 0 <= j < |c.kids| && j != i ==> Holds(c.kids[j], t.children[j])
      modifies this, keys, children
      ensures c' == Cell(this, c.kids[..i] + [l, r] + c.kids[i + 1..], c.objs + Own(z))
      ensures Tidy(c') && Holds(c', BTreeModel.SplitChild(t, i))
    {
      c' := Cell(this, c.kids[..i] + [l, r] + c.kids[i + 1..], c.objs + Own(z));
      SpliceTidy(c, i, l, r, Own(z));
      PutKeyAndChild(i, k, z);
      assert Holds(l, LeftHalf(t.children[i])) && Holds(r, RightHalf(t.children[i]));
      SplitHolds(c, t, i, l, r, c');
    }

    /** Splits the full child y in position i. */
    method SplitChild(i: nat, y: BTreeNode, ghost c: Cell, ghost t: Tree) returns (ghost c': Cell)
      requires c.node == this && Tidy(c) && Holds(c, t) && Splittable(t, i) && c.kids[i].node == y
      modifies this, keys, children, y
      ensures c'.node == this && Tidy(c') && Holds(c', BTreeModel.SplitChild(t, i))
      ensures c.objs <= c'.objs && fresh(c'.objs - c.objs)
    {
      var z := new BTreeNode(y.leaf);
      ghost var l, r := y.MoveUpperHalf(z, c.kids[i], t.children[i]);
      c' := AttachHalf(i, y.keys[MIN_DEGREE - 1], z, c, t, l, r);
    }

    // ----- inserting -----

    method InsertNonFull(k: int, ghost c: Cell, ghost t: Tree, ghost h: nat) returns (ghost c': Cell, ghost t': Tree)
      requires c.node == this && Tidy(c) && Holds(c, t) && Shape(t, h) && |t.keys| < MAX_KEYS
      modifies c.objs
      ensures t' == BTreeModel.InsertNonFull(t, h, k)
      ensures c'.node == this && Tidy(c') && Holds(c', t')
      ensures c.objs <= c'.objs && fresh(c'.objs - c.objs)
      decreases h, 2
    {
      if leaf {
        t' := InsertInLeaf(k, c, t);
        c' := c;
      } else {
        var i := FindSlot(k);
        c', t' := InsertInNode(i, k, c, t, h);
        InsertNonFullStep(t, h, k);
      }
    }

    method InsertInLeaf(k: int, ghost c: Cell, ghost t: Tree) returns (ghost t': Tree)
      requires c.node == this && Tidy(c) && Holds(c, t) && t.Leaf? && |t.keys| < MAX_KEYS
      modifies this, keys
      ensures t' == Leaf(t.keys[..Slot(t.keys, k)] + [k] + t.keys[Slot(t.keys, k)..]) && Holds(c, t')
    {
      InsertSorted(keys, numKeys, k);
      numKeys := numKeys + 1;
      t' := Leaf(keys[..numKeys]);
    }

    /** Descends into child i, the one where k belongs, after splitting it if it is full. */
    method InsertInNode(i: nat, k: int, ghost c: Cell, ghost t: Tree, ghost h: nat)
      returns (ghost c': Cell, ghost t': Tree)
      requires c.node == this && Tidy(c) && Holds(c, t) && Shape(t, h) && t.Node? && |t.keys| < MAX_KEYS
      requires i == Slot(t.keys, k)
      modifies c.objs
      ensures if Full(t.children[i]) then
                Splittable(t, i) &&
                var s := BTreeModel.SplitChild(t, i);
                && Shape(s, h) && !Full(s.children[i]) && !Full(s.children[i + 1])
                && t' == BTreeModel.InsertBelow(s, h, if s.keys[i] < k then i + 1 else i, k)
              else t' == BTreeModel.InsertBelow(t, h, i, k)
      ensures c'.node == this && Tidy(c') && Holds(c', t')
      ensures c.objs <= c'.objs && fresh(c'.objs - c.objs)
      decreases h, 1, 1
    {
      assert children[i].numKeys == |t.children[i].keys|;
      if children[i].numKeys == MAX_KEYS {
        SplitChildCorrect(t, h, i);
        c', t' := SplitAndInsert(i, k, c, t, h);
      } else {
        c', t' := InsertBelow(i, k, c, t, h);
      }
    }

    /** Splits the full child in position i first, then descends into the half where k belongs. */
    method SplitAndInsert(i: nat, k: int, ghost c: Cell, ghost t: Tree, ghost h: nat)
      returns (ghost c': Cell, ghost t': Tree)
      requires c.node == this && Tidy(c) && Holds(c, t) && Splittable(t, i)
      requires var s := BTreeModel.SplitChild(t, i);
               Shape(s, h) && !Full(s.children[i]) && !Full(s.children[i + 1])
      modifies c.objs
      ensures var s := BTreeModel.SplitChild(t, i);
              t' == BTreeModel.InsertBelow(s, h, if s.keys[i] < k then i + 1 else i, k)
      ensures c'.node == this && Tidy(c') && Holds(c', t')
      ensures c.objs <= c'.objs && fresh(c'.objs - c.objs)
      decreases h, 1, 0
    {
      ghost var s := BTreeModel.SplitChild(t, i);
      ghost var c1 := SplitChild(i, children[i], c, t);
      assert keys[i] == s.keys[i];
      c', t' := InsertBelow(if keys[i] < k then i + 1 else i, k, c1, s, h);
    }

    /** Scans from the right for the child to descend into. */
    method FindSlot(k: int) returns (i: nat)
      requires numKeys <= keys.Length
      ensures i == Slot(keys[..numKeys], k)
    {
      i := numKeys;
      while i > 0 && keys[i - 1] > k
        invariant i <= numKeys
        invariant forall j :: i <= j < numKeys ==> keys[j] > k
      {
        i := i - 1;
      }
      SlotUnique(keys[..numKeys], k, i);
    }

    method InsertBelow(q: nat, k: int, ghost c: Cell, ghost t: Tree, ghost h: nat)
      returns (ghost c': Cell, ghost t': Tree)
      requires c.node == this && Tidy(c) && Holds(c, t) && Shape(t, h)
      requires t.Node? && q < |t.children| && !Full(t.children[q])
      modifies c.objs
      ensures t' == BTreeModel.InsertBelow(t, h, q, k)
      ensures c'.node == this && Tidy(c') && Holds(c', t')
      ensures c.objs <= c'.objs && fresh(c'.objs - c.objs)
      decreases h, 0
    {
      ghost var kid, kt := children[q].InsertNonFull(k, c.kids[q], t.children[q], h - 1);
      c' := Cell(this, c.kids[q := kid], c.objs + kid.objs);
      t' := Node(t.keys, t.children[q := kt]);
      ReplaceTidy(c, q, kid);
      assert forall j :: 0 <= j < |c.kids| && j != q ==> Holds(c.kids[j], t.children[j]);
      Assemble(c', t');
    }

    // ----- refilling a child before a deletion -----

    /** The loops that put a key, and a child pointer, in front. */
    method PutFirst(k: int, p: BTreeNode?)
      requires FullArrays(this) && numKeys < MAX_KEYS
      modifies this`numKeys, keys, children
      ensures numKeys == old(numKeys) + 1
      ensures keys[..numKeys] == [k] + old(keys[..numKeys])
      ensures !leaf ==> children[..numKeys + 1] == [p] + old(children[..numKeys + 1])
    {
      ShiftRight(keys, 0, numKeys);
      if !leaf {
        ShiftRight(children, 0, numKeys + 1);
      }
      keys[0] := k;
      children[0] := p;
      numKeys := numKeys + 1;
    }

    /** A key, and a child pointer, at the end. */
    method PutLast(k: int, p: BTreeNode?)
      requires FullArrays(this) && numKeys < MAX_KEYS
      modifies this`numKeys, keys, children
      ensures numKeys == old(numKeys) + 1
      ensures keys[..numKeys] == old(keys[..numKeys]) + [k]
      ensures !leaf ==> children[..numKeys + 1] == old(children[..numKeys + 1]) + [p]
    {
      keys[numKeys] := k;
      if !leaf {
        children[numKeys + 1] := p;
      }
      numKeys := numKeys + 1;
    }

    /** The loops that remove the first key and the first child pointer. */
    method TakeFirst()
      requires FullArrays(this) && 0 < numKeys <= MAX_KEYS
      modifies this`numKeys, keys, children
      ensures numKeys == old(numKeys) - 1
      ensures keys[..numKeys] == old(keys[1..numKeys])
      ensures !leaf ==> children[..numKeys + 1] == old(children[1..numKeys + 1])
    {
      ShiftLeft(keys, 1, numKeys);
      if !leaf {
        ShiftLeft(children, 1, numKeys + 1);
      }
      numKeys := numKeys - 1;
    }

    /**
     The loops that append a key and all of the right neighbour; the source relies on there being
     MIN_DEGREE - 1 keys.
     */
    method PutAll(k: int, sibling: BTreeNode)
      requires FullArrays(this) && numKeys == MIN_DEGREE - 1
      requires FullArrays(sibling)
      requires sibling.numKeys < MIN_DEGREE && sibling != this && sibling.keys != keys && sibling.children != children
      modifies this`numKeys, keys, children
      ensures numKeys == old(numKeys) + 1 + sibling.numKeys
      ensures keys[..numKeys] == old(keys[..numKeys]) + [k] + sibling.keys[..sibling.numKeys]
      ensures !leaf ==>
              children[..numKeys + 1] == old(children[..numKeys + 1]) + sibling.children[..sibling.numKeys + 1]
    {
      keys[MIN_DEGREE - 1] := k;
      CopyRange(sibling.keys, 0, sibling.numKeys, keys, MIN_DEGREE);
      if !leaf {
        CopyRange(sibling.children, 0, sibling.numKeys + 1, children, MIN_DEGREE);
      }
      numKeys := numKeys + sibling.numKeys + 1;
    }

    /** The loops that close the gap left by key idx and the child to its right. */
    method TakeKeyAndChild(idx: nat)
      requires FullArrays(this) && idx < numKeys <= MAX_KEYS
      modifies this`numKeys, keys, children
      ensures numKeys == old(numKeys) - 1
      ensures keys[..numKeys] == old(keys[..idx]) + old(keys[idx + 1..numKeys])
      ensures children[..numKeys + 1] == old(children[..idx + 1]) + old(children[idx + 2..numKeys + 1])
    {
      ShiftLeft(keys, idx + 1, numKeys);
      ShiftLeft(children, idx + 2, numKeys + 1);
      numKeys := numKeys - 1;
    }

    /** All the array updates of a borrow from the left neighbour. */
    method RotateArraysRight(idx: nat, child: BTreeNode, sibling: BTreeNode)
      requires 0 < idx <= numKeys <= MAX_KEYS
      requires FullArrays(this) && FullArrays(child) && FullArrays(sibling)
      requires Own(this) !! Own(child) && Own(this) !! Own(sibling) && Own(child) !! Own(sibling)
      requires child.numKeys < MAX_KEYS && 0 < sibling.numKeys <= MAX_KEYS
      modifies keys, child, child.keys, child.children, sibling
      ensures child.numKeys == old(child.numKeys) + 1 && sibling.numKeys == old(sibling.numKeys) - 1
      ensures child.keys[..child.numKeys] == [old(keys[idx - 1])] + old(child.keys[..child.numKeys])
      ensures !child.leaf ==>
                child.children[..child.numKeys + 1] ==
                  [old(sibling.children[sibling.numKeys])] + old(child.children[..child.numKeys + 1])
      ensures keys[..numKeys] == old(keys[..numKeys])[idx - 1 := old(sibling.keys[sibling.numKeys - 1])]
    {
      child.PutFirst(keys[idx - 1], sibling.children[sibling.numKeys]);
      keys[idx - 1] := sibling.keys[sibling.numKeys - 1];
      sibling.numKeys := sibling.numKeys - 1;
    }

    /** All the array updates of a borrow from the right neighbour. */
    method RotateArraysLeft(idx: nat, child: BTreeNode, sibling: BTreeNode)
      requires idx < numKeys <= MAX_KEYS
      requires FullArrays(this) && FullArrays(child) && FullArrays(sibling)
      requires Own(this) !! Own(child) && Own(this) !! Own(sibling) && Own(child) !! Own(sibling)
      requires child.numKeys < MAX_KEYS && 0 < sibling.numKeys <= MAX_KEYS
      modifies keys, child, child.keys, child.children, sibling, sibling.keys, sibling.children
      ensures child.numKeys == old(child.numKeys) + 1 && sibling.numKeys == old(sibling.numKeys) - 1
      ensures child.keys[..child.numKeys] == old(child.keys[..child.numKeys]) + [old(keys[idx])]
      ensures !child.leaf ==>
                child.children[..child.numKeys + 1] ==
                  old(child.children[..child.numKeys + 1]) + [old(sibling.children[0])]
      ensures sibling.keys[..sibling.numKeys] == old(sibling.keys[1..sibling.numKeys])
      ensures !sibling.leaf ==> sibling.children[..sibling.numKeys + 1] == old(sibling.children[1..sibling.numKeys + 1])
      ensures keys[..numKeys] == old(keys[..numKeys])[idx := old(sibling.keys[0])]
    {
      child.PutLast(keys[idx], sibling.children[0]);
      keys[idx] := sibling.keys[0];
      sibling.TakeFirst();
    }

    /** All the array updates of a merge of child idx with its right neighbour. */
    method JoinArrays(idx: nat, child: BTreeNode, sibling: BTreeNode)
      requires idx < numKeys <= MAX_KEYS
      requires FullArrays(this) && FullArrays(child) && FullArrays(sibling)
      requires Own(this) !! Own(child) && Own(this) !! Own(sibling) && Own(child) !! Own(sibling)
      requires child.numKeys == MIN_DEGREE - 1 && sibling.numKeys < MIN_DEGREE
      modifies this, keys, children, child, child.keys, child.children
      ensures child.numKeys == old(child.numKeys) + 1 + sibling.numKeys
      ensures child.keys[..child.numKeys] ==
              old(child.keys[..child.numKeys]) + [old(keys[idx])] + sibling.keys[..sibling.numKeys]
      ensures !child.leaf ==>
                child.children[..child.numKeys + 1] ==
                  old(child.children[..child.numKeys + 1]) + sibling.children[..sibling.numKeys + 1]
      ensures numKeys == old(numKeys) - 1
      ensures keys[..numKeys] == old(keys[..idx]) + old(keys[idx + 1..numKeys])
      ensures children[..numKeys + 1] == old(children[..idx + 1]) + old(children[idx + 2..numKeys + 1])
    {
      child.PutAll(keys[idx], sibling);
      TakeKeyAndChild(idx);
    }

    /** The borrow seen from the two children and the key between them. */
    method RotateRight(idx: nat, child: BTreeNode, sibling: BTreeNode, ghost l: Cell, ghost lt: Tree, ghost r: Cell,
                       ghost rt: Tree)
      returns (ghost l': Cell, ghost r': Cell, ghost lt': Tree, ghost rt': Tree)
      requires FullArrays(this) && 0 < idx <= numKeys <= MAX_KEYS && sibling == l.node && child == r.node
      requires Tidy(l) && Tidy(r) && Own(this) !! l.objs && Own(this) !! r.objs && l.objs !! r.objs
      requires lt.Leaf? == rt.Leaf? && Arity(lt) && Arity(rt)
      requires Holds(l, lt) && |lt.keys| > 0 && Holds(r, rt) && |rt.keys| < MAX_KEYS
      modifies keys, sibling, child, child.keys, child.children
      ensures keys[..numKeys] == old(keys[..numKeys])[idx - 1 := lt.keys[|lt.keys| - 1]]
      ensures lt' == DropLast(lt) && rt' == Prepend(rt, old(keys[idx - 1]), lt)
      ensures l'.node == l.node && Tidy(l') && Holds(l', lt')
      ensures r'.node == r.node && Tidy(r') && Holds(r', rt')
      ensures l'.objs !! r'.objs && l'.objs + r'.objs <= l.objs + r.objs
    {
      ghost var k := keys[idx - 1];
      TopOf(l, lt);
      TopOf(r, rt);
      RotateArraysRight(idx, child, sibling);
      l', r', lt', rt' := RotatedRight(l, r, lt, rt, k);
    }

    /** The same, with what the other children keep. */
    method RotateRightAt(idx: nat, ghost c: Cell, ghost t: Tree, ghost l: Cell, ghost lt: Tree, ghost r: Cell,
                         ghost rt: Tree)
      returns (ghost l': Cell, ghost r': Cell, ghost lt': Tree, ghost rt': Tree)
      requires c.node == this && 0 < idx <= |t.keys| && PairReplaced(c, t, idx - 1, l, lt, t.keys[idx - 1], r, rt)
      requires l == c.kids[idx - 1] && r == c.kids[idx] && lt.Leaf? == rt.Leaf? && Arity(lt) && Arity(rt)
      requires |lt.keys| > 0 && |rt.keys| < MAX_KEYS
      modifies c.objs
      ensures lt' == DropLast(lt) && rt' == Prepend(rt, t.keys[idx - 1], lt)
      ensures PairReplaced(c, t, idx - 1, l', lt', lt.keys[|lt.keys| - 1], r', rt')
    {
      assert keys[idx - 1] == keys[..numKeys][idx - 1] == t.keys[idx - 1];
      l', r', lt', rt' := RotateRight(idx, children[idx], children[idx - 1], l, lt, r, rt);
    }

    method BorrowFromPrev(idx: nat, ghost c: Cell, ghost t: Tree) returns (ghost c': Cell, ghost t': Tree)
      requires c.node == this && Tidy(c) && Holds(c, t) && 0 < idx && Neighbours(t, idx - 1)
      requires |t.children[idx - 1].keys| > 0 && |t.children[idx].keys| < MAX_KEYS
      modifies c.objs
      ensures t' == BTreeRebalance.BorrowFromPrev(t, idx)
      ensures c'.node == this && c'.objs == c.objs && Tidy(c') && Holds(c', t')
    {
      ghost var lt := t.children[idx - 1];
      PairOf(c, t, idx - 1);
      ghost var l, r, lt', rt := RotateRightAt(idx, c, t, c.kids[idx - 1], lt, c.kids[idx], t.children[idx]);
      c', t' := ReplacedPair(c, t, idx - 1, l, lt', lt.keys[|lt.keys| - 1], r, rt);
    }

    method RotateLeft(idx: nat, child: BTreeNode, sibling: BTreeNode, ghost l: Cell, ghost lt: Tree, ghost r: Cell,
                      ghost rt: Tree)
      returns (ghost l': Cell, ghost r': Cell, ghost lt': Tree, ghost rt': Tree)
      requires FullArrays(this) && idx < numKeys <= MAX_KEYS && child == l.node && sibling == r.node
      requires Tidy(l) && Tidy(r) && Own(this) !! l.objs && Own(this) !! r.objs && l.objs !! r.objs
      requires lt.Leaf? == rt.Leaf? && Arity(lt) && Arity(rt)
      requires Holds(l, lt) && |lt.keys| < MAX_KEYS && Holds(r, rt) && |rt.keys| > 0
      modifies keys, child, child.keys, child.children, sibling, sibling.keys, sibling.children
      ensures keys[..numKeys] == old(keys[..numKeys])[idx := rt.keys[0]]
      ensures lt' == Append(lt, old(keys[idx]), rt) && rt' == DropFirst(rt)
      ensures l'.node == l.node && Tidy(l') && Holds(l', lt')
      ensures r'.node == r.node && Tidy(r') && Holds(r', rt')
      ensures l'.objs !! r'.objs && l'.objs + r'.objs <= l.objs + r.objs
    {
      ghost var k := keys[idx];
      TopOf(l, lt);
      TopOf(r, rt);
      RotateArraysLeft(idx, child, sibling);
      l', r', lt', rt' := RotatedLeft(l, r, lt, rt, k);
    }

    method RotateLeftAt(idx: nat, ghost c: Cell, ghost t: Tree, ghost l: Cell, ghost lt: Tree, ghost r: Cell,
                        ghost rt: Tree)
      returns (ghost l': Cell, ghost r': Cell, ghost lt': Tree, ghost rt': Tree)
      requires c.node == this && idx < |t.keys| && PairReplaced(c, t, idx, l, lt, t.keys[idx], r, rt)
      requires l == c.kids[idx] && r == c.kids[idx + 1] && lt.Leaf? == rt.Leaf? && Arity(lt) && Arity(rt)
      requires |lt.keys| < MAX_KEYS && |rt.keys| > 0
      modifies c.objs
      ensures lt' == Append(lt, t.keys[idx], rt) && rt' == DropFirst(rt)
      ensures PairReplaced(c, t, idx, l', lt', rt.keys[0], r', rt')
    {
      assert keys[idx] == keys[..numKeys][idx] == t.keys[idx];
      l', r', lt', rt' := RotateLeft(idx, children[idx], children[idx + 1], l, lt, r, rt);
    }

    method BorrowFromNext(idx: nat, ghost c: Cell, ghost t: Tree) returns (ghost c': Cell, ghost t': Tree)
      requires c.node == this && Tidy(c) && Holds(c, t) && Neighbours(t, idx)
      requires |t.children[idx].keys| < MAX_KEYS && |t.children[idx + 1].keys| > 0
      modifies c.objs
      ensures t' == BTreeRebalance.BorrowFromNext(t, idx)
      ensures c'.node == this && c'.objs == c.objs && Tidy(c') && Holds(c', t')
    {
      ghost var rt := t.children[idx + 1];
      PairOf(c, t, idx);
      ghost var l, r, lt, rt' := RotateLeftAt(idx, c, t, c.kids[idx], t.children[idx], c.kids[idx + 1], rt);
      c', t' := ReplacedPair(c, t, idx, l, lt, rt.keys[0], r, rt');
    }

    method JoinChildren(idx: nat, child: BTreeNode, sibling: BTreeNode, ghost l: Cell, ghost lt: Tree, ghost r: Cell,
                        ghost rt: Tree)
      returns (ghost j: Cell, ghost jt: Tree)
      requires FullArrays(this) && idx < numKeys <= MAX_KEYS && child == l.node && sibling == r.node
      requires Tidy(l) && Tidy(r) && Own(this) !! l.objs && Own(this) !! r.objs && l.objs !! r.objs
      requires lt.Leaf? == rt.Leaf? && Arity(lt) && Arity(rt)
      requires Holds(l, lt) && |lt.keys| == MIN_DEGREE - 1 && Holds(r, rt) && |rt.keys| < MIN_DEGREE
      modifies this, keys, children, child, child.keys, child.children
      ensures numKeys == old(numKeys) - 1
      ensures keys[..numKeys] == old(keys[..numKeys])[..idx] + old(keys[..numKeys])[idx + 1..]
      ensures children[..numKeys + 1] ==
              old(children[..numKeys + 1])[..idx + 1] + old(children[..numKeys + 1])[idx + 2..]
      ensures jt == Join(lt, old(keys[idx]), rt)
      ensures j.node == l.node && j.objs <= l.objs + r.objs && Tidy(j) && Holds(j, jt)
    {
      ghost var k := keys[idx];
      TopOf(l, lt);
      TopOf(r, rt);
      JoinArrays(idx, child, sibling);
      j, jt := Joined(l, r, lt, rt, k);
    }

    method JoinChildrenAt(idx: nat, ghost c: Cell, ghost t: Tree, ghost l: Cell, ghost lt: Tree, ghost r: Cell,
                          ghost rt: Tree)
      returns (ghost j: Cell, ghost jt: Tree)
      requires c.node == this && idx < |t.keys| && PairReplaced(c, t, idx, l, lt, t.keys[idx], r, rt)
      requires l == c.kids[idx] && r == c.kids[idx + 1] && lt.Leaf? == rt.Leaf? && Arity(lt) && Arity(rt)
      requires |lt.keys| == MIN_DEGREE - 1 && |rt.keys| < MIN_DEGREE
      modifies c.objs
      ensures jt == Join(lt, t.keys[idx], rt)
      ensures PairJoined(c, t, idx, j, jt)
    {
      assert keys[idx] == keys[..numKeys][idx] == t.keys[idx];
      j, jt := JoinChildren(idx, children[idx], children[idx + 1], l, lt, r, rt);
    }

    method Merge(idx: nat, ghost c: Cell, ghost t: Tree) returns (ghost c': Cell, ghost t': Tree)
      requires c.node == this && Tidy(c) && Holds(c, t) && Neighbours(t, idx)
      requires |t.children[idx].keys| == MIN_DEGREE - 1 && |t.children[idx + 1].keys| < MIN_DEGREE
      modifies c.objs
      ensures t' == BTreeRebalance.Merge(t, idx)
      ensures c'.node == this && c'.objs == c.objs && Tidy(c') && Holds(c', t')
    {
      PairOf(c, t, idx);
      ghost var j, jt := JoinChildrenAt(idx, c, t, c.kids[idx], t.children[idx], c.kids[idx + 1], t.children[idx + 1]);
      c', t' := CollapsedPair(c, t, idx, j, jt);
    }

    /** Refills child idx, which has one key too few for a deletion to descend into it. */
    method Fill(idx: nat, ghost c: Cell, ghost t: Tree, ghost h: nat) returns (ghost c': Cell, ghost t': Tree)
      requires c.node == this && Tidy(c) && Holds(c, t) && Shape(t, h) && t.Node? && idx <= |t.keys|
      requires |t.children[idx].keys| < MIN_DEGREE
      modifies c.objs
      ensures AllNeighbours(t) && t' == BTreeRebalance.Fill(t, idx)
      ensures c'.node == this && c'.objs == c.objs && Tidy(c') && Holds(c', t')
    {
      ShapeNeighbours(t, h);
      KidKeys(c, t);
      if idx != 0 && children[idx - 1].numKeys >= MIN_DEGREE {
        c', t' := BorrowFromPrev(idx, c, t);
      } else if idx != numKeys && children[idx + 1].numKeys >= MIN_DEGREE {
        c', t' := BorrowFromNext(idx, c, t);
      } else if idx != numKeys {
        c', t' := Merge(idx, c, t);
      } else {
        c', t' := Merge(idx - 1, c, t);
      }
    }
  }

  /** A child of a tidy cell may grow by objects that are new to the cell. */
  lemma {:induction false} ReplaceTidy(c: Cell, q: nat, kid: Cell)
    requires Tidy(c) && q < |c.kids| && Tidy(kid) && (kid.objs - c.kids[q].objs) !! c.objs
    ensures Tidy(Cell(c.node, c.kids[q := kid], c.objs + kid.objs))
  {
    var kids := c.kids[q := kid];
    forall j | 0 <= j < |kids| && j != q ensures kids[j].objs !! kid.objs {
      assert kids[j] == c.kids[j] && c.kids[j].objs !! c.kids[q].objs;
    }
  }

  /** The node of c holds the top of the tree t; nothing is said about what its children hold. */
  ghost predicate TopHolds(c: Cell, t: Tree)
    requires Tidy(c)
    reads c.objs
  {
    && |t.keys| == c.node.numKeys <= MAX_KEYS && c.node.keys[..c.node.numKeys] == t.keys
    && c.node.leaf == t.Leaf?
    && |c.kids| == (if t.Leaf? then 0 else |t.children|) && |c.kids| <= MAX_KEYS + 1
    && c.node.children[..|c.kids|] == NodesOf(c.kids)
  }

  predicate Splittable(t: Tree, i: nat) {
    && t.Node? && |t.keys| < MAX_KEYS && |t.children| == |t.keys| + 1 && i < |t.children|
    && Full(t.children[i]) && (t.children[i].Node? ==> |t.children[i].children| == MAX_KEYS + 1)
  }

  lemma {:induction false} SplicedNodes(kids: seq<Cell>, i: nat, l: Cell, r: Cell)
    requires i < |kids| && l.node == kids[i].node
    ensures NodesOf(kids[..i] + [l, r] + kids[i + 1..]) == NodesOf(kids)[..i + 1] + [r.node] + NodesOf(kids)[i + 1..]
  {
  }

  /** Position j after two elements have taken the place of one, in the cells and in the trees alike. */
  lemma {:induction false} SplicedAt(kids: seq<Cell>, ts: seq<Tree>, i: nat, l: Cell, lt: Tree, r: Cell, rt: Tree,
                                     j: nat)
    requires i < |kids| == |ts| && j <= |kids|
    ensures var ks, us := kids[..i] + [l, r] + kids[i + 1..], ts[..i] + [lt, rt] + ts[i + 1..];
            if j == i then ks[j] == l && us[j] == lt
            else if j == i + 1 then ks[j] == r && us[j] == rt
            else (var m := if j < i then j else j - 1; ks[j] == kids[m] && us[j] == ts[m])
  {
  }

  lemma {:induction false} SplitHolds(c: Cell, t: Tree, i: nat, l: Cell, r: Cell, c': Cell)
    requires Splittable(t, i) && |c.kids| == |t.children|
    requires Tidy(c') && c'.node == c.node && c'.kids == c.kids[..i] + [l, r] + c.kids[i + 1..]
    requires l.node == c.kids[i].node && !c.node.leaf && c.node.numKeys == |t.keys| + 1
    requires c.node.keys[..c.node.numKeys] == t.keys[..i] + [t.children[i].keys[MIN_DEGREE - 1]] + t.keys[i..]
    requires c.node.children[..c.node.numKeys + 1] == NodesOf(c.kids)[..i + 1] + [r.node] + NodesOf(c.kids)[i + 1..]
    requires Tidy(l) && Holds(l, LeftHalf(t.children[i]))
    requires Tidy(r) && Holds(r, RightHalf(t.children[i]))
    requires forall j :: 0 <= j < |c.kids| && j != i ==> Tidy(c.kids[j]) && Holds(c.kids[j], t.children[j])
    ensures Holds(c', SplitChild(t, i))
  {
    var t' := SplitChild(t, i);
    SplicedNodes(c.kids, i, l, r);
    forall j | 0 <= j < |c'.kids| ensures Holds(c'.kids[j], t'.children[j]) {
      SplicedAt(c.kids, t.children, i, l, LeftHalf(t.children[i]), r, RightHalf(t.children[i]), j);
    }
    Assemble(c', t');
  }

  /** One child of a tidy cell may be replaced by two that use its objects and new ones. */
  lemma {:induction false} SpliceTidy(c: Cell, i: nat, l: Cell, r: Cell, extra: set<object>)
    requires Tidy(c) && i < |c.kids| && Tidy(l) && Tidy(r) && l.objs !! r.objs
    requires l.objs <= c.kids[i].objs && r.objs <= c.kids[i].objs + extra && extra !! c.objs
    ensures Tidy(Cell(c.node, c.kids[..i] + [l, r] + c.kids[i + 1..], c.objs + extra))
  {
    var kids := c.kids[..i] + [l, r] + c.kids[i + 1..];
    assert kids[i] == l && kids[i + 1] == r;
    assert forall j :: 0 <= j < i ==> kids[j] == c.kids[j];
    assert forall j :: i + 1 < j < |kids| ==> kids[j] == c.kids[j - 1];
  }

  /** Children that are tidy and apart make a tidy cell over a node that is apart from them. */
  lemma {:induction false} MakeTidy(n: BTreeNode, kids: seq<Cell>)
    requires FullArrays(n)
    requires forall i :: 0 <= i < |kids| ==> Tidy(kids[i]) && Own(n) !! kids[i].objs
    requires forall i, j :: 0 <= i < j < |kids| ==> kids[i].objs !! kids[j].objs
    ensures Tidy(MakeCell(n, kids))
  {
    forall i | 0 <= i < |kids| ensures kids[i].objs <= Union(kids) {
      UnionHas(kids, i);
    }
  }

  /** A run of the children of a tidy cell makes a tidy cell with the same node or a new one. */
  lemma {:induction false} PartTidy(c: Cell, n: BTreeNode, lo: nat, hi: nat)
    requires Tidy(c) && lo <= hi <= |c.kids|
    requires n == c.node || Own(n) !! c.objs
    requires FullArrays(n)
    ensures Tidy(MakeCell(n, c.kids[lo..hi]))
    ensures MakeCell(n, c.kids[lo..hi]).objs <= c.objs + Own(n)
  {
    MakeTidy(n, c.kids[lo..hi]);
    UnionWithin(c.kids[lo..hi], c.objs);
  }

  lemma {:induction false} PartsApart(c: Cell, m: nat)
    requires Tidy(c) && m <= |c.kids|
    ensures Union(c.kids[..m]) !! Union(c.kids[m..])
    ensures Own(c.node) !! Union(c.kids[..m]) && Own(c.node) !! Union(c.kids[m..])
  {
    UnionApart(c.kids[..m], Own(c.node));
    UnionApart(c.kids[m..], Own(c.node));
    forall j | 0 <= j < |c.kids[m..]| ensures c.kids[m..][j].objs !! Union(c.kids[..m]) {
      UnionApart(c.kids[..m], c.kids[m..][j].objs);
    }
    UnionApart(c.kids[m..], Union(c.kids[..m]));
  }

  lemma {:induction false} HalvesTidy(c: Cell, z: BTreeNode)
    requires Tidy(c) && Own(z) !! c.objs
    requires FullArrays(z)
    ensures var l, r := MakeCell(c.node, c.kids[..|c.kids| / 2]), MakeCell(z, c.kids[|c.kids| / 2..]);
            Tidy(l) && Tidy(r) && l.objs !! r.objs && l.objs <= c.objs && r.objs <= c.objs + Own(z)
  {
    var m := |c.kids| / 2;
    PartTidy(c, c.node, 0, m);
    PartTidy(c, z, m, |c.kids|);
    assert c.kids[..m] == c.kids[0..m] && c.kids[m..] == c.kids[m..|c.kids|];
    PartsApart(c, m);
  }

  /** A node with the keys and child pointers of a tree, over children that hold its subtrees, holds the tree. */
  lemma {:induction false} Assemble(c: Cell, t: Tree)
    requires Tidy(c) && |t.keys| == c.node.numKeys <= MAX_KEYS
    requires c.node.keys[..c.node.numKeys] == t.keys
    requires c.node.leaf == t.Leaf?
    requires |c.kids| == if t.Leaf? then 0 else |t.children|
    requires |c.kids| <= MAX_KEYS + 1
    requires c.node.children[..|c.kids|] == NodesOf(c.kids)
    requires t.Node? ==> AllHold(c.kids, t.children)
    ensures Holds(c, t)
  {
    assert forall i :: 0 <= i < |c.kids| ==> c.node.children[i] == c.node.children[..|c.kids|][i];
  }

  /** The full node c holds the keys and child pointers of t, and its children hold those of t. */
  ghost predicate FullParts(c: Cell, t: Tree)
    requires Tidy(c)
    reads c.objs
  {
    && Full(t) && c.node.keys[..MAX_KEYS] == t.keys && c.node.leaf == t.Leaf?
    && |c.kids| == (if t.Leaf? then 0 else |t.children|)
    && (t.Node? ==> |t.children| == MAX_KEYS + 1)
    && forall i :: 0 <= i < |c.kids| ==> c.node.children[i] == c.kids[i].node && Holds(c.kids[i], t.children[i])
  }

  lemma {:induction false} LowerHalfHolds(c: Cell, t: Tree)
    requires Tidy(c) && FullParts(c, t) && c.node.numKeys == MIN_DEGREE - 1
    requires Tidy(MakeCell(c.node, c.kids[..|c.kids| / 2]))
    ensures Holds(MakeCell(c.node, c.kids[..|c.kids| / 2]), LeftHalf(t))
  {
    Assemble(MakeCell(c.node, c.kids[..|c.kids| / 2]), LeftHalf(t));
  }

  lemma {:induction false} UpperHalfHolds(c: Cell, z: BTreeNode, t: Tree)
    requires Tidy(c) && FullParts(c, t) && Tidy(MakeCell(z, c.kids[|c.kids| / 2..]))
    requires z.numKeys == MIN_DEGREE - 1 && z.leaf == c.node.leaf
    requires z.keys[..MIN_DEGREE - 1] == c.node.keys[MIN_DEGREE..]
    requires !z.leaf ==> forall i :: 0 <= i < MIN_DEGREE ==> z.children[i] == c.node.children[MIN_DEGREE + i]
    ensures Holds(MakeCell(z, c.kids[|c.kids| / 2..]), RightHalf(t))
  {
    var ks := z.keys[..MIN_DEGREE - 1];
    assert forall i :: 0 <= i < MIN_DEGREE - 1 ==> z.keys[i] == ks[i] == c.node.keys[MIN_DEGREE + i];
    Assemble(MakeCell(z, c.kids[|c.kids| / 2..]), RightHalf(t));
  }

  // ----- two neighbouring children -----

  /** The children of the node hold the subtrees of t. */
  ghost predicate KidsHold(c: Cell, t: Tree)
    requires Tidy(c)
    reads c.objs
  {
    t.Node? ==> AllHold(c.kids, t.children)
  }

  /** The children other than i and i + 1 hold their subtrees. */
  ghost predicate OthersHold(c: Cell, t: Tree, i: nat)
    requires Tidy(c)
    reads c.objs
  {
    t.Node? && |c.kids| == |t.children| &&
    forall j :: 0 <= j < |c.kids| && j != i && j != i + 1 ==> Holds(c.kids[j], t.children[j])
  }

  lemma {:induction false} TopOf(c: Cell, t: Tree)
    requires Tidy(c) && Holds(c, t)
    ensures TopHolds(c, t) && KidsHold(c, t)
  {
  }

  lemma {:induction false} KidKeys(c: Cell, t: Tree)
    requires Tidy(c) && Holds(c, t) && t.Node?
    ensures forall i :: 0 <= i < |t.children| ==>
              c.node.children[i] != null && c.node.children[i].numKeys == |t.children[i].keys|
  {
    forall i | 0 <= i < |t.children|
      ensures c.node.children[i] != null && c.node.children[i].numKeys == |t.children[i].keys|
    {
      assert Holds(c.kids[i], t.children[i]);
    }
  }

  lemma {:induction false} PairApart(c: Cell, i: nat)
    requires Tidy(c) && i + 1 < |c.kids|
    ensures var l, r := c.kids[i], c.kids[i + 1];
            && Tidy(l) && Tidy(r) && l.objs !! r.objs && l.objs <= c.objs && r.objs <= c.objs
            && Own(c.node) !! l.objs && Own(c.node) !! r.objs
            && Own(l.node) <= l.objs && Own(r.node) <= r.objs
  {
  }

  /** Two neighbours may be replaced by two that share their objects between them. */
  lemma {:induction false} PairTidy(c: Cell, i: nat, l: Cell, r: Cell)
    requires Tidy(c) && i + 1 < |c.kids| && Tidy(l) && Tidy(r) && l.objs !! r.objs
    requires l.objs + r.objs <= c.kids[i].objs + c.kids[i + 1].objs
    ensures Tidy(Cell(c.node, c.kids[i := l][i + 1 := r], c.objs))
  {
    var kids := c.kids[i := l][i + 1 := r];
    forall j | 0 <= j < |kids| && j != i && j != i + 1
      ensures kids[j] == c.kids[j] && kids[j].objs !! l.objs && kids[j].objs !! r.objs
    {
      assert c.kids[j].objs !! c.kids[i].objs && c.kids[j].objs !! c.kids[i + 1].objs;
    }
  }

  /** The node of c holds t but for the children i and i + 1 and the key between them, which l, m and r replace. */
  ghost predicate PairReplaced(c: Cell, t: Tree, i: nat, l: Cell, lt: Tree, m: int, r: Cell, rt: Tree)
    reads c.objs, l.objs, r.objs
  {
    && Tidy(c) && OthersHold(c, t, i) && i < |t.keys| && |t.children| == |t.keys| + 1
    && c.node.numKeys == |t.keys| <= MAX_KEYS && !c.node.leaf
    && c.node.keys[..c.node.numKeys] == t.keys[i := m]
    && c.node.children[..|c.kids|] == NodesOf(c.kids)
    && l.node == c.kids[i].node && r.node == c.kids[i + 1].node
    && Tidy(l) && Holds(l, lt) && Tidy(r) && Holds(r, rt)
    && l.objs !! r.objs && l.objs + r.objs <= c.kids[i].objs + c.kids[i + 1].objs
  }

  lemma {:induction false} PairOf(c: Cell, t: Tree, i: nat)
    requires Tidy(c) && Holds(c, t) && t.Node? && Arity(t) && i < |t.keys|
    ensures PairReplaced(c, t, i, c.kids[i], t.children[i], t.keys[i], c.kids[i + 1], t.children[i + 1])
  {
    TopOf(c, t);
    PairApart(c, i);
  }

  /** The parent after two neighbours and the key between them have been replaced. */
  lemma {:induction false} ReplacedPair(c: Cell, t: Tree, i: nat, l: Cell, lt: Tree, m: int, r: Cell, rt: Tree)
    returns (c': Cell, t': Tree)
    requires PairReplaced(c, t, i, l, lt, m, r, rt)
    ensures c'.node == c.node && c'.objs == c.objs && Tidy(c')
    ensures t' == Node(t.keys[i := m], t.children[i := lt][i + 1 := rt]) && Holds(c', t')
  {
    c' := Cell(c.node, c.kids[i := l][i + 1 := r], c.objs);
    t' := Node(t.keys[i := m], t.children[i := lt][i + 1 := rt]);
    PairTidy(c, i, l, r);
    assert NodesOf(c'.kids) == NodesOf(c.kids);
    Assemble(c', t');
  }

  /** What the array updates of a borrow from the left mean for the two children. */
  lemma {:induction false} RotatedRight(l: Cell, r: Cell, lt: Tree, rt: Tree, k: int)
    returns (l': Cell, r': Cell, lt': Tree, rt': Tree)
    requires Tidy(l) && Tidy(r) && l.objs !! r.objs && lt.Leaf? == rt.Leaf? && Arity(lt) && Arity(rt)
    requires KidsHold(l, lt) && KidsHold(r, rt) && (lt.Leaf? ==> l.kids == [] && r.kids == [])
    requires l.node.leaf == lt.Leaf? && r.node.leaf == rt.Leaf?
    requires 0 < |lt.keys| == l.node.numKeys + 1 <= MAX_KEYS && r.node.numKeys == |rt.keys| + 1 <= MAX_KEYS
    requires l.node.keys[..l.node.numKeys] == lt.keys[..l.node.numKeys]
    requires r.node.keys[..r.node.numKeys] == [k] + rt.keys
    requires lt.Node? ==> l.node.children[..|l.kids|] == NodesOf(l.kids)
    requires rt.Node? ==> r.node.children[..|r.kids| + 1] == [l.kids[|l.kids| - 1].node] + NodesOf(r.kids)
    ensures lt' == DropLast(lt) && rt' == Prepend(rt, k, lt)
    ensures l'.node == l.node && Tidy(l') && Holds(l', lt')
    ensures r'.node == r.node && Tidy(r') && Holds(r', rt')
    ensures l'.objs !! r'.objs && l'.objs + r'.objs <= l.objs + r.objs
  {
    lt', rt' := DropLast(lt), Prepend(rt, k, lt);
    if lt.Leaf? {
      l', r' := l, r;
      Assemble(l, lt');
      Assemble(r, rt');
    } else {
      var n := |l.kids| - 1;
      l' := MakeCell(l.node, l.kids[0..n]);
      MovedKid(l, n, 0, n);
      KidsPart(l, lt, 0, n);
      assert l.node.children[..n] == l.node.children[..|l.kids|][..n];
      r' := KidInFront(l.kids[n], lt.children[n], r, rt, k);
    }
  }

  /** The children of l from lo to hi, without the child x outside that range. */
  lemma {:induction false} MovedKid(l: Cell, x: nat, lo: nat, hi: nat)
    requires Tidy(l) && x < |l.kids| && lo <= hi <= |l.kids| && !(lo <= x < hi)
    ensures Tidy(MakeCell(l.node, l.kids[lo..hi]))
    ensures MakeCell(l.node, l.kids[lo..hi]).objs <= l.objs
    ensures MakeCell(l.node, l.kids[lo..hi]).objs !! l.kids[x].objs && l.kids[x].objs <= l.objs
    ensures Tidy(l.kids[x])
  {
    PartTidy(l, l.node, lo, hi);
    UnionApart(l.kids[lo..hi], l.kids[x].objs);
  }

  /** A node whose pointers and keys are those of a run of its children holds that part of its tree. */
  lemma {:induction false} KidsPart(l: Cell, lt: Tree, lo: nat, hi: nat)
    requires Tidy(l) && KidsHold(l, lt) && lt.Node? && Arity(lt) && lo < hi <= |l.kids| && hi - lo <= MAX_KEYS + 1
    requires Tidy(MakeCell(l.node, l.kids[lo..hi])) && !l.node.leaf && l.node.numKeys == hi - lo - 1
    requires l.node.keys[..l.node.numKeys] == lt.keys[lo..hi - 1]
    requires l.node.children[..hi - lo] == NodesOf(l.kids)[lo..hi]
    ensures Holds(MakeCell(l.node, l.kids[lo..hi]), Node(lt.keys[lo..hi - 1], lt.children[lo..hi]))
  {
    var l' := MakeCell(l.node, l.kids[lo..hi]);
    assert NodesOf(l'.kids) == NodesOf(l.kids)[lo..hi];
    AllHoldPart(l.kids, lt.children, lo, hi);
    Assemble(l', Node(lt.keys[lo..hi - 1], lt.children[lo..hi]));
  }

  lemma {:induction false} KidInFrontTidy(x: Cell, r: Cell)
    requires Tidy(x) && Tidy(r) && x.objs !! r.objs
    ensures Tidy(MakeCell(r.node, [x] + r.kids))
    ensures MakeCell(r.node, [x] + r.kids).objs <= x.objs + r.objs
  {
    var kids := [x] + r.kids;
    assert forall j :: 0 < j < |kids| ==> kids[j] == r.kids[j - 1];
    MakeTidy(r.node, kids);
    UnionWithin(kids, x.objs + r.objs);
  }

  lemma {:induction false} NodesOfConcat(a: seq<Cell>, b: seq<Cell>)
    ensures NodesOf(a + b) == NodesOf(a) + NodesOf(b)
  {
  }

  lemma {:induction false} KidInFront(x: Cell, xt: Tree, r: Cell, rt: Tree, k: int) returns (r': Cell)
    requires Tidy(x) && Tidy(r) && x.objs !! r.objs && Holds(x, xt) && KidsHold(r, rt) && rt.Node? && Arity(rt)
    requires !r.node.leaf && r.node.numKeys == |rt.keys| + 1 <= MAX_KEYS
    requires r.node.keys[..r.node.numKeys] == [k] + rt.keys
    requires r.node.children[..|r.kids| + 1] == [x.node] + NodesOf(r.kids)
    ensures r'.node == r.node && r'.objs <= x.objs + r.objs && Tidy(r')
    ensures Holds(r', Node([k] + rt.keys, [xt] + rt.children))
  {
    KidInFrontTidy(x, r);
    AllHoldOne(x, xt);
    AllHoldConcat([x], [xt], r.kids, rt.children);
    NodesOfConcat([x], r.kids);
    r' := AssembleNew(r.node, [x] + r.kids, [k] + rt.keys, [xt] + rt.children);
  }

  lemma {:induction false} AssembleNew(n: BTreeNode, kids: seq<Cell>, keys: seq<int>, ts: seq<Tree>) returns (c: Cell)
    requires Tidy(MakeCell(n, kids)) && AllHold(kids, ts) && |kids| <= MAX_KEYS + 1
    requires !n.leaf && n.numKeys == |keys| <= MAX_KEYS && n.keys[..n.numKeys] == keys
    requires n.children[..|kids|] == NodesOf(kids)
    ensures c == MakeCell(n, kids) && Holds(c, Node(keys, ts))
  {
    c := MakeCell(n, kids);
    Assemble(c, Node(keys, ts));
  }

  lemma {:induction false} KidAtEndTidy(l: Cell, x: Cell)
    requires Tidy(l) && Tidy(x) && x.objs !! l.objs
    ensures Tidy(MakeCell(l.node, l.kids + [x]))
    ensures MakeCell(l.node, l.kids + [x]).objs <= x.objs + l.objs
  {
    var kids := l.kids + [x];
    assert forall j :: 0 <= j < |l.kids| ==> kids[j] == l.kids[j];
    MakeTidy(l.node, kids);
    UnionWithin(kids, x.objs + l.objs);
  }

  lemma {:induction false} KidAtEnd(l: Cell, lt: Tree, k: int, x: Cell, xt: Tree) returns (l': Cell)
    requires Tidy(x) && Tidy(l) && x.objs !! l.objs && Holds(x, xt) && KidsHold(l, lt) && lt.Node? && Arity(lt)
    requires !l.node.leaf && l.node.numKeys == |lt.keys| + 1 <= MAX_KEYS
    requires l.node.keys[..l.node.numKeys] == lt.keys + [k]
    requires l.node.children[..|l.kids| + 1] == NodesOf(l.kids) + [x.node]
    ensures l'.node == l.node && l'.objs <= x.objs + l.objs && Tidy(l')
    ensures Holds(l', Node(lt.keys + [k], lt.children + [xt]))
  {
    KidAtEndTidy(l, x);
    AllHoldOne(x, xt);
    AllHoldConcat(l.kids, lt.children, [x], [xt]);
    NodesOfConcat(l.kids, [x]);
    l' := AssembleNew(l.node, l.kids + [x], lt.keys + [k], lt.children + [xt]);
  }

  /** What the array updates of a borrow from the right mean for the two children. */
  lemma {:induction false} RotatedLeft(l: Cell, r: Cell, lt: Tree, rt: Tree, k: int)
    returns (l': Cell, r': Cell, lt': Tree, rt': Tree)
    requires Tidy(l) && Tidy(r) && l.objs !! r.objs && lt.Leaf? == rt.Leaf? && Arity(lt) && Arity(rt)
    requires KidsHold(l, lt) && KidsHold(r, rt) && (lt.Leaf? ==> l.kids == [] && r.kids == [])
    requires l.node.leaf == lt.Leaf? && r.node.leaf == rt.Leaf?
    requires 0 < |rt.keys| == r.node.numKeys + 1 <= MAX_KEYS && l.node.numKeys == |lt.keys| + 1 <= MAX_KEYS
    requires l.node.keys[..l.node.numKeys] == lt.keys + [k]
    requires r.node.keys[..r.node.numKeys] == rt.keys[1..]
    requires lt.Node? ==> l.node.children[..|l.kids| + 1] == NodesOf(l.kids) + [r.kids[0].node]
    requires rt.Node? ==> r.node.children[..|r.kids| - 1] == NodesOf(r.kids)[1..]
    ensures lt' == Append(lt, k, rt) && rt' == DropFirst(rt)
    ensures l'.node == l.node && Tidy(l') && Holds(l', lt')
    ensures r'.node == r.node && Tidy(r') && Holds(r', rt')
    ensures l'.objs !! r'.objs && l'.objs + r'.objs <= l.objs + r.objs
  {
    lt', rt' := Append(lt, k, rt), DropFirst(rt);
    if lt.Leaf? {
      l', r' := l, r;
      Assemble(l, lt');
      Assemble(r, rt');
    } else {
      var n := |r.kids|;
      r' := MakeCell(r.node, r.kids[1..n]);
      MovedKid(r, 0, 1, n);
      assert rt.keys[1..n - 1] == rt.keys[1..] && rt.children[1..n] == rt.children[1..];
      assert NodesOf(r.kids)[1..n] == NodesOf(r.kids)[1..];
      KidsPart(r, rt, 1, n);
      l' := KidAtEnd(l, lt, k, r.kids[0], rt.children[0]);
    }
  }

  lemma {:induction false} JoinedTidy(l: Cell, r: Cell)
    requires Tidy(l) && Tidy(r) && l.objs !! r.objs
    ensures Tidy(MakeCell(l.node, l.kids + r.kids))
    ensures MakeCell(l.node, l.kids + r.kids).objs <= l.objs + r.objs
  {
    var kids := l.kids + r.kids;
    assert forall j :: 0 <= j < |l.kids| ==> kids[j] == l.kids[j];
    assert forall j :: |l.kids| <= j < |kids| ==> kids[j] == r.kids[j - |l.kids|];
    MakeTidy(l.node, kids);
    UnionWithin(kids, l.objs + r.objs);
  }

  /** What the array updates of a merge mean for the child that stays. */
  lemma {:induction false} Joined(l: Cell, r: Cell, lt: Tree, rt: Tree, k: int) returns (j: Cell, jt: Tree)
    requires Tidy(l) && Tidy(r) && l.objs !! r.objs && lt.Leaf? == rt.Leaf? && Arity(lt) && Arity(rt)
    requires KidsHold(l, lt) && KidsHold(r, rt) && (lt.Leaf? ==> l.kids == [] && r.kids == [])
    requires l.node.leaf == lt.Leaf? && l.node.numKeys == |lt.keys| + 1 + |rt.keys| <= MAX_KEYS
    requires l.node.keys[..l.node.numKeys] == lt.keys + [k] + rt.keys
    requires lt.Node? ==> l.node.children[..|l.kids| + |r.kids|] == NodesOf(l.kids) + NodesOf(r.kids)
    ensures jt == Join(lt, k, rt)
    ensures j.node == l.node && j.objs <= l.objs + r.objs && Tidy(j) && Holds(j, jt)
  {
    jt := Join(lt, k, rt);
    if lt.Leaf? {
      j := l;
      Assemble(l, jt);
    } else {
      JoinedTidy(l, r);
      AllHoldConcat(l.kids, lt.children, r.kids, rt.children);
      NodesOfConcat(l.kids, r.kids);
      j := AssembleNew(l.node, l.kids + r.kids, jt.keys, jt.children);
    }
  }

  /** The node of c has lost key i and child i + 1, and j stands in the place of child i. */
  ghost predicate PairJoined(c: Cell, t: Tree, i: nat, j: Cell, jt: Tree)
    reads c.objs, j.objs
  {
    && Tidy(c) && OthersHold(c, t, i) && i < |t.keys| && |t.children| == |t.keys| + 1
    && c.node.numKeys == |t.keys| - 1 <= MAX_KEYS && !c.node.leaf && |t.keys| <= MAX_KEYS
    && c.node.keys[..c.node.numKeys] == t.keys[..i] + t.keys[i + 1..]
    && c.node.children[..|c.kids| - 1] == NodesOf(c.kids)[..i + 1] + NodesOf(c.kids)[i + 2..]
    && j.node == c.kids[i].node && Tidy(j) && Holds(j, jt)
    && j.objs <= c.kids[i].objs + c.kids[i + 1].objs
  }

  lemma {:induction false} CollapsedTidy(c: Cell, i: nat, j: Cell)
    requires Tidy(c) && i + 1 < |c.kids| && Tidy(j) && j.objs <= c.kids[i].objs + c.kids[i + 1].objs
    ensures Tidy(Cell(c.node, c.kids[..i] + [j] + c.kids[i + 2..], c.objs))
  {
    var kids := c.kids[..i] + [j] + c.kids[i + 2..];
    assert kids[i] == j;
    assert forall m :: 0 <= m < i ==> kids[m] == c.kids[m];
    assert forall m :: i < m < |kids| ==> kids[m] == c.kids[m + 1];
  }

  lemma {:induction false} OthersParts(c: Cell, t: Tree, i: nat)
    requires Tidy(c) && OthersHold(c, t, i) && i + 1 < |c.kids|
    ensures AllHold(c.kids[..i], t.children[..i]) && AllHold(c.kids[i + 2..], t.children[i + 2..])
  {
  }

  /** The parent after two neighbours and the key between them have become one child. */
  lemma {:induction false} CollapsedPair(c: Cell, t: Tree, i: nat, j: Cell, jt: Tree) returns (c': Cell, t': Tree)
    requires PairJoined(c, t, i, j, jt)
    ensures c'.node == c.node && c'.objs == c.objs && Tidy(c')
    ensures t' == Node(t.keys[..i] + t.keys[i + 1..], t.children[..i] + [jt] + t.children[i + 2..]) && Holds(c', t')
  {
    var kids := c.kids[..i] + [j] + c.kids[i + 2..];
    c' := Cell(c.node, kids, c.objs);
    t' := Node(t.keys[..i] + t.keys[i + 1..], t.children[..i] + [jt] + t.children[i + 2..]);
    CollapsedTidy(c, i, j);
    OthersParts(c, t, i);
    AllHoldOne(j, jt);
    AllHoldConcat(c.kids[..i], t.children[..i], [j], [jt]);
    AllHoldConcat(c.kids[..i] + [j], t.children[..i] + [jt], c.kids[i + 2..], t.children[i + 2..]);
    CollapsedNodes(c.kids, i, j);
    Assemble(c', t');
  }

  lemma {:induction false} CollapsedNodes(kids: seq<Cell>, i: nat, j: Cell)
    requires i + 1 < |kids| && j.node == kids[i].node
    ensures NodesOf(kids[..i] + [j] + kids[i + 2..]) == NodesOf(kids)[..i + 1] + NodesOf(kids)[i + 2..]
  {
  }
}
