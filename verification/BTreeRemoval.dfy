/**
 Deletion on the nodes in memory: the same nodes and arrays, changed in place, end up holding the
 tree that the deletion on values gives.
 */
module BTreeRemoval {
  import opened BTreeModel
  import opened BTreeRebalance
  import opened BTreeNodes
  import BTreeDelete

  /** The loop that closes the gap of a deleted key. */
  method CloseGap(node: BTreeNode, idx: nat)
    requires FullArrays(node) && idx < node.numKeys <= MAX_KEYS
    modifies node`numKeys, node.keys
    ensures node.numKeys == old(node.numKeys) - 1
    ensures node.keys[..node.numKeys] == old(node.keys[..idx]) + old(node.keys[idx + 1..node.numKeys])
  {
    ShiftLeft(node.keys, idx + 1, node.numKeys);
    node.numKeys := node.numKeys - 1;
  }

  method RemoveFromLeaf(node: BTreeNode, k: int, ghost c: Cell, ghost t: Tree) returns (ghost t': Tree)
    requires node == c.node && Tidy(c) && Holds(c, t) && t.Leaf?
    modifies node`numKeys, node.keys
    ensures t' == Leaf(BTreeDelete.RemoveFromLeaf(t.keys, k)) && Holds(c, t')
  {
    var idx := node.FindKey(k);
    if idx < node.numKeys && node.keys[idx] == k {
      CloseGap(node, idx);
    }
    t' := Leaf(node.keys[..node.numKeys]);
  }

  /** The walk along the last child but one. */
  method GetPred(start: BTreeNode, ghost c: Cell, ghost t: Tree, ghost h: nat) returns (pred: int)
    requires start == c.node && Tidy(c) && Holds(c, t) && NonRoot(t, h)
    ensures pred == PredFrom(t, h)
  {
    var cur := start;
    ghost var cc, ct, ch := c, t, h;
    while !cur.leaf
      invariant cur == cc.node && Tidy(cc) && Holds(cc, ct) && NonRoot(ct, ch) && PredFrom(ct, ch) == PredFrom(t, h)
      decreases ch
    {
      ghost var i := cur.numKeys - 1;
      cur := cur.children[cur.numKeys - 1];
      cc, ct, ch := cc.kids[i], ct.children[i], ch - 1;
    }
    pred := cur.keys[cur.numKeys - 1];
  }

  /** The walk along the first child. */
  method GetSucc(start: BTreeNode, ghost c: Cell, ghost t: Tree, ghost h: nat) returns (succ: int)
    requires start == c.node && Tidy(c) && Holds(c, t) && NonRoot(t, h)
    ensures succ == SuccFrom(t, h)
  {
    var cur := start;
    ghost var cc, ct, ch := c, t, h;
    while !cur.leaf
      invariant cur == cc.node && Tidy(cc) && Holds(cc, ct) && NonRoot(ct, ch) && SuccFrom(ct, ch) == SuccFrom(t, h)
      decreases ch
    {
      cur := cur.children[0];
      cc, ct, ch := cc.kids[0], ct.children[0], ch - 1;
    }
    succ := cur.keys[0];
  }

  method SetKey(node: BTreeNode, i: nat, k: int, ghost c: Cell, ghost t: Tree) returns (ghost t': Tree)
    requires node == c.node && Tidy(c) && Holds(c, t) && t.Node? && i < |t.keys|
    modifies node.keys
    ensures t' == Node(t.keys[i := k], t.children) && Holds(c, t')
  {
    node.keys[i] := k;
    t' := Node(t.keys[i := k], t.children);
    assert forall j :: 0 <= j < |c.kids| ==> Holds(c.kids[j], t.children[j]);
  }

  /** The node itself holds the key: a key from below takes its place, or its two neighbours are merged around it. */
  method PrepareOwn(node: BTreeNode, idx: nat, ghost k: int, ghost c: Cell, ghost t: Tree, ghost h: nat)
    returns (q: nat, key: int, ghost c': Cell, ghost t': Tree)
    requires node == c.node && Tidy(c) && Holds(c, t) && Shape(t, h) && t.Node?
    requires BTreeDelete.HasKey(t, k) && idx == LowerBound(t.keys, k)
    modifies c.objs
    ensures BTreeDelete.Prepare(t, h, k) == BTreeDelete.Descent(t', q, key)
    ensures c'.node == node && c'.objs == c.objs && Tidy(c') && Holds(c', t')
  {
    KidKeys(c, t);
    c' := c;
    if node.children[idx].numKeys >= MIN_DEGREE {
      q := idx;
      key := GetPred(node.children[q], c.kids[q], t.children[q], h - 1);
      t' := SetKey(node, idx, key, c, t);
    } else if node.children[idx + 1].numKeys >= MIN_DEGREE {
      q := idx + 1;
      key := GetSucc(node.children[q], c.kids[q], t.children[q], h - 1);
      t' := SetKey(node, idx, key, c, t);
    } else {
      q, key := idx, node.keys[idx];
      ShapeNeighbours(t, h);
      c', t' := node.Merge(idx, c, t);
    }
  }

  /** The key is below: the child to descend into is refilled if need be. */
  method PrepareOther(node: BTreeNode, idx: nat, ghost k: int, ghost c: Cell, ghost t: Tree, ghost h: nat)
    returns (q: nat, ghost c': Cell, ghost t': Tree)
    requires node == c.node && Tidy(c) && Holds(c, t) && Shape(t, h) && t.Node?
    requires !BTreeDelete.HasKey(t, k) && idx == LowerBound(t.keys, k)
    modifies c.objs
    ensures BTreeDelete.Prepare(t, h, k) == BTreeDelete.Descent(t', q, k)
    ensures c'.node == node && c'.objs == c.objs && Tidy(c') && Holds(c', t')
  {
    KidKeys(c, t);
    c', t' := c, t;
    var flag := idx == node.numKeys;
    if node.children[idx].numKeys < MIN_DEGREE {
      c', t' := node.Fill(idx, c, t, h);
    }
    q := if flag && idx > node.numKeys then idx - 1 else idx;
  }

  method RemoveBelow(node: BTreeNode, q: nat, key: int, ghost c: Cell, ghost t: Tree, ghost h: nat)
    returns (ghost c': Cell, ghost t': Tree)
    requires node == c.node && Tidy(c) && Holds(c, t) && Inner(t, h) && q < |t.children|
    modifies c.objs
    ensures t' == BTreeDelete.WithChild(t, q, BTreeDelete.Remove(t.children[q], h - 1, key))
    ensures c'.node == node && c'.objs == c.objs && Tidy(c') && Holds(c', t')
    decreases h, 0
  {
    ghost var kid, kt := Remove(node.children[q], key, c.kids[q], t.children[q], h - 1);
    c' := Cell(node, c.kids[q := kid], c.objs);
    t' := BTreeDelete.WithChild(t, q, kt);
    ReplaceTidy(c, q, kid);
    assert c.objs + kid.objs == c.objs;
    assert forall j :: 0 <= j < |c.kids| && j != q ==> Holds(c.kids[j], t.children[j]);
    Assemble(c', t');
  }

  method Remove(node: BTreeNode, k: int, ghost c: Cell, ghost t: Tree, ghost h: nat)
    returns (ghost c': Cell, ghost t': Tree)
    requires node == c.node && Tidy(c) && Holds(c, t) && Shape(t, h)
    modifies c.objs
    ensures t' == BTreeDelete.Remove(t, h, k)
    ensures c'.node == node && c'.objs == c.objs && Tidy(c') && Holds(c', t')
    decreases h, 2
  {
    if node.leaf {
      t' := RemoveFromLeaf(node, k, c, t);
      c' := c;
    } else {
      var q, key, c1, t1 := Prepare(node, k, c, t, h);
      BTreeDelete.PrepareShape(t, h, k);
      c', t' := RemoveBelow(node, q, key, c1, t1, h);
    }
  }

  method Prepare(node: BTreeNode, k: int, ghost c: Cell, ghost t: Tree, ghost h: nat)
    returns (q: nat, key: int, ghost c': Cell, ghost t': Tree)
    requires node == c.node && Tidy(c) && Holds(c, t) && Shape(t, h) && t.Node?
    modifies c.objs
    ensures BTreeDelete.Prepare(t, h, k) == BTreeDelete.Descent(t', q, key)
    ensures c'.node == node && c'.objs == c.objs && Tidy(c') && Holds(c', t')
  {
    var idx := node.FindKey(k);
    if idx < node.numKeys && node.keys[idx] == k {
      q, key, c', t' := PrepareOwn(node, idx, k, c, t, h);
    } else {
      key := k;
      q, c', t' := PrepareOther(node, idx, k, c, t, h);
    }
  }
}
