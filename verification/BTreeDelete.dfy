/**
 Deletion from a B-tree, as values. Of the whole deletion it is proved that it takes out exactly
 one occurrence of the key and keeps the shape; that it keeps the order is true exactly when the
 walk for a predecessor always ends at the largest key below the child it starts from.
 */
module BTreeDelete {
  import opened BTreeModel
  import opened BTreeRebalance

  function WithChild(t: Tree, q: nat, c: Tree): Tree
    requires t.Node? && q < |t.children|
  {
    Node(t.keys, t.children[q := c])
  }

  /** A node made ready for the descent, the child to descend into, and the key to delete there. */
  datatype Descent = Descent(node: Tree, child: nat, key: int)

  predicate HasKey(t: Tree, k: int) {
    LowerBound(t.keys, k) < |t.keys| && t.keys[LowerBound(t.keys, k)] == k
  }

  function Prepare(t: Tree, h: nat, k: int): Descent
    requires Shape(t, h) && t.Node?
  {
    var idx := LowerBound(t.keys, k);
    ShapeNeighbours(t, h);
    if HasKey(t, k) then
      if |t.children[idx].keys| >= MIN_DEGREE then
        var pred := PredFrom(t.children[idx], h - 1);
        Descent(Node(t.keys[idx := pred], t.children), idx, pred)
      else if |t.children[idx + 1].keys| >= MIN_DEGREE then
        var succ := SuccFrom(t.children[idx + 1], h - 1);
        Descent(Node(t.keys[idx := succ], t.children), idx + 1, succ)
      else
        assert Neighbours(t, idx);
        Descent(Merge(t, idx), idx, k)
    else if |t.children[idx].keys| < MIN_DEGREE then Descent(Fill(t, idx), DescendTo(t, idx), k)
    else Descent(t, idx, k)
  }

  /** Whatever is done to the node, it stays one, and the child has a key to spare. */
  lemma {:induction false} PrepareShape(t: Tree, h: nat, k: int)
    requires Shape(t, h) && t.Node?
    ensures var d := Prepare(t, h, k);
            && Inner(d.node, h) && |t.keys| - 1 <= |d.node.keys| <= |t.keys|
            && d.child < |d.node.children| && |d.node.children[d.child].keys| >= MIN_DEGREE
  {
    var idx := LowerBound(t.keys, k);
    ShapeNeighbours(t, h);
    if HasKey(t, k) {
      if |t.children[idx].keys| < MIN_DEGREE && |t.children[idx + 1].keys| < MIN_DEGREE {
        assert Neighbours(t, idx);
        MergeShape(t, h, idx);
      }
    } else if |t.children[idx].keys| < MIN_DEGREE {
      FillShape(t, h, idx);
    }
  }

  function RemoveFromLeaf(keys: seq<int>, k: int): seq<int> {
    var idx := LowerBound(keys, k);
    if idx < |keys| && keys[idx] == k then keys[..idx] + keys[idx + 1..] else keys
  }

  function Remove(t: Tree, h: nat, k: int): Tree
    requires Shape(t, h)
    decreases h
  {
    if t.Leaf? then Leaf(RemoveFromLeaf(t.keys, k))
    else
      PrepareShape(t, h, k);
      var d := Prepare(t, h, k);
      WithChild(d.node, d.child, Remove(d.node.children[d.child], h - 1, d.key))
  }

  // ----- the shape -----

  /** A proper tree of height h, except that an internal root may be left without keys. */
  predicate Shrunk(t: Tree, h: nat) {
    if h == 0 then Shape(t, 0) else Inner(t, h)
  }

  /** Deletion keeps all leaves at one depth and every other node's bounds; the node itself loses at most one key. */
  lemma {:induction false} RemoveShape(t: Tree, h: nat, k: int)
    requires Shape(t, h)
    ensures Shrunk(Remove(t, h, k), h) && |t.keys| - 1 <= |Remove(t, h, k).keys| <= |t.keys|
    decreases h
  {
    if t.Leaf? {
    } else {
      PrepareShape(t, h, k);
      var d := Prepare(t, h, k);
      var c := d.node.children[d.child];
      RemoveShape(c, h - 1, d.key);
      StillNonRoot(Remove(c, h - 1, d.key), h - 1);
    }
  }

  lemma {:induction false} StillNonRoot(t: Tree, h: nat)
    requires Shrunk(t, h) && |t.keys| >= MIN_DEGREE - 1
    ensures NonRoot(t, h)
  {
  }

  // ----- the keys -----

  lemma {:induction false} ReplaceInOrder(t: Tree, q: nat, c: Tree)
    requires t.Node? && Arity(t) && q < |t.children|
    ensures InOrder(WithChild(t, q, c)) == Before(t.keys, t.children, q) + InOrder(c) + After(t.keys, t.children, q)
    ensures InOrder(t) == Before(t.keys, t.children, q) + InOrder(t.children[q]) + After(t.keys, t.children, q)
  {
    var cs := t.children[q := c];
    Around(t.keys, t.children, q);
    Around(t.keys, cs, q);
    BeforeSame(t.keys, t.children, t.keys, cs, q);
    assert cs[q + 1..] == t.children[q + 1..];
    AfterSame(t.keys, t.children, q, t.keys, cs, q);
  }

  lemma {:induction false} ReplaceKeyInOrder(t: Tree, i: nat, m: int)
    requires t.Node? && Arity(t) && i < |t.keys|
    ensures InOrder(Node(t.keys[i := m], t.children)) ==
            Before(t.keys, t.children, i) + (InOrder(t.children[i]) + [m] + InOrder(t.children[i + 1])) +
            After(t.keys, t.children, i + 1)
  {
    var ks := t.keys[i := m];
    AroundPair(ks, t.children, i);
    BeforeSame(t.keys, t.children, ks, t.children, i);
    assert ks[i + 1..] == t.keys[i + 1..];
    AfterSame(t.keys, t.children, i + 1, ks, t.children, i + 1);
  }

  /** A key of the node itself is replaced by one from below, which is then deleted there. */
  predicate Moves(t: Tree, h: nat, k: int)
    requires Shape(t, h) && t.Node?
  {
    HasKey(t, k) &&
    (|t.children[LowerBound(t.keys, k)].keys| >= MIN_DEGREE ||
     |t.children[LowerBound(t.keys, k) + 1].keys| >= MIN_DEGREE)
  }

  lemma {:induction false} SwapKey(b: seq<int>, l: seq<int>, m: int, r: seq<int>, a: seq<int>, k: int)
    ensures multiset(b + (l + [m] + r) + a) + multiset{k} == multiset(b + (l + [k] + r) + a) + multiset{m}
  {
  }

  lemma {:induction false} KeySwapped(t: Tree, i: nat, m: int)
    requires t.Node? && Arity(t) && i < |t.keys|
    ensures multiset(InOrder(Node(t.keys[i := m], t.children))) + multiset{t.keys[i]} ==
            multiset(InOrder(t)) + multiset{m}
  {
    AroundPair(t.keys, t.children, i);
    ReplaceKeyInOrder(t, i, m);
    SwapKey(Before(t.keys, t.children, i), InOrder(t.children[i]), m, InOrder(t.children[i + 1]),
            After(t.keys, t.children, i + 1), t.keys[i]);
  }

  lemma {:induction false} MovesTo(t: Tree, h: nat, k: int) returns (q: nat, m: int)
    requires Shape(t, h) && t.Node? && Moves(t, h, k)
    ensures q < |t.children| && m in InOrder(t.children[q])
    ensures Prepare(t, h, k) == Descent(Node(t.keys[LowerBound(t.keys, k) := m], t.children), q, m)
  {
    var idx := LowerBound(t.keys, k);
    if |t.children[idx].keys| >= MIN_DEGREE {
      q, m := idx, PredFrom(t.children[idx], h - 1);
      PredFromInOrder(t.children[idx], h - 1);
    } else {
      q, m := idx + 1, SuccFrom(t.children[idx + 1], h - 1);
      SuccFromIsFirst(t.children[idx + 1], h - 1);
    }
  }

  lemma {:induction false} MovedKeys(t: Tree, h: nat, k: int)
    requires Shape(t, h) && t.Node? && Moves(t, h, k)
    ensures var d := Prepare(t, h, k);
            && d.child < |t.children| && d.node.children == t.children && d.key in InOrder(t.children[d.child])
            && multiset(InOrder(d.node)) + multiset{k} == multiset(InOrder(t)) + multiset{d.key}
  {
    var q, m := MovesTo(t, h, k);
    KeySwapped(t, LowerBound(t.keys, k), m);
  }

  lemma {:induction false} UnmovedKeys(t: Tree, h: nat, k: int)
    requires Shape(t, h) && t.Node? && !Moves(t, h, k) && Sorted(InOrder(t))
    ensures var d := Prepare(t, h, k);
            && InOrder(d.node) == InOrder(t) && d.key == k && d.child < |d.node.children|
            && (k in InOrder(t) <==> k in InOrder(d.node.children[d.child]))
  {
    var d, idx := Prepare(t, h, k), LowerBound(t.keys, k);
    PrepareShape(t, h, k);
    ShapeNeighbours(t, h);
    if HasKey(t, k) {
      assert Neighbours(t, idx);
      MergeInOrder(t, idx);
      KeyInOrder(t, h, idx);
      JoinInOrder(t.children[idx], k, t.children[idx + 1]);
      assert d.node.children[idx] == Join(t.children[idx], k, t.children[idx + 1]);
    } else if |t.children[idx].keys| < MIN_DEGREE {
      FillInOrder(t, idx);
      FillKeepsKeyReachable(t, h, idx, k);
    } else {
      OnlyInChild(t, idx, k);
    }
  }

  lemma {:induction false} Without(p: seq<int>, k: int, q: seq<int>)
    requires Sorted(p + [k] + q)
    ensures Sorted(p + q) && multiset(p + q) == multiset(p + [k] + q) - multiset{k}
  {
    SortedParts(p, [k], q);
    SortedConcat(p, q);
  }

  lemma {:induction false} AbsentKey(keys: seq<int>, k: int)
    requires Sorted(keys) && !(LowerBound(keys, k) < |keys| && keys[LowerBound(keys, k)] == k)
    ensures k !in keys
  {
    var idx := LowerBound(keys, k);
    forall j | 0 <= j < |keys| ensures keys[j] != k {
      if idx < j {
        assert keys[idx] <= keys[j];
      }
    }
  }

  lemma {:induction false} DropAt(keys: seq<int>, idx: nat)
    requires idx < |keys| && Sorted(keys)
    ensures var r := keys[..idx] + keys[idx + 1..];
            Sorted(r) && multiset(r) == multiset(keys) - multiset{keys[idx]}
  {
    assert keys == keys[..idx] + [keys[idx]] + keys[idx + 1..];
    Without(keys[..idx], keys[idx], keys[idx + 1..]);
  }

  lemma {:induction false} LeafKeys(keys: seq<int>, k: int)
    requires Sorted(keys)
    ensures multiset(RemoveFromLeaf(keys, k)) == multiset(keys) - multiset{k} && Sorted(RemoveFromLeaf(keys, k))
  {
    var idx := LowerBound(keys, k);
    if idx < |keys| && keys[idx] == k {
      DropAt(keys, idx);
    } else {
      AbsentKey(keys, k);
      assert k !in multiset(keys);
    }
  }

  lemma {:induction false} PartSorted(t: Tree, q: nat)
    requires t.Node? && Arity(t) && q < |t.children| && Sorted(InOrder(t))
    ensures Sorted(InOrder(t.children[q]))
  {
    Around(t.keys, t.children, q);
    SortedParts(Before(t.keys, t.children, q), InOrder(t.children[q]), After(t.keys, t.children, q));
  }

  lemma {:induction false} ChildToDescendSorted(t: Tree, h: nat, k: int)
    requires Shape(t, h) && t.Node? && Sorted(InOrder(t))
    ensures var d := Prepare(t, h, k); d.child < |d.node.children| && Sorted(InOrder(d.node.children[d.child]))
  {
    PrepareShape(t, h, k);
    if Moves(t, h, k) {
      MovedKeys(t, h, k);
      PartSorted(t, Prepare(t, h, k).child);
    } else {
      UnmovedKeys(t, h, k);
      PartSorted(Prepare(t, h, k).node, Prepare(t, h, k).child);
    }
  }

  lemma {:induction false} TakenFromMiddle(b: seq<int>, m: seq<int>, m': seq<int>, a: seq<int>, x: int)
    requires multiset(m') == multiset(m) - multiset{x} && x in m
    ensures multiset(b + m' + a) + multiset{x} == multiset(b + m + a)
  {
    assert x in multiset(m);
  }

  lemma {:induction false} NothingTaken(b: seq<int>, m: seq<int>, m': seq<int>, a: seq<int>, x: int)
    requires multiset(m') == multiset(m) - multiset{x} && x !in m
    ensures multiset(b + m' + a) == multiset(b + m + a)
  {
    assert x !in multiset(m);
    assert multiset(m') == multiset(m);
  }

  lemma {:induction false} CancelAdded(m: multiset<int>, n: multiset<int>, k: int)
    requires m + multiset{k} == n
    ensures m == n - multiset{k}
  {
  }

  lemma {:induction false} CancelSwapped(m: multiset<int>, n: multiset<int>, t: multiset<int>, k: int, x: int)
    requires m + multiset{x} == n && n + multiset{k} == t + multiset{x}
    ensures m + multiset{k} == t
  {
    forall y ensures (m + multiset{k})[y] == t[y] {
      assert (m + multiset{x})[y] == n[y];
      assert (n + multiset{k})[y] == (t + multiset{x})[y];
    }
  }

  /** Deletion takes out one occurrence of the key and nothing else; of an absent key it changes nothing. */
  lemma {:induction false} RemoveKeys(t: Tree, h: nat, k: int)
    requires Shape(t, h) && Sorted(InOrder(t))
    ensures multiset(InOrder(Remove(t, h, k))) == multiset(InOrder(t)) - multiset{k}
    decreases h
  {
    if t.Leaf? {
      LeafKeys(t.keys, k);
    } else {
      PrepareShape(t, h, k);
      ChildToDescendSorted(t, h, k);
      var d := Prepare(t, h, k);
      var c := d.node.children[d.child];
      RemoveKeys(c, h - 1, d.key);
      RemovedBelow(t, h, k, Remove(c, h - 1, d.key));
    }
  }

  lemma {:induction false} TakenBelow(n: Tree, q: nat, c': Tree, x: int)
    requires n.Node? && Arity(n) && q < |n.children| && x in InOrder(n.children[q])
    requires multiset(InOrder(c')) == multiset(InOrder(n.children[q])) - multiset{x}
    ensures multiset(InOrder(WithChild(n, q, c'))) + multiset{x} == multiset(InOrder(n))
  {
    ReplaceInOrder(n, q, c');
    TakenFromMiddle(Before(n.keys, n.children, q), InOrder(n.children[q]), InOrder(c'), After(n.keys, n.children, q),
                    x);
  }

  lemma {:induction false} NothingTakenBelow(n: Tree, q: nat, c': Tree, x: int)
    requires n.Node? && Arity(n) && q < |n.children| && x !in InOrder(n.children[q])
    requires multiset(InOrder(c')) == multiset(InOrder(n.children[q])) - multiset{x}
    ensures multiset(InOrder(WithChild(n, q, c'))) == multiset(InOrder(n))
  {
    ReplaceInOrder(n, q, c');
    NothingTaken(Before(n.keys, n.children, q), InOrder(n.children[q]), InOrder(c'), After(n.keys, n.children, q), x);
  }

  lemma {:induction false} AbsentUnchanged(s: seq<int>, k: int)
    requires k !in s
    ensures multiset(s) - multiset{k} == multiset(s)
  {
    assert k !in multiset(s);
  }

  lemma {:induction false} RemovedBelow(t: Tree, h: nat, k: int, c': Tree)
    requires Shape(t, h) && t.Node? && Sorted(InOrder(t))
    requires var d := Prepare(t, h, k);
             && d.node.Node? && Arity(d.node) && d.child < |d.node.children|
             && multiset(InOrder(c')) == multiset(InOrder(d.node.children[d.child])) - multiset{d.key}
    ensures var d := Prepare(t, h, k);
            multiset(InOrder(WithChild(d.node, d.child, c'))) == multiset(InOrder(t)) - multiset{k}
  {
    var d := Prepare(t, h, k);
    var r := multiset(InOrder(WithChild(d.node, d.child, c')));
    if Moves(t, h, k) {
      MovedKeys(t, h, k);
      TakenBelow(d.node, d.child, c', d.key);
      CancelSwapped(r, multiset(InOrder(d.node)), multiset(InOrder(t)), k, d.key);
      CancelAdded(r, multiset(InOrder(t)), k);
    } else {
      UnmovedKeys(t, h, k);
      if k in InOrder(d.node.children[d.child]) {
        TakenBelow(d.node, d.child, c', k);
        CancelAdded(r, multiset(InOrder(t)), k);
      } else {
        NothingTakenBelow(d.node, d.child, c', k);
        AbsentUnchanged(InOrder(t), k);
      }
    }
  }

  // ----- the order -----

  /** The deletion of k puts in its place a key that is not the largest below the child in front of it. */
  predicate MissesPredecessor(t: Tree, h: nat, k: int)
    requires Shape(t, h) && t.Node?
  {
    var idx := LowerBound(t.keys, k);
    HasKey(t, k) && |t.children[idx].keys| >= MIN_DEGREE && !FindsLast(t.children[idx], h - 1)
  }

  /** Nowhere on its way down does the deletion miss a predecessor. */
  predicate Orderly(t: Tree, h: nat, k: int)
    requires Shape(t, h)
    decreases h
  {
    if t.Leaf? then true
    else
      PrepareShape(t, h, k);
      var d := Prepare(t, h, k);
      !MissesPredecessor(t, h, k) && Orderly(d.node.children[d.child], h - 1, d.key)
  }

  lemma {:induction false} ReplaceSorted(t: Tree, q: nat, c: Tree)
    requires t.Node? && Arity(t) && q < |t.children| && Sorted(InOrder(t)) && Sorted(InOrder(c))
    requires forall x :: x in InOrder(c) ==> x in InOrder(t.children[q])
    ensures Sorted(InOrder(WithChild(t, q, c)))
  {
    var b, a := Before(t.keys, t.children, q), After(t.keys, t.children, q);
    ReplaceInOrder(t, q, c);
    SortedParts(b, InOrder(t.children[q]), a);
    SortedParts(b, InOrder(c), a);
  }

  lemma {:induction false} UpKeySorted(b: seq<int>, l: seq<int>, m: int, r: seq<int>, a: seq<int>, x: int)
    requires Sorted(b + (l + [m] + r) + a)
    requires (x in l && Below(l, [x])) || (x in r && Below([x], r))
    ensures Sorted(b + (l + [x] + r) + a)
  {
    SortedParts(b, l + [m] + r, a);
    SortedParts(l, [m], r);
    assert m in [m] && x in [x];
    SortedParts(l, [x], r);
    assert forall y :: y in l + [m] + r <==> y in l || y == m || y in r;
    assert forall y :: y in l + [x] + r <==> y in l || y == x || y in r;
    SortedParts(b, l + [x] + r, a);
  }

  lemma {:induction false} UpKeyInNode(t: Tree, i: nat, x: int)
    requires t.Node? && Arity(t) && i < |t.keys| && Sorted(InOrder(t))
    requires var l, r := InOrder(t.children[i]), InOrder(t.children[i + 1]);
             (x in l && Below(l, [x])) || (x in r && Below([x], r))
    ensures Sorted(InOrder(Node(t.keys[i := x], t.children)))
  {
    AroundPair(t.keys, t.children, i);
    ReplaceKeyInOrder(t, i, x);
    UpKeySorted(Before(t.keys, t.children, i), InOrder(t.children[i]), t.keys[i], InOrder(t.children[i + 1]),
                After(t.keys, t.children, i + 1), x);
  }

  lemma {:induction false} LastIsAbove(s: seq<int>)
    requires Sorted(s) && s != []
    ensures s[|s| - 1] in s && Below(s, [s[|s| - 1]]) && s[0] in s && Below([s[0]], s)
  {
    SortedBounds(s, s[|s| - 1]);
    SortedBounds(s, s[0]);
  }

  lemma {:induction false} UpPredecessor(t: Tree, h: nat, i: nat)
    requires Shape(t, h) && t.Node? && i < |t.keys| && FindsLast(t.children[i], h - 1) && Sorted(InOrder(t))
    ensures Sorted(InOrder(Node(t.keys[i := PredFrom(t.children[i], h - 1)], t.children)))
  {
    PartSorted(t, i);
    LastIsAbove(InOrder(t.children[i]));
    UpKeyInNode(t, i, PredFrom(t.children[i], h - 1));
  }

  lemma {:induction false} UpSuccessor(t: Tree, h: nat, i: nat)
    requires Shape(t, h) && t.Node? && i < |t.keys| && Sorted(InOrder(t))
    ensures Sorted(InOrder(Node(t.keys[i := SuccFrom(t.children[i + 1], h - 1)], t.children)))
  {
    PartSorted(t, i + 1);
    SuccFromIsFirst(t.children[i + 1], h - 1);
    LastIsAbove(InOrder(t.children[i + 1]));
    UpKeyInNode(t, i, SuccFrom(t.children[i + 1], h - 1));
  }

  lemma {:induction false} MovedSorted(t: Tree, h: nat, k: int)
    requires Shape(t, h) && t.Node? && Moves(t, h, k) && !MissesPredecessor(t, h, k) && Sorted(InOrder(t))
    ensures Sorted(InOrder(Prepare(t, h, k).node))
  {
    var idx := LowerBound(t.keys, k);
    if |t.children[idx].keys| >= MIN_DEGREE {
      UpPredecessor(t, h, idx);
    } else {
      UpSuccessor(t, h, idx);
    }
  }

  lemma {:induction false} StillElements(s: seq<int>, s': seq<int>, k: int)
    requires multiset(s') == multiset(s) - multiset{k}
    ensures forall x :: x in s' ==> x in s
  {
    forall x | x in s' ensures x in s {
      assert x in multiset(s');
      assert x in multiset(s);
    }
  }

  lemma {:induction false} OrderedBelow(t: Tree, h: nat, k: int, c': Tree)
    requires Shape(t, h) && t.Node? && Sorted(InOrder(t)) && !MissesPredecessor(t, h, k) && Sorted(InOrder(c'))
    requires var d := Prepare(t, h, k);
             && d.node.Node? && Arity(d.node) && d.child < |d.node.children|
             && forall x :: x in InOrder(c') ==> x in InOrder(d.node.children[d.child])
    ensures var d := Prepare(t, h, k); Sorted(InOrder(WithChild(d.node, d.child, c')))
  {
    if Moves(t, h, k) {
      MovedSorted(t, h, k);
    } else {
      UnmovedKeys(t, h, k);
    }
    ReplaceSorted(Prepare(t, h, k).node, Prepare(t, h, k).child, c');
  }

  lemma {:induction false} OrderlyKeepsOrder(t: Tree, h: nat, k: int)
    requires Shape(t, h) && Sorted(InOrder(t)) && Orderly(t, h, k)
    ensures Sorted(InOrder(Remove(t, h, k)))
    decreases h
  {
    if t.Leaf? {
      LeafKeys(t.keys, k);
    } else {
      PrepareShape(t, h, k);
      ChildToDescendSorted(t, h, k);
      var d := Prepare(t, h, k);
      var c := d.node.children[d.child];
      OrderlyKeepsOrder(c, h - 1, d.key);
      RemoveKeys(c, h - 1, d.key);
      StillElements(InOrder(c), InOrder(Remove(c, h - 1, d.key)), d.key);
      OrderedBelow(t, h, k, Remove(c, h - 1, d.key));
    }
  }

  /** What is out of order below is out of order in the whole. */
  lemma {:induction false} UnsortedBelow(t: Tree, q: nat, c: Tree)
    requires t.Node? && Arity(t) && q < |t.children| && !Sorted(InOrder(c))
    ensures !Sorted(InOrder(WithChild(t, q, c)))
  {
    ReplaceInOrder(t, q, c);
    SortedParts(Before(t.keys, t.children, q), InOrder(c), After(t.keys, t.children, q));
  }

  lemma {:induction false} LargerRemains(s: seq<int>, s': seq<int>, x: int) returns (last: int)
    requires Sorted(s) && x in s && x != s[|s| - 1] && multiset(s') == multiset(s) - multiset{x}
    ensures last in s' && x < last
  {
    last := s[|s| - 1];
    LastIsAbove(s);
    assert last in multiset(s) && last in [last];
    assert last in multiset(s');
  }

  /** The key found by the walk is not the last one, which stays behind in front of it. */
  lemma {:induction false} LeftBehind(c: Tree, h: nat, c': Tree) returns (last: int)
    requires NonRoot(c, h) && Sorted(InOrder(c)) && !FindsLast(c, h)
    requires multiset(InOrder(c')) == multiset(InOrder(c)) - multiset{PredFrom(c, h)}
    ensures last in InOrder(c') && PredFrom(c, h) < last
  {
    PredFromInOrder(c, h);
    last := LargerRemains(InOrder(c), InOrder(c'), PredFrom(c, h));
  }

  lemma {:induction false} MissBreaksOrder(t: Tree, h: nat, k: int, c': Tree)
    requires Shape(t, h) && t.Node? && Sorted(InOrder(t)) && MissesPredecessor(t, h, k)
    requires var d := Prepare(t, h, k);
             && d.node.Node? && Arity(d.node) && d.child < |d.node.children|
             && multiset(InOrder(c')) == multiset(InOrder(d.node.children[d.child])) - multiset{d.key}
    ensures var d := Prepare(t, h, k); !Sorted(InOrder(WithChild(d.node, d.child, c')))
  {
    var d, idx := Prepare(t, h, k), LowerBound(t.keys, k);
    PartSorted(t, idx);
    var last := LeftBehind(t.children[idx], h - 1, c');
    ReplaceInOrder(d.node, idx, c');
    var a := After(d.node.keys, d.node.children, idx);
    assert a[0] == d.key && a[0] in a;
    SortedParts(Before(d.node.keys, d.node.children, idx), InOrder(c'), a);
  }

  lemma {:induction false} MissHere(t: Tree, h: nat, k: int)
    requires Shape(t, h) && t.Node? && Sorted(InOrder(t)) && MissesPredecessor(t, h, k)
    ensures !Sorted(InOrder(Remove(t, h, k)))
  {
    PrepareShape(t, h, k);
    ChildToDescendSorted(t, h, k);
    var d := Prepare(t, h, k);
    var c := d.node.children[d.child];
    RemoveKeys(c, h - 1, d.key);
    MissBreaksOrder(t, h, k, Remove(c, h - 1, d.key));
  }

  lemma {:induction false} DisorderlyBreaksOrder(t: Tree, h: nat, k: int)
    requires Shape(t, h) && Sorted(InOrder(t)) && !Orderly(t, h, k)
    ensures !Sorted(InOrder(Remove(t, h, k)))
    decreases h
  {
    if MissesPredecessor(t, h, k) {
      MissHere(t, h, k);
    } else {
      PrepareShape(t, h, k);
      ChildToDescendSorted(t, h, k);
      var d := Prepare(t, h, k);
      var c := d.node.children[d.child];
      DisorderlyBreaksOrder(c, h - 1, d.key);
      UnsortedBelow(d.node, d.child, Remove(c, h - 1, d.key));
    }
  }

  /** Deletion keeps the order exactly when it never misses a predecessor. */
  lemma {:induction false} RemoveKeepsOrderIff(t: Tree, h: nat, k: int)
    requires Shape(t, h) && Sorted(InOrder(t))
    ensures Sorted(InOrder(Remove(t, h, k))) <==> Orderly(t, h, k)
  {
    if Orderly(t, h, k) {
      OrderlyKeepsOrder(t, h, k);
    } else {
      DisorderlyBreaksOrder(t, h, k);
    }
  }

  /** In trees of one or two levels there is nothing to miss. */
  lemma {:induction false} LowTreesAreOrderly(t: Tree, h: nat, k: int)
    requires Shape(t, h) && h <= 1
    ensures Orderly(t, h, k)
  {
    if t.Node? {
      PrepareShape(t, h, k);
    }
  }

  // ----- keys without repetitions -----

  lemma {:induction false} AscendingParts(a: seq<int>, m: seq<int>, b: seq<int>)
    requires Ascending(a + m + b)
    ensures Ascending(m) && Sorted(a + m + b)
  {
    var s := a + m + b;
    assert forall i :: 0 <= i < |m| ==> m[i] == s[|a| + i];
  }

  lemma {:induction false} PartAscending(t: Tree, q: nat)
    requires t.Node? && Arity(t) && q < |t.children| && Ascending(InOrder(t))
    ensures Ascending(InOrder(t.children[q]))
  {
    Around(t.keys, t.children, q);
    AscendingParts(Before(t.keys, t.children, q), InOrder(t.children[q]), After(t.keys, t.children, q));
  }

  lemma {:induction false} ChildToDescendAscending(t: Tree, h: nat, k: int)
    requires Shape(t, h) && t.Node? && Ascending(InOrder(t))
    ensures var d := Prepare(t, h, k); d.child < |d.node.children| && Ascending(InOrder(d.node.children[d.child]))
  {
    PrepareShape(t, h, k);
    if Moves(t, h, k) {
      MovedKeys(t, h, k);
      PartAscending(t, Prepare(t, h, k).child);
    } else {
      UnmovedKeys(t, h, k);
      PartAscending(Prepare(t, h, k).node, Prepare(t, h, k).child);
    }
  }

  /** The deletion of k looks for a predecessor below a child that is not a leaf. */
  predicate LooksDeep(t: Tree, h: nat, k: int)
    requires Shape(t, h) && t.Node?
  {
    h >= 2 && HasKey(t, k) && |t.children[LowerBound(t.keys, k)].keys| >= MIN_DEGREE
  }

  /** Nowhere on its way down does the deletion look for a predecessor below a child that is not a leaf. */
  predicate Shallow(t: Tree, h: nat, k: int)
    requires Shape(t, h)
    decreases h
  {
    if t.Leaf? then true
    else
      PrepareShape(t, h, k);
      var d := Prepare(t, h, k);
      !LooksDeep(t, h, k) && Shallow(d.node.children[d.child], h - 1, d.key)
  }

  lemma {:induction false} MissesIffLooksDeep(t: Tree, h: nat, k: int)
    requires Shape(t, h) && t.Node? && Ascending(InOrder(t))
    ensures MissesPredecessor(t, h, k) <==> LooksDeep(t, h, k)
  {
    if HasKey(t, k) {
      PartAscending(t, LowerBound(t.keys, k));
      PredFromIsLastIffLeaf(t.children[LowerBound(t.keys, k)], h - 1);
    }
  }

  lemma {:induction false} OrderlyIffShallow(t: Tree, h: nat, k: int)
    requires Shape(t, h) && Ascending(InOrder(t))
    ensures Orderly(t, h, k) <==> Shallow(t, h, k)
    decreases h
  {
    if t.Leaf? {
    } else {
      MissesIffLooksDeep(t, h, k);
      PrepareShape(t, h, k);
      ChildToDescendAscending(t, h, k);
      var d := Prepare(t, h, k);
      OrderlyIffShallow(d.node.children[d.child], h - 1, d.key);
    }
  }

  /**
   On keys without repetitions, order is kept exactly when no predecessor is looked for below a child
   with children.
   */
  lemma {:induction false} RemoveKeepsDistinctOrderIff(t: Tree, h: nat, k: int)
    requires Shape(t, h) && Ascending(InOrder(t))
    ensures Sorted(InOrder(Remove(t, h, k))) <==> Shallow(t, h, k)
  {
    OrderlyIffShallow(t, h, k);
    RemoveKeepsOrderIff(t, h, k);
  }

  // ----- a deletion that breaks the order -----

  /** In a tree of three levels or more, deleting the first key of a root whose first child has keys to spare. */
  lemma {:induction false} FirstKeyBreaksOrder(t: Tree, h: nat)
    requires Shape(t, h) && h >= 2 && Ascending(InOrder(t)) && |t.children[0].keys| >= MIN_DEGREE
    ensures !Sorted(InOrder(Remove(t, h, t.keys[0])))
  {
    assert LowerBound(t.keys, t.keys[0]) == 0;
    MissesIffLooksDeep(t, h, t.keys[0]);
    MissHere(t, h, t.keys[0]);
  }

  function Pair(n: int): Tree {
    Leaf([n, n + 1])
  }

  function UpFrom(n: int, count: nat): seq<int> {
    seq(count, i => n + i)
  }

  lemma {:induction false} PairsInOrder(n: int)
    ensures InOrder(Node([n + 2, n + 5], [Pair(n), Pair(n + 3), Pair(n + 6)])) == UpFrom(n, 8)
    ensures InOrder(Node([n + 2, n + 5, n + 8], [Pair(n), Pair(n + 3), Pair(n + 6), Pair(n + 9)])) == UpFrom(n, 11)
  {
    var ks, cs := [n + 2, n + 5], [Pair(n), Pair(n + 3), Pair(n + 6)];
    assert Before(ks, cs, 1) == UpFrom(n, 3);
    assert Before(ks, cs, 2) == UpFrom(n, 6);
    var ks', cs' := [n + 2, n + 5, n + 8], [Pair(n), Pair(n + 3), Pair(n + 6), Pair(n + 9)];
    assert Before(ks', cs', 1) == UpFrom(n, 3);
    assert Before(ks', cs', 2) == UpFrom(n, 6);
    assert Before(ks', cs', 3) == UpFrom(n, 9);
  }

  function Sample(): Tree {
    Node([11], [Node([2, 5, 8], [Pair(0), Pair(3), Pair(6), Pair(9)]), Node([14, 17], [Pair(12), Pair(15), Pair(18)])])
  }

  lemma {:induction false} SampleInOrder()
    ensures Ascending(InOrder(Sample()))
  {
    var t := Sample();
    PairsInOrder(0);
    PairsInOrder(12);
    assert Before(t.keys, t.children, 1) == UpFrom(0, 11) + [11];
    assert InOrder(t) == UpFrom(0, 11) + [11] + UpFrom(12, 8);
    assert UpFrom(0, 11) + [11] + UpFrom(12, 8) == UpFrom(0, 20);
  }

  lemma {:induction false} SampleShape()
    ensures Shape(Sample(), 2)
  {
    var t := Sample();
    assert Shape(t.children[0], 1);
    assert Shape(t.children[1], 1);
  }

  lemma {:induction false} DeletionCanBreakOrder()
    ensures Shape(Sample(), 2) && Ascending(InOrder(Sample())) && !Sorted(InOrder(Remove(Sample(), 2, 11)))
  {
    SampleShape();
    SampleInOrder();
    FirstKeyBreaksOrder(Sample(), 2);
  }
}
