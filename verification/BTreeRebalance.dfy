/**
 Refilling a child of a B-tree node before a deletion descends into it: borrowing a key from
 a neighbour through the parent, or merging with a neighbour. The source keeps these helpers
 in a second node class with the same layout as the index's own.
 */
module BTreeRebalance {
  import opened BTreeModel

  /** A node's keys and children agree in number, whatever their number is. */
  predicate Arity(t: Tree) {
    t.Node? ==> |t.children| == |t.keys| + 1
  }

  /** An internal node whose children are all proper nodes of height h - 1; it may have lost its last key. */
  predicate Inner(t: Tree, h: nat) {
    && t.Node? && h > 0 && |t.keys| <= MAX_KEYS && Arity(t)
    && forall i :: 0 <= i < |t.children| ==> NonRoot(t.children[i], h - 1)
  }

  // ----- the three repairs -----

  /** Two neighbours and the key between them as one node. */
  function Join(l: Tree, m: int, r: Tree): Tree
    requires l.Leaf? == r.Leaf?
  {
    if l.Leaf? then Leaf(l.keys + [m] + r.keys) else Node(l.keys + [m] + r.keys, l.children + r.children)
  }

  function DropLast(t: Tree): Tree
    requires |t.keys| > 0 && Arity(t)
  {
    var n := |t.keys| - 1;
    if t.Leaf? then Leaf(t.keys[..n]) else Node(t.keys[..n], t.children[..n + 1])
  }

  function DropFirst(t: Tree): Tree
    requires |t.keys| > 0 && Arity(t)
  {
    if t.Leaf? then Leaf(t.keys[1..]) else Node(t.keys[1..], t.children[1..])
  }

  /** A key in front, with the last child of the left neighbour. */
  function Prepend(t: Tree, k: int, from: Tree): Tree
    requires t.Leaf? == from.Leaf? && (from.Node? ==> |from.children| > 0)
  {
    if t.Leaf? then Leaf([k] + t.keys)
    else Node([k] + t.keys, [from.children[|from.children| - 1]] + t.children)
  }

  /** A key at the end, with the first child of the right neighbour. */
  function Append(t: Tree, k: int, from: Tree): Tree
    requires t.Leaf? == from.Leaf? && (from.Node? ==> |from.children| > 0)
  {
    if t.Leaf? then Leaf(t.keys + [k]) else Node(t.keys + [k], t.children + [from.children[0]])
  }

  /** Positions i and i + 1 hold neighbours of the same kind, each with its keys and children in step. */
  predicate Neighbours(t: Tree, i: nat) {
    && t.Node? && Arity(t) && i < |t.keys|
    && Arity(t.children[i]) && Arity(t.children[i + 1]) && t.children[i].Leaf? == t.children[i + 1].Leaf?
  }

  function BorrowFromPrev(t: Tree, idx: nat): Tree
    requires idx > 0 && Neighbours(t, idx - 1) && |t.children[idx - 1].keys| > 0
  {
    var child, sibling := t.children[idx], t.children[idx - 1];
    Node(t.keys[idx - 1 := sibling.keys[|sibling.keys| - 1]],
         t.children[idx - 1 := DropLast(sibling)][idx := Prepend(child, t.keys[idx - 1], sibling)])
  }

  function BorrowFromNext(t: Tree, idx: nat): Tree
    requires Neighbours(t, idx) && |t.children[idx + 1].keys| > 0
  {
    var child, sibling := t.children[idx], t.children[idx + 1];
    Node(t.keys[idx := sibling.keys[0]],
         t.children[idx := Append(child, t.keys[idx], sibling)][idx + 1 := DropFirst(sibling)])
  }

  function Merge(t: Tree, idx: nat): Tree
    requires Neighbours(t, idx)
  {
    Node(t.keys[..idx] + t.keys[idx + 1..],
         t.children[..idx] + [Join(t.children[idx], t.keys[idx], t.children[idx + 1])] + t.children[idx + 2..])
  }

  predicate AllNeighbours(t: Tree) {
    t.Node? && Arity(t) && |t.keys| >= 1 && forall i :: 0 <= i < |t.keys| ==> Neighbours(t, i)
  }

  function Fill(t: Tree, idx: nat): Tree
    requires AllNeighbours(t) && idx <= |t.keys|
  {
    assert idx > 0 ==> Neighbours(t, idx - 1);
    if idx != 0 && |t.children[idx - 1].keys| >= MIN_DEGREE then BorrowFromPrev(t, idx)
    else if idx != |t.keys| && |t.children[idx + 1].keys| >= MIN_DEGREE then BorrowFromNext(t, idx)
    else if idx != |t.keys| then Merge(t, idx)
    else Merge(t, idx - 1)
  }

  /** Where the deletion goes on after the fill, as the caller computes it. */
  function DescendTo(t: Tree, idx: nat): nat
    requires AllNeighbours(t) && idx <= |t.keys|
  {
    if idx == |t.keys| && idx > |Fill(t, idx).keys| then idx - 1 else idx
  }

  // ----- which repair -----

  function Sizes(t: Tree): seq<nat>
    requires t.Node?
  {
    seq(|t.children|, i requires 0 <= i < |t.children| => |t.children[i].keys|)
  }

  lemma {:induction false} BorrowSizes(t: Tree, idx: nat)
    requires AllNeighbours(t) && idx <= |t.keys|
    ensures var s := Sizes(t);
            && (idx > 0 && s[idx - 1] > 0 ==>
                  Neighbours(t, idx - 1) &&
                  Sizes(BorrowFromPrev(t, idx)) == s[idx - 1 := s[idx - 1] - 1][idx := s[idx] + 1])
            && (idx < |t.keys| && s[idx + 1] > 0 ==>
                  Sizes(BorrowFromNext(t, idx)) == s[idx := s[idx] + 1][idx + 1 := s[idx + 1] - 1])
  {
    assert idx > 0 ==> Neighbours(t, idx - 1);
  }

  lemma {:induction false} MergeSizes(t: Tree, j: nat)
    requires Neighbours(t, j)
    ensures var s := Sizes(t); Sizes(Merge(t, j)) == s[..j] + [s[j] + s[j + 1] + 1] + s[j + 2..]
  {
  }

  /**
   A key comes over from the left neighbour if it has one to spare, else from the right one if it
   has, and else the child is joined with the right neighbour, or with the left one if it is the last.
   */
  lemma {:induction false} FillChoice(t: Tree, idx: nat)
    requires AllNeighbours(t) && idx <= |t.keys|
    ensures var s, s' := Sizes(t), Sizes(Fill(t, idx));
            var j := if idx < |t.keys| then idx else idx - 1;
            if idx > 0 && s[idx - 1] >= MIN_DEGREE then s' == s[idx - 1 := s[idx - 1] - 1][idx := s[idx] + 1]
            else if idx < |t.keys| && s[idx + 1] >= MIN_DEGREE then
              s' == s[idx := s[idx] + 1][idx + 1 := s[idx + 1] - 1]
            else s' == s[..j] + [s[j] + s[j + 1] + 1] + s[j + 2..]
  {
    BorrowSizes(t, idx);
    assert Neighbours(t, if idx < |t.keys| then idx else idx - 1);
    MergeSizes(t, if idx < |t.keys| then idx else idx - 1);
  }

  // ----- the in-order sequence is kept -----

  lemma {:induction false} SingleChild(x: Tree)
    ensures InOrder(Node([], [x])) == InOrder(x)
  {
  }

  lemma {:induction false} JoinInOrder(l: Tree, m: int, r: Tree)
    requires l.Leaf? == r.Leaf? && Arity(l) && Arity(r)
    ensures InOrder(Join(l, m, r)) == InOrder(l) + [m] + InOrder(r)
  {
    if l.Node? {
      var ks, cs, n := l.keys + [m] + r.keys, l.children + r.children, |l.keys|;
      Cut(ks, cs, n);
      assert ks[..n] == l.keys && cs[..n + 1] == l.children && ks[n + 1..] == r.keys && cs[n + 1..] == r.children;
    }
  }

  lemma {:induction false} RotateKeysRight(l: seq<int>, m: int, r: seq<int>)
    requires |l| > 0
    ensures l + [m] + r == l[..|l| - 1] + [l[|l| - 1]] + ([m] + r)
  {
    assert l == l[..|l| - 1] + [l[|l| - 1]];
  }

  lemma {:induction false} RotateKeysLeft(l: seq<int>, m: int, r: seq<int>)
    requires |r| > 0
    ensures l + [m] + r == (l + [m]) + [r[0]] + r[1..]
  {
    assert r == [r[0]] + r[1..];
  }

  /** Moving the last key of l up and m down changes nothing in between. */
  lemma {:induction false} RotateRight(l: Tree, m: int, r: Tree)
    requires l.Leaf? == r.Leaf? && Arity(l) && Arity(r) && |l.keys| > 0
    ensures InOrder(l) + [m] + InOrder(r) ==
            InOrder(DropLast(l)) + [l.keys[|l.keys| - 1]] + InOrder(Prepend(r, m, l))
  {
    if l.Leaf? {
      RotateKeysRight(l.keys, m, r.keys);
    } else {
      RotateNodesRight(l, m, r);
    }
  }

  lemma {:induction false} RotateNodesRight(l: Tree, m: int, r: Tree)
    requires l.Node? && r.Node? && Arity(l) && Arity(r) && |l.keys| > 0
    ensures InOrder(l) + [m] + InOrder(r) ==
            InOrder(DropLast(l)) + [l.keys[|l.keys| - 1]] + InOrder(Prepend(r, m, l))
  {
    var n := |l.keys| - 1;
    var x := l.children[n + 1];
    Cut(l.keys, l.children, n);
    assert l.keys[n + 1..] == [] && l.children[n + 1..] == [x];
    SingleChild(x);
    JoinInOrder(Node([], [x]), m, r);
    assert Prepend(r, m, l) == Join(Node([], [x]), m, r);
    Reassociate(InOrder(DropLast(l)), [l.keys[n]], InOrder(x), [m], InOrder(r));
  }

  /** Moving the first key of r up and m down changes nothing in between. */
  lemma {:induction false} RotateLeft(l: Tree, m: int, r: Tree)
    requires l.Leaf? == r.Leaf? && Arity(l) && Arity(r) && |r.keys| > 0
    ensures InOrder(l) + [m] + InOrder(r) ==
            InOrder(Append(l, m, r)) + [r.keys[0]] + InOrder(DropFirst(r))
  {
    if l.Leaf? {
      RotateKeysLeft(l.keys, m, r.keys);
    } else {
      RotateNodesLeft(l, m, r);
    }
  }

  lemma {:induction false} RotateNodesLeft(l: Tree, m: int, r: Tree)
    requires l.Node? && r.Node? && Arity(l) && Arity(r) && |r.keys| > 0
    ensures InOrder(l) + [m] + InOrder(r) ==
            InOrder(Append(l, m, r)) + [r.keys[0]] + InOrder(DropFirst(r))
  {
    var x := r.children[0];
    Cut(r.keys, r.children, 0);
    assert r.keys[..0] == [] && r.children[..1] == [x];
    SingleChild(x);
    JoinInOrder(l, m, Node([], [x]));
    assert Append(l, m, r) == Join(l, m, Node([], [x]));
    Reassociate(InOrder(l), [m], InOrder(x), [r.keys[0]], InOrder(DropFirst(r)));
  }

  /** Two neighbours and their key may be replaced by others that print the same. */
  lemma {:induction false} ReplacePair(keys: seq<int>, children: seq<Tree>, i: nat, l: Tree, m: int, r: Tree)
    requires |children| == |keys| + 1 && i < |keys|
    requires InOrder(children[i]) + [keys[i]] + InOrder(children[i + 1]) == InOrder(l) + [m] + InOrder(r)
    ensures InOrder(Node(keys[i := m], children[i := l][i + 1 := r])) == InOrder(Node(keys, children))
  {
    var ks, cs := keys[i := m], children[i := l][i + 1 := r];
    AroundPair(keys, children, i);
    AroundPair(ks, cs, i);
    BeforeSame(keys, children, ks, cs, i);
    assert ks[i + 1..] == keys[i + 1..] && cs[i + 2..] == children[i + 2..];
    AfterSame(keys, children, i + 1, ks, cs, i + 1);
  }

  lemma {:induction false} MergeInOrder(t: Tree, idx: nat)
    requires Neighbours(t, idx)
    ensures InOrder(Merge(t, idx)) == InOrder(t)
  {
    var m := Merge(t, idx);
    var l, r := t.children[idx], t.children[idx + 1];
    JoinInOrder(l, t.keys[idx], r);
    ExpandChild(m.keys, m.children, idx, l, t.keys[idx], r);
    assert m.keys[..idx] + [t.keys[idx]] + m.keys[idx..] == t.keys;
    assert m.children[..idx] + [l, r] + m.children[idx + 1..] == t.children;
  }

  lemma {:induction false} BorrowFromPrevInOrder(t: Tree, idx: nat)
    requires idx > 0 && Neighbours(t, idx - 1) && |t.children[idx - 1].keys| > 0
    ensures InOrder(BorrowFromPrev(t, idx)) == InOrder(t)
  {
    var c, s := t.children[idx], t.children[idx - 1];
    RotateRight(s, t.keys[idx - 1], c);
    ReplacePair(t.keys, t.children, idx - 1, DropLast(s), s.keys[|s.keys| - 1], Prepend(c, t.keys[idx - 1], s));
  }

  lemma {:induction false} BorrowFromNextInOrder(t: Tree, idx: nat)
    requires Neighbours(t, idx) && |t.children[idx + 1].keys| > 0
    ensures InOrder(BorrowFromNext(t, idx)) == InOrder(t)
  {
    var c, s := t.children[idx], t.children[idx + 1];
    RotateLeft(c, t.keys[idx], s);
    ReplacePair(t.keys, t.children, idx, Append(c, t.keys[idx], s), s.keys[0], DropFirst(s));
  }

  /** Whichever repair is chosen, the node's keys stay the same and in the same order. */
  lemma {:induction false} FillInOrder(t: Tree, idx: nat)
    requires AllNeighbours(t) && idx <= |t.keys|
    ensures InOrder(Fill(t, idx)) == InOrder(t)
  {
    if idx != 0 && |t.children[idx - 1].keys| >= MIN_DEGREE {
      assert Neighbours(t, idx - 1);
      BorrowFromPrevInOrder(t, idx);
    } else if idx != |t.keys| && |t.children[idx + 1].keys| >= MIN_DEGREE {
      assert Neighbours(t, idx);
      BorrowFromNextInOrder(t, idx);
    } else {
      var i := if idx != |t.keys| then idx else idx - 1;
      assert Neighbours(t, i);
      MergeInOrder(t, i);
    }
  }

  // ----- the shape is kept, and the child has room for a deletion -----

  lemma {:induction false} ShapeNeighbours(t: Tree, h: nat)
    requires Shape(t, h) && t.Node?
    ensures AllNeighbours(t)
  {
    forall i | 0 <= i < |t.keys| ensures Neighbours(t, i) {
      assert Shape(t.children[i], h - 1) && Shape(t.children[i + 1], h - 1);
    }
  }

  lemma {:induction false} RotatedShape(l: Tree, m: int, r: Tree, h: nat)
    requires NonRoot(l, h) && NonRoot(r, h)
    ensures |l.keys| >= MIN_DEGREE && |r.keys| < MAX_KEYS ==> NonRoot(DropLast(l), h) && NonRoot(Prepend(r, m, l), h)
    ensures |r.keys| >= MIN_DEGREE && |l.keys| < MAX_KEYS ==> NonRoot(Append(l, m, r), h) && NonRoot(DropFirst(r), h)
    ensures |l.keys| == |r.keys| == MIN_DEGREE - 1 ==> NonRoot(Join(l, m, r), h) && Full(Join(l, m, r))
  {
  }

  /**
   The fill of an under-full child: the node stays an internal node of its height, it loses at
   most one key, and the child that the deletion descends into has at least MIN_DEGREE keys.
   */
  lemma {:induction false} FillShape(t: Tree, h: nat, idx: nat)
    requires Shape(t, h) && t.Node? && idx <= |t.keys| && |t.children[idx].keys| < MIN_DEGREE
    ensures AllNeighbours(t)
    ensures Inner(Fill(t, idx), h) && |t.keys| - 1 <= |Fill(t, idx).keys| <= |t.keys|
    ensures DescendTo(t, idx) < |Fill(t, idx).children|
    ensures |Fill(t, idx).children[DescendTo(t, idx)].keys| >= MIN_DEGREE
  {
    ShapeNeighbours(t, h);
    if idx != 0 && |t.children[idx - 1].keys| >= MIN_DEGREE {
      BorrowFromPrevShape(t, h, idx);
    } else if idx != |t.keys| && |t.children[idx + 1].keys| >= MIN_DEGREE {
      BorrowFromNextShape(t, h, idx);
    } else {
      MergeShape(t, h, if idx != |t.keys| then idx else idx - 1);
    }
  }

  lemma {:induction false} BorrowFromPrevShape(t: Tree, h: nat, idx: nat)
    requires Shape(t, h) && t.Node? && 0 < idx <= |t.keys| && AllNeighbours(t) && Neighbours(t, idx - 1)
    requires |t.children[idx - 1].keys| >= MIN_DEGREE && |t.children[idx].keys| < MIN_DEGREE
    ensures Inner(BorrowFromPrev(t, idx), h)
    ensures |BorrowFromPrev(t, idx).children[idx].keys| >= MIN_DEGREE
  {
    RotatedShape(t.children[idx - 1], t.keys[idx - 1], t.children[idx], h - 1);
  }

  lemma {:induction false} BorrowFromNextShape(t: Tree, h: nat, idx: nat)
    requires Shape(t, h) && t.Node? && idx < |t.keys| && AllNeighbours(t) && Neighbours(t, idx)
    requires |t.children[idx + 1].keys| >= MIN_DEGREE && |t.children[idx].keys| < MIN_DEGREE
    ensures Inner(BorrowFromNext(t, idx), h)
    ensures |BorrowFromNext(t, idx).children[idx].keys| >= MIN_DEGREE
  {
    RotatedShape(t.children[idx], t.keys[idx], t.children[idx + 1], h - 1);
  }

  lemma {:induction false} MergeShape(t: Tree, h: nat, idx: nat)
    requires Shape(t, h) && t.Node? && idx < |t.keys| && AllNeighbours(t) && Neighbours(t, idx)
    requires |t.children[idx].keys| < MIN_DEGREE && |t.children[idx + 1].keys| < MIN_DEGREE
    ensures Inner(Merge(t, idx), h)
    ensures Full(Merge(t, idx).children[idx])
  {
    RotatedShape(t.children[idx], t.keys[idx], t.children[idx + 1], h - 1);
  }

  // ----- the child to descend into still covers the key that is being deleted -----

  /**
   For a key strictly between the keys around child idx, the filled node has it strictly between the
   keys around the child to descend into.
   */
  lemma {:induction false} FillEncloses(t: Tree, h: nat, idx: nat, k: int)
    requires Shape(t, h) && t.Node? && Sorted(InOrder(t)) && idx <= |t.keys| && |t.children[idx].keys| < MIN_DEGREE
    requires idx > 0 ==> t.keys[idx - 1] < k
    requires idx < |t.keys| ==> k < t.keys[idx]
    ensures AllNeighbours(t)
    ensures var f, q := Fill(t, idx), DescendTo(t, idx);
            (q > 0 ==> q - 1 < |f.keys| && f.keys[q - 1] < k) && (q < |f.keys| ==> k < f.keys[q])
  {
    ShapeNeighbours(t, h);
    if idx != 0 && |t.children[idx - 1].keys| >= MIN_DEGREE {
      ChildKeysBetween(t, h, idx - 1);
    } else if idx != |t.keys| && |t.children[idx + 1].keys| >= MIN_DEGREE {
      ChildKeysBetween(t, h, idx);
    } else if idx != |t.keys| {
      if idx + 1 < |t.keys| {
        KeysAscend(t, h, idx);
      }
    } else if idx > 1 {
      KeysAscend(t, h, idx - 2);
    }
  }

  lemma {:induction false} KeysAscend(t: Tree, h: nat, i: nat)
    requires Shape(t, h) && t.Node? && Sorted(InOrder(t)) && i + 1 < |t.keys|
    ensures t.keys[i] <= t.keys[i + 1]
  {
    ChildKeysBetween(t, h, i);
    ChildKeysBetween(t, h, i + 1);
    assert t.keys[i] <= t.children[i + 1].keys[0] <= t.keys[i + 1];
  }

  /** In a sorted node the keys of child i are at most key i, and those of child i + 1 at least key i. */
  lemma {:induction false} ChildKeysBetween(t: Tree, h: nat, i: nat)
    requires Shape(t, h) && t.Node? && Sorted(InOrder(t)) && i < |t.keys|
    ensures forall j :: 0 <= j < |t.children[i].keys| ==> t.children[i].keys[j] <= t.keys[i]
    ensures var right := t.children[i + 1]; forall j :: 0 <= j < |right.keys| ==> t.keys[i] <= right.keys[j]
  {
    var l, r := t.children[i], t.children[i + 1];
    AroundPair(t.keys, t.children, i);
    BetweenParts(Before(t.keys, t.children, i), InOrder(l), t.keys[i], InOrder(r), After(t.keys, t.children, i + 1));
    forall j | 0 <= j < |l.keys| ensures l.keys[j] <= t.keys[i] {
      KeyInOrder(l, h - 1, j);
    }
    forall j | 0 <= j < |r.keys| ensures t.keys[i] <= r.keys[j] {
      KeyInOrder(r, h - 1, j);
    }
  }

  lemma {:induction false} BetweenParts(b: seq<int>, l: seq<int>, m: int, r: seq<int>, a: seq<int>)
    requires Sorted(b + (l + [m] + r) + a)
    ensures forall x :: x in l ==> x <= m
    ensures forall x :: x in r ==> m <= x
  {
    SortedParts(b, l + [m] + r, a);
    SortedParts(l, [m], r);
    assert m in [m];
  }

  /** A fill never hides a key: searching on below the chosen child finds it exactly if the node held it. */
  lemma {:induction false} FillKeepsKeyReachable(t: Tree, h: nat, idx: nat, k: int)
    requires Shape(t, h) && t.Node? && Sorted(InOrder(t)) && idx <= |t.keys| && |t.children[idx].keys| < MIN_DEGREE
    requires idx > 0 ==> t.keys[idx - 1] < k
    requires idx < |t.keys| ==> k < t.keys[idx]
    ensures AllNeighbours(t) && DescendTo(t, idx) < |Fill(t, idx).children|
    ensures k in InOrder(t) <==> k in InOrder(Fill(t, idx).children[DescendTo(t, idx)])
  {
    FillShape(t, h, idx);
    FillInOrder(t, idx);
    FillEncloses(t, h, idx, k);
    OnlyInChild(Fill(t, idx), DescendTo(t, idx), k);
  }

  // ----- the replacement keys for a deletion from an internal node -----

  /** The walk that looks for the largest key below a child: it follows the last child but one. */
  function PredFrom(cur: Tree, h: nat): int
    requires NonRoot(cur, h)
    decreases h
  {
    if cur.Leaf? then cur.keys[|cur.keys| - 1] else PredFrom(cur.children[|cur.keys| - 1], h - 1)
  }

  /** The walk that looks for the smallest key below a child. */
  function SuccFrom(cur: Tree, h: nat): int
    requires NonRoot(cur, h)
    decreases h
  {
    if cur.Leaf? then cur.keys[0] else SuccFrom(cur.children[0], h - 1)
  }

  lemma {:induction false} NonEmpty(t: Tree, h: nat)
    requires Shape(t, h) && |t.keys| > 0
    ensures |InOrder(t)| > 0
  {
    KeyInOrder(t, h, 0);
  }

  /** The successor walk always finds the first key of the subtree. */
  lemma {:induction false} SuccFromIsFirst(cur: Tree, h: nat)
    requires NonRoot(cur, h)
    ensures |InOrder(cur)| > 0 && SuccFrom(cur, h) == InOrder(cur)[0]
    decreases h
  {
    NonEmpty(cur, h);
    if cur.Leaf? {
    } else {
      SuccFromIsFirst(cur.children[0], h - 1);
      FirstAround(cur.keys, cur.children);
    }
  }

  lemma {:induction false} PredFromInOrder(cur: Tree, h: nat)
    requires NonRoot(cur, h)
    ensures PredFrom(cur, h) in InOrder(cur)
    decreases h
  {
    if cur.Leaf? {
    } else {
      var n := |cur.keys| - 1;
      PredFromInOrder(cur.children[n], h - 1);
      Around(cur.keys, cur.children, n);
    }
  }

  predicate Ascending(s: seq<int>) {
    forall i, j :: 0 <= i < j < |s| ==> s[i] < s[j]
  }

  lemma {:induction false} NotLast(s: seq<int>, b: seq<int>, l: seq<int>, m: int, r: seq<int>, x: int)
    requires s == b + (l + [m] + r) && Ascending(s) && x in l && |r| > 0
    ensures x < s[|s| - 1]
  {
    var i :| 0 <= i < |l| && l[i] == x;
    assert s[|b| + i] == x && s[|s| - 1] == r[|r| - 1];
  }

  /** The walk that looks for the largest key below a child finds it. */
  predicate FindsLast(cur: Tree, h: nat)
    requires NonRoot(cur, h)
  {
    |InOrder(cur)| > 0 && PredFrom(cur, h) == InOrder(cur)[|InOrder(cur)| - 1]
  }

  lemma {:induction false} LastOf(s: seq<int>, b: seq<int>, l: seq<int>, m: int, r: seq<int>, x: int)
    requires s == b + (l + [m] + r) && Sorted(s) && x in l && |r| > 0
    ensures x == s[|s| - 1] <==> forall y :: y in r ==> y == x
  {
    assert s[|s| - 1] == r[|r| - 1];
    assert s == b + (l + [m] + r) + [];
    SortedParts(b, l + [m] + r, []);
    SortedParts(l, [m], r);
    assert m in [m];
    assert r[|r| - 1] in r;
    SortedBounds(r, r[|r| - 1]);
  }

  /** In front of the last child of a node lies the one that the walk enters. */
  lemma {:induction false} LastTwoParts(cur: Tree, h: nat) returns (b: seq<int>, l: seq<int>, m: int, r: seq<int>)
    requires NonRoot(cur, h) && cur.Node?
    ensures InOrder(cur) == b + (l + [m] + r) && r == InOrder(cur.children[|cur.keys|]) && |r| > 0
    ensures PredFrom(cur, h) in l
  {
    var n := |cur.keys| - 1;
    NonEmpty(cur.children[n + 1], h - 1);
    PredFromInOrder(cur.children[n], h - 1);
    AroundPair(cur.keys, cur.children, n);
    assert After(cur.keys, cur.children, n + 1) == [];
    b, l, m, r := Before(cur.keys, cur.children, n), InOrder(cur.children[n]), cur.keys[n],
      InOrder(cur.children[n + 1]);
  }

  /**
   The predecessor walk finds the last key of the subtree exactly when it starts at a leaf, or every
   key below the last child, which it does not enter, equals the one it finds.
   */
  lemma {:induction false} PredFromIsLastIff(cur: Tree, h: nat)
    requires NonRoot(cur, h) && Sorted(InOrder(cur))
    ensures FindsLast(cur, h) <==>
            cur.Leaf? || forall y :: y in InOrder(cur.children[|cur.keys|]) ==> y == PredFrom(cur, h)
  {
    if cur.Node? {
      var b, l, m, r := LastTwoParts(cur, h);
      LastOf(InOrder(cur), b, l, m, r, PredFrom(cur, h));
    }
  }

  /** On keys without repetitions it does so exactly when it starts at a leaf. */
  lemma {:induction false} PredFromIsLastIffLeaf(cur: Tree, h: nat)
    requires NonRoot(cur, h) && Ascending(InOrder(cur))
    ensures FindsLast(cur, h) <==> cur.Leaf?
  {
    if cur.Node? {
      var b, l, m, r := LastTwoParts(cur, h);
      NotLast(InOrder(cur), b, l, m, r, PredFrom(cur, h));
    }
  }
}
