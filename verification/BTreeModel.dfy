/**
 B-trees as values: their shape, their in-order key sequence, and what splitting a child and
 inserting a key do to both. The mutable nodes of the index are proved against these functions.
 */
module BTreeModel {

  const MIN_DEGREE: nat := 3
  const MAX_KEYS: nat := 2 * MIN_DEGREE - 1

  datatype Tree =
    | Leaf(keys: seq<int>)
    | Node(keys: seq<int>, children: seq<Tree>)

  /** Leaves at depth h, one more child than keys, and the key bounds below the root. */
  predicate Shape(t: Tree, h: nat)
    decreases h
  {
    && |t.keys| <= MAX_KEYS
    && match t
       case Leaf(_) => h == 0
       case Node(keys, children) =>
         && h > 0
         && |keys| >= 1
         && |children| == |keys| + 1
         && forall i :: 0 <= i < |children| ==>
              Shape(children[i], h - 1) && |children[i].keys| >= MIN_DEGREE - 1
  }

  predicate NonRoot(t: Tree, h: nat) {
    Shape(t, h) && |t.keys| >= MIN_DEGREE - 1
  }

  // ----- the in-order key sequence -----

  /** The order in which traversal prints the keys. */
  function InOrder(t: Tree): seq<int>
    decreases t, 0
  {
    match t
    case Leaf(keys) => keys
    case Node(keys, children) =>
      if |children| == |keys| + 1 then
        Before(keys, children, |keys|) + InOrder(children[|keys|])
      else
        keys
  }

  /** The keys printed before child p: each earlier child followed by the key after it. */
  function Before(keys: seq<int>, children: seq<Tree>, p: nat): seq<int>
    requires |children| == |keys| + 1 && p <= |keys|
    decreases children, p
  {
    if p == 0 then [] else Before(keys, children, p - 1) + InOrder(children[p - 1]) + [keys[p - 1]]
  }

  /** What a traversal has printed when it reaches position i. */
  function Printed(t: Tree, i: nat): seq<int>
    requires i <= |t.keys| && (t.Node? ==> |t.children| == |t.keys| + 1)
  {
    if t.Leaf? then t.keys[..i] else Before(t.keys, t.children, i)
  }

  lemma {:induction false} PrintedStep(t: Tree, i: nat)
    requires i < |t.keys| && (t.Node? ==> |t.children| == |t.keys| + 1)
    ensures t.Leaf? ==> Printed(t, i + 1) == Printed(t, i) + [t.keys[i]]
    ensures t.Node? ==> Printed(t, i + 1) == Printed(t, i) + InOrder(t.children[i]) + [t.keys[i]]
  {
  }

  lemma {:induction false} PrintedAll(t: Tree)
    requires t.Node? ==> |t.children| == |t.keys| + 1
    ensures t.Leaf? ==> InOrder(t) == Printed(t, |t.keys|)
    ensures t.Node? ==> InOrder(t) == Printed(t, |t.keys|) + InOrder(t.children[|t.keys|])
  {
  }

  /** The keys printed after child p: each later key followed by the child after it. */
  function After(keys: seq<int>, children: seq<Tree>, p: nat): seq<int>
    requires |children| == |keys| + 1 && p <= |keys|
    decreases |keys| - p
  {
    if p == |keys| then [] else [keys[p]] + InOrder(children[p + 1]) + After(keys, children, p + 1)
  }

  lemma {:induction false} Reassociate(a: seq<int>, b: seq<int>, c: seq<int>, d: seq<int>, e: seq<int>)
    ensures a + b + c + d + e == a + b + (c + d + e)
  {
  }

  /** The sequence of a node splits around any of its children. */
  lemma {:induction false} Around(keys: seq<int>, children: seq<Tree>, p: nat)
    requires |children| == |keys| + 1 && p <= |keys|
    ensures InOrder(Node(keys, children)) ==
            Before(keys, children, p) + InOrder(children[p]) + After(keys, children, p)
    decreases |keys| - p
  {
    if p == |keys| {
      assert After(keys, children, p) == [];
    } else {
      Around(keys, children, p + 1);
      Reassociate(Before(keys, children, p), InOrder(children[p]), [keys[p]], InOrder(children[p + 1]),
                  After(keys, children, p + 1));
    }
  }

  lemma {:induction false} BeforeSame(k1: seq<int>, c1: seq<Tree>, k2: seq<int>, c2: seq<Tree>, p: nat)
    requires |c1| == |k1| + 1 && |c2| == |k2| + 1 && p <= |k1| && p <= |k2|
    requires k1[..p] == k2[..p] && c1[..p] == c2[..p]
    ensures Before(k1, c1, p) == Before(k2, c2, p)
  {
    if p == 0 {
    } else {
      assert k1[..p - 1] == k1[..p][..p - 1] && k2[..p - 1] == k2[..p][..p - 1];
      assert c1[..p - 1] == c1[..p][..p - 1] && c2[..p - 1] == c2[..p][..p - 1];
      assert k1[p - 1] == k1[..p][p - 1] == k2[p - 1] && c1[p - 1] == c1[..p][p - 1] == c2[p - 1];
      BeforeSame(k1, c1, k2, c2, p - 1);
    }
  }

  lemma {:induction false} AfterSame(k1: seq<int>, c1: seq<Tree>, p: nat, k2: seq<int>, c2: seq<Tree>, q: nat)
    requires |c1| == |k1| + 1 && |c2| == |k2| + 1 && p <= |k1| && q <= |k2|
    requires k1[p..] == k2[q..] && c1[p + 1..] == c2[q + 1..]
    ensures After(k1, c1, p) == After(k2, c2, q)
    decreases |k1| - p
  {
    if p == |k1| {
    } else {
      assert |k1[p..]| == |k2[q..]|;
      assert k1[p] == k1[p..][0] == k2[q] && c1[p + 1] == c1[p + 1..][0] == c2[q + 1];
      assert k1[p + 1..] == k1[p..][1..] && k2[q + 1..] == k2[q..][1..];
      assert c1[p + 2..] == c1[p + 1..][1..] && c2[q + 2..] == c2[q + 1..][1..];
      AfterSame(k1, c1, p + 1, k2, c2, q + 1);
    }
  }

  lemma {:induction false} Regroup(a: seq<int>, b: seq<int>, c: seq<int>, d: seq<int>, e: seq<int>)
    ensures a + b + (c + d + e) == a + (b + c + d) + e
    ensures a + (b + c + d) + e == (a + b) + c + (d + e)
  {
  }

  /** The sequence of a node splits around any of its keys and the two children beside it. */
  lemma {:induction false} AroundPair(keys: seq<int>, children: seq<Tree>, i: nat)
    requires |children| == |keys| + 1 && i < |keys|
    ensures InOrder(Node(keys, children)) ==
            Before(keys, children, i) + (InOrder(children[i]) + [keys[i]] + InOrder(children[i + 1])) +
            After(keys, children, i + 1)
  {
    Around(keys, children, i);
    Regroup(Before(keys, children, i), InOrder(children[i]), [keys[i]], InOrder(children[i + 1]),
            After(keys, children, i + 1));
  }

  lemma {:induction false} LastAround(keys: seq<int>, children: seq<Tree>)
    requires |children| == |keys| + 1
    ensures InOrder(Node(keys, children)) == Before(keys, children, |keys|) + InOrder(children[|keys|])
  {
  }

  lemma {:induction false} FirstAround(keys: seq<int>, children: seq<Tree>)
    requires |children| == |keys| + 1
    ensures InOrder(Node(keys, children)) == InOrder(children[0]) + After(keys, children, 0)
  {
    Around(keys, children, 0);
    assert [] + InOrder(children[0]) == InOrder(children[0]);
  }

  /** A node may be cut at any of its keys. */
  lemma {:induction false} Cut(keys: seq<int>, children: seq<Tree>, m: nat)
    requires |children| == |keys| + 1 && m < |keys|
    ensures InOrder(Node(keys, children)) ==
            InOrder(Node(keys[..m], children[..m + 1])) + [keys[m]] + InOrder(Node(keys[m + 1..], children[m + 1..]))
  {
    var lk, lc, rk, rc := keys[..m], children[..m + 1], keys[m + 1..], children[m + 1..];
    AroundPair(keys, children, m);
    LastAround(lk, lc);
    assert lc[..m] == children[..m];
    BeforeSame(keys, children, lk, lc, m);
    FirstAround(rk, rc);
    assert rk[0..] == keys[m + 1..] && rc[1..] == children[m + 2..];
    AfterSame(keys, children, m + 1, rk, rc, 0);
    Regroup(Before(lk, lc, m), InOrder(lc[m]), [keys[m]], InOrder(rc[0]), After(rk, rc, 0));
  }

  // ----- sorted sequences -----

  predicate Sorted(s: seq<int>) {
    forall i, j :: 0 <= i < j < |s| ==> s[i] <= s[j]
  }

  /** s' is the sorted sequence s with one more occurrence of k. */
  predicate IsInsertion(s: seq<int>, k: int, s': seq<int>) {
    Sorted(s') && multiset(s') == multiset(s) + multiset{k}
  }

  /** No element of a is above an element of b. */
  predicate Below(a: seq<int>, b: seq<int>) {
    forall x, y :: x in a && y in b ==> x <= y
  }

  lemma {:induction false} SortedConcat(a: seq<int>, b: seq<int>)
    ensures Sorted(a + b) <==> Sorted(a) && Sorted(b) && Below(a, b)
  {
    var s := a + b;
    assert forall i :: 0 <= i < |a| ==> a[i] == s[i];
    assert forall i :: 0 <= i < |b| ==> b[i] == s[|a| + i];
    if Sorted(s) {
      forall x, y | x in a && y in b ensures x <= y {
        var i :| 0 <= i < |a| && a[i] == x;
        var j :| 0 <= j < |b| && b[j] == y;
        assert s[i] <= s[|a| + j];
      }
    } else if Sorted(a) && Sorted(b) && Below(a, b) {
      forall i, j | 0 <= i < j < |s| ensures s[i] <= s[j] {
        if i < |a| <= j {
          assert a[i] in a && b[j - |a|] in b;
        }
      }
    }
  }

  /** A sorted a + m + b is sorted in each part, with the parts one above the other. */
  lemma {:induction false} SortedParts(a: seq<int>, m: seq<int>, b: seq<int>)
    ensures Sorted(a + m + b) <==>
            Sorted(a) && Sorted(m) && Sorted(b) && Below(a, m) && Below(a, b) && Below(m, b)
  {
    SortedConcat(a, m);
    SortedConcat(a + m, b);
    assert Below(a + m, b) <==> Below(a, b) && Below(m, b) by {
      assert forall x :: x in a + m <==> x in a || x in m;
    }
  }

  /** Whatever bounds the last element of a sorted sequence, or its first, bounds all of it. */
  lemma {:induction false} SortedBounds(s: seq<int>, k: int)
    requires Sorted(s)
    ensures s == [] || s[|s| - 1] <= k ==> Below(s, [k])
    ensures s == [] || k <= s[0] ==> Below([k], s)
  {
  }

  /** An insertion into the middle of a sorted sequence, at a place where k belongs. */
  lemma {:induction false} InsertInMiddle(a: seq<int>, m: seq<int>, m': seq<int>, b: seq<int>, k: int)
    requires Sorted(a + m + b) && IsInsertion(m, k, m')
    requires a == [] || a[|a| - 1] <= k
    requires b == [] || k <= b[0]
    ensures IsInsertion(a + m + b, k, a + m' + b)
  {
    SortedParts(a, m, b);
    SortedBounds(a, k);
    SortedBounds(b, k);
    assert Below(a, m') && Below(m', b) by {
      forall x | x in m' ensures x == k || x in m {
        assert x in multiset(m');
      }
      assert k in [k];
    }
    SortedParts(a, m', b);
  }

  // ----- splitting a full child -----

  predicate Full(t: Tree) {
    |t.keys| == MAX_KEYS
  }

  function LeftHalf(y: Tree): Tree
    requires Full(y) && (y.Node? ==> |y.children| == MAX_KEYS + 1)
  {
    match y
    case Leaf(keys) => Leaf(keys[..MIN_DEGREE - 1])
    case Node(keys, children) => Node(keys[..MIN_DEGREE - 1], children[..MIN_DEGREE])
  }

  function RightHalf(y: Tree): Tree
    requires Full(y) && (y.Node? ==> |y.children| == MAX_KEYS + 1)
  {
    match y
    case Leaf(keys) => Leaf(keys[MIN_DEGREE..])
    case Node(keys, children) => Node(keys[MIN_DEGREE..], children[MIN_DEGREE..])
  }

  lemma {:induction false} HalvesInOrder(y: Tree)
    requires Full(y) && (y.Node? ==> |y.children| == MAX_KEYS + 1)
    ensures InOrder(y) == InOrder(LeftHalf(y)) + [y.keys[MIN_DEGREE - 1]] + InOrder(RightHalf(y))
  {
    if y.Node? {
      Cut(y.keys, y.children, MIN_DEGREE - 1);
    }
  }

  lemma {:induction false} HalvesShape(y: Tree, h: nat)
    requires Shape(y, h) && Full(y)
    ensures NonRoot(LeftHalf(y), h) && NonRoot(RightHalf(y), h)
  {
  }

  /** Replace full child i by its halves, with its middle key between them. */
  function SplitChild(t: Tree, i: nat): Tree
    requires t.Node? && |t.children| == |t.keys| + 1 && i < |t.children|
    requires Full(t.children[i]) && (t.children[i].Node? ==> |t.children[i].children| == MAX_KEYS + 1)
  {
    var y := t.children[i];
    Node(t.keys[..i] + [y.keys[MIN_DEGREE - 1]] + t.keys[i..],
         t.children[..i] + [LeftHalf(y), RightHalf(y)] + t.children[i + 1..])
  }

  predicate CanSplit(t: Tree, h: nat, i: nat) {
    && Shape(t, h) && t.Node? && |t.keys| < MAX_KEYS
    && i < |t.children| && Full(t.children[i]) && Shape(t.children[i], h - 1)
  }

  /** Splitting changes neither the keys nor their order, and the node keeps its shape. */
  lemma {:induction false} SplitChildCorrect(t: Tree, h: nat, i: nat)
    requires CanSplit(t, h, i)
    ensures Shape(SplitChild(t, i), h)
    ensures InOrder(SplitChild(t, i)) == InOrder(t)
    ensures !Full(SplitChild(t, i).children[i]) && !Full(SplitChild(t, i).children[i + 1])
  {
    HalvesShape(t.children[i], h - 1);
    SplitChildInOrder(t, h, i);
  }

  lemma {:induction false} SplitChildInOrder(t: Tree, h: nat, i: nat)
    requires CanSplit(t, h, i)
    ensures InOrder(SplitChild(t, i)) == InOrder(t)
  {
    var y := t.children[i];
    HalvesInOrder(y);
    ExpandChild(t.keys, t.children, i, LeftHalf(y), y.keys[MIN_DEGREE - 1], RightHalf(y));
  }

  /** A child may be replaced by two children and a key between them that print the same. */
  lemma {:induction false} ExpandChild(keys: seq<int>, children: seq<Tree>, i: nat, l: Tree, m: int, r: Tree)
    requires |children| == |keys| + 1 && i < |children|
    requires InOrder(children[i]) == InOrder(l) + [m] + InOrder(r)
    ensures InOrder(Node(keys[..i] + [m] + keys[i..], children[..i] + [l, r] + children[i + 1..])) ==
            InOrder(Node(keys, children))
  {
    var ks, cs := keys[..i] + [m] + keys[i..], children[..i] + [l, r] + children[i + 1..];
    Around(keys, children, i);
    assert ks[i] == m && cs[i] == l && cs[i + 1] == r;
    AroundPair(ks, cs, i);
    assert ks[..i] == keys[..i] && cs[..i] == children[..i];
    BeforeSame(keys, children, ks, cs, i);
    assert ks[i + 1..] == keys[i..] && cs[i + 2..] == children[i + 1..];
    AfterSame(keys, children, i, ks, cs, i + 1);
  }

  // ----- inserting -----

  /** The position after the last key that is at most k, found by scanning from the right. */
  function Slot(keys: seq<int>, k: int): (p: nat)
    ensures p <= |keys|
    ensures p > 0 ==> keys[p - 1] <= k
    ensures forall j :: p <= j < |keys| ==> keys[j] > k
  {
    if keys == [] || keys[|keys| - 1] <= k then |keys| else Slot(keys[..|keys| - 1], k)
  }

  function InsertNonFull(t: Tree, h: nat, k: int): Tree
    requires Shape(t, h) && |t.keys| < MAX_KEYS
    decreases h, 1
  {
    var p := Slot(t.keys, k);
    match t
    case Leaf(keys) => Leaf(keys[..p] + [k] + keys[p..])
    case Node(_, children) =>
      if Full(children[p]) then
        SplitChildCorrect(t, h, p);
        var t' := SplitChild(t, p);
        InsertBelow(t', h, if t'.keys[p] < k then p + 1 else p, k)
      else
        InsertBelow(t, h, p, k)
  }

  /** Insertion into child q, which has room. */
  function InsertBelow(t: Tree, h: nat, q: nat, k: int): Tree
    requires Shape(t, h) && t.Node? && q < |t.children| && !Full(t.children[q])
    decreases h, 0
  {
    Node(t.keys, t.children[q := InsertNonFull(t.children[q], h - 1, k)])
  }

  lemma {:induction false} InsertNonFullStep(t: Tree, h: nat, k: int)
    requires Shape(t, h) && |t.keys| < MAX_KEYS && t.Node?
    ensures var p := Slot(t.keys, k);
            if Full(t.children[p]) then
              CanSplit(t, h, p) &&
              var s := SplitChild(t, p);
              var q := if s.keys[p] < k then p + 1 else p;
              && Shape(s, h) && !Full(s.children[p]) && !Full(s.children[p + 1])
              && InsertNonFull(t, h, k) == InsertBelow(s, h, q, k)
            else InsertNonFull(t, h, k) == InsertBelow(t, h, p, k)
  {
    var p := Slot(t.keys, k);
    if Full(t.children[p]) {
      SplitChildCorrect(t, h, p);
    }
  }

  /** Insertion into a child whose neighbouring keys enclose k. */
  lemma {:induction false} InsertIntoChild(keys: seq<int>, children: seq<Tree>, q: nat, c': Tree, k: int)
    requires |children| == |keys| + 1 && q <= |keys| && Sorted(InOrder(Node(keys, children)))
    requires IsInsertion(InOrder(children[q]), k, InOrder(c'))
    requires q > 0 ==> keys[q - 1] <= k
    requires q < |keys| ==> k <= keys[q]
    ensures IsInsertion(InOrder(Node(keys, children)), k, InOrder(Node(keys, children[q := c'])))
  {
    var cs := children[q := c'];
    Around(keys, children, q);
    Around(keys, cs, q);
    BeforeSame(keys, children, keys, cs, q);
    assert cs[q + 1..] == children[q + 1..];
    AfterSame(keys, children, q, keys, cs, q);
    var b, a := Before(keys, cs, q), After(keys, cs, q);
    assert q > 0 ==> b[|b| - 1] == keys[q - 1];
    assert q < |keys| ==> a[0] == keys[q];
    InsertInMiddle(b, InOrder(children[q]), InOrder(c'), a, k);
  }

  lemma {:induction false} ReplaceChildShape(t: Tree, h: nat, q: nat, c': Tree)
    requires Shape(t, h) && t.Node? && q < |t.children| && NonRoot(c', h - 1)
    ensures Shape(Node(t.keys, t.children[q := c']), h)
  {
  }

  lemma {:induction false} ChildSorted(t: Tree, h: nat, q: nat)
    requires Shape(t, h) && t.Node? && Sorted(InOrder(t)) && q < |t.children|
    ensures Sorted(InOrder(t.children[q]))
  {
    Around(t.keys, t.children, q);
    SortedParts(Before(t.keys, t.children, q), InOrder(t.children[q]), After(t.keys, t.children, q));
  }

  lemma {:induction false} LeafInsertCorrect(keys: seq<int>, k: int)
    requires Sorted(keys)
    ensures IsInsertion(keys, k, keys[..Slot(keys, k)] + [k] + keys[Slot(keys, k)..])
  {
    var p := Slot(keys, k);
    assert keys == keys[..p] + [] + keys[p..];
    InsertInMiddle(keys[..p], [], [k], keys[p..], k);
  }

  /** Insertion below a non-full node keeps the shape and adds exactly one occurrence of k, in order. */
  lemma {:induction false} InsertNonFullCorrect(t: Tree, h: nat, k: int)
    requires Shape(t, h) && |t.keys| < MAX_KEYS && Sorted(InOrder(t))
    ensures Shape(InsertNonFull(t, h, k), h)
    ensures |InsertNonFull(t, h, k).keys| >= |t.keys|
    ensures IsInsertion(InOrder(t), k, InOrder(InsertNonFull(t, h, k)))
    decreases h, 1
  {
    var p := Slot(t.keys, k);
    if t.Leaf? {
      LeafInsertCorrect(t.keys, k);
    } else if Full(t.children[p]) {
      SplitAndInsertCorrect(t, h, p, k);
    } else {
      InsertBelowCorrect(t, h, p, k);
    }
  }

  lemma {:induction false} SplitAndInsertCorrect(t: Tree, h: nat, p: nat, k: int)
    requires CanSplit(t, h, p) && Sorted(InOrder(t))
    requires p > 0 ==> t.keys[p - 1] <= k
    requires p < |t.keys| ==> k <= t.keys[p]
    ensures var t' := SplitChild(t, p);
            var q := if t'.keys[p] < k then p + 1 else p;
            && Shape(t', h) && !Full(t'.children[q])
            && Shape(InsertBelow(t', h, q, k), h)
            && IsInsertion(InOrder(t), k, InOrder(InsertBelow(t', h, q, k)))
    decreases h, 1, 0
  {
    SplitChildCorrect(t, h, p);
    var t' := SplitChild(t, p);
    assert p > 0 ==> t'.keys[p - 1] == t.keys[p - 1];
    assert p < |t.keys| ==> t'.keys[p + 1] == t.keys[p];
    InsertBelowCorrect(t', h, if t'.keys[p] < k then p + 1 else p, k);
  }

  lemma {:induction false} InsertBelowCorrect(t: Tree, h: nat, q: nat, k: int)
    requires Shape(t, h) && t.Node? && q < |t.children| && !Full(t.children[q]) && Sorted(InOrder(t))
    requires q > 0 ==> t.keys[q - 1] <= k
    requires q < |t.keys| ==> k <= t.keys[q]
    ensures Shape(InsertBelow(t, h, q, k), h)
    ensures IsInsertion(InOrder(t), k, InOrder(InsertBelow(t, h, q, k)))
    decreases h, 0
  {
    ChildSorted(t, h, q);
    InsertNonFullCorrect(t.children[q], h - 1, k);
    var c' := InsertNonFull(t.children[q], h - 1, k);
    ReplaceChildShape(t, h, q, c');
    InsertIntoChild(t.keys, t.children, q, c', k);
  }

  // ----- searching -----

  /** The first position whose key is not below k. */
  function LowerBound(keys: seq<int>, k: int): (p: nat)
    ensures p <= |keys|
    ensures forall j :: 0 <= j < p ==> keys[j] < k
    ensures p < |keys| ==> k <= keys[p]
  {
    if keys == [] || k <= keys[0] then 0 else 1 + LowerBound(keys[1..], k)
  }

  /** The node in which the search stops successfully, if any. */
  datatype Found = Absent | In(node: Tree)

  function Search(t: Tree, h: nat, k: int): Found
    requires Shape(t, h)
    decreases h
  {
    var p := LowerBound(t.keys, k);
    if p < |t.keys| && t.keys[p] == k then In(t)
    else if t.Leaf? then Absent
    else Search(t.children[p], h - 1, k)
  }

  /** Between two keys that enclose k strictly, only the child between them can hold k. */
  lemma {:induction false} OnlyInChild(t: Tree, p: nat, k: int)
    requires t.Node? && |t.children| == |t.keys| + 1 && Sorted(InOrder(t)) && p < |t.children|
    requires p > 0 ==> t.keys[p - 1] < k
    requires p < |t.keys| ==> k < t.keys[p]
    ensures k in InOrder(t) <==> k in InOrder(t.children[p])
  {
    Around(t.keys, t.children, p);
    var b, m, a := Before(t.keys, t.children, p), InOrder(t.children[p]), After(t.keys, t.children, p);
    assert p > 0 ==> b[|b| - 1] == t.keys[p - 1];
    assert p < |t.keys| ==> a[0] == t.keys[p];
    SortedParts(b, m, a);
    SortedBounds(b, k - 1);
    SortedBounds(a, k + 1);
    assert k - 1 in [k - 1] && k + 1 in [k + 1];
  }

  lemma {:induction false} KeyInOrder(t: Tree, h: nat, p: nat)
    requires Shape(t, h) && p < |t.keys|
    ensures t.keys[p] in InOrder(t)
  {
    if t.Node? {
      Around(t.keys, t.children, p);
      assert After(t.keys, t.children, p)[0] == t.keys[p];
    }
  }

  /** The search succeeds exactly on the keys of the tree, in a node that holds the key. */
  lemma {:induction false} SearchCorrect(t: Tree, h: nat, k: int)
    requires Shape(t, h) && Sorted(InOrder(t))
    ensures Search(t, h, k).In? <==> k in InOrder(t)
    ensures Search(t, h, k).In? ==> k in Search(t, h, k).node.keys
    decreases h
  {
    var p := LowerBound(t.keys, k);
    if p < |t.keys| && t.keys[p] == k {
      KeyInOrder(t, h, p);
    } else if t.Leaf? {
      assert forall j :: p < j < |t.keys| ==> t.keys[p] <= t.keys[j];
    } else {
      OnlyInChild(t, p, k);
      ChildSorted(t, h, p);
      SearchCorrect(t.children[p], h - 1, k);
    }
  }

  // ----- how many keys a tree of height h holds -----

  function Pow3(h: nat): nat {
    if h == 0 then 1 else 3 * Pow3(h - 1)
  }

  lemma {:induction false} BeforeCount(keys: seq<int>, children: seq<Tree>, h: nat, p: nat)
    requires |children| == |keys| + 1 && p <= |keys|
    requires forall i :: 0 <= i < |children| ==> NonRoot(children[i], h)
    ensures |Before(keys, children, p)| >= p * Pow3(h + 1)
    decreases h, 1, p
  {
    if p == 0 {
    } else {
      BeforeCount(keys, children, h, p - 1);
      KeyCount(children[p - 1], h);
      assert |InOrder(children[p - 1])| + 1 >= 3 * Pow3(h) by {
        assert (|children[p - 1].keys| + 1) * Pow3(h) >= 3 * Pow3(h);
      }
      assert p * Pow3(h + 1) == (p - 1) * Pow3(h + 1) + Pow3(h + 1);
    }
  }

  /** A node of m keys with leaves h levels below holds at least (m + 1) * 3^h - 1 keys. */
  lemma {:induction false} KeyCount(t: Tree, h: nat)
    requires Shape(t, h)
    ensures |InOrder(t)| + 1 >= (|t.keys| + 1) * Pow3(h)
    decreases h, 0
  {
    if t.Leaf? {
    } else {
      var m := |t.keys|;
      BeforeCount(t.keys, t.children, h - 1, m);
      KeyCount(t.children[m], h - 1);
      assert (|t.children[m].keys| + 1) * Pow3(h - 1) >= 3 * Pow3(h - 1);
      assert (m + 1) * Pow3(h) == m * Pow3(h) + Pow3(h);
    }
  }

  // ----- whole trees -----

  /** A tree together with its height; an index with no root is empty. */
  datatype Index = Empty | Rooted(root: Tree, height: nat)

  predicate WellFormed(x: Index) {
    x.Rooted? ==> Shape(x.root, x.height) && |x.root.keys| >= 1 && Sorted(InOrder(x.root))
  }

  function Keys(x: Index): seq<int> {
    match x
    case Empty => []
    case Rooted(root, _) => InOrder(root)
  }

  /** Splitting a full root puts a new root above its halves. */
  function GrowRoot(y: Tree): Tree
    requires Full(y) && (y.Node? ==> |y.children| == MAX_KEYS + 1)
  {
    Node([y.keys[MIN_DEGREE - 1]], [LeftHalf(y), RightHalf(y)])
  }

  lemma {:induction false} GrowRootCorrect(y: Tree, h: nat)
    requires Shape(y, h) && Full(y)
    ensures Shape(GrowRoot(y), h + 1)
    ensures InOrder(GrowRoot(y)) == InOrder(y)
    ensures GrowRoot(y) == SplitChild(Node([], [y]), 0)
    ensures !Full(GrowRoot(y).children[0]) && !Full(GrowRoot(y).children[1])
  {
    HalvesShape(y, h);
    HalvesInOrder(y);
    PairInOrder(LeftHalf(y), y.keys[MIN_DEGREE - 1], RightHalf(y));
    GrowRootIsSplit(y);
  }

  lemma {:induction false} PairInOrder(l: Tree, m: int, r: Tree)
    ensures InOrder(Node([m], [l, r])) == InOrder(l) + [m] + InOrder(r)
  {
    AroundPair([m], [l, r], 0);
    assert Before([m], [l, r], 0) == [] && After([m], [l, r], 1) == [];
  }

  lemma {:induction false} GrowRootIsSplit(y: Tree)
    requires Full(y) && (y.Node? ==> |y.children| == MAX_KEYS + 1)
    ensures GrowRoot(y) == SplitChild(Node([], [y]), 0)
  {
  }

  function Insert(x: Index, k: int): Index
    requires WellFormed(x)
  {
    match x
    case Empty => Rooted(Leaf([k]), 0)
    case Rooted(root, h) =>
      if Full(root) then
        GrowRootCorrect(root, h);
        var s := GrowRoot(root);
        Rooted(InsertBelow(s, h + 1, if s.keys[0] < k then 1 else 0, k), h + 1)
      else
        Rooted(InsertNonFull(root, h, k), h)
  }

  /** One insertion keeps the tree well formed and adds exactly one occurrence of its key. */
  lemma {:induction false} InsertCorrect(x: Index, k: int)
    requires WellFormed(x)
    ensures WellFormed(Insert(x, k)) && Insert(x, k).Rooted?
    ensures multiset(Keys(Insert(x, k))) == multiset(Keys(x)) + multiset{k}
  {
    if x.Rooted? {
      if Full(x.root) {
        GrowRootCorrect(x.root, x.height);
        var s := GrowRoot(x.root);
        InsertBelowCorrect(s, x.height + 1, if s.keys[0] < k then 1 else 0, k);
      } else {
        InsertNonFullCorrect(x.root, x.height, k);
      }
    }
  }

  function InsertAll(ks: seq<int>): (x: Index)
    ensures WellFormed(x)
  {
    if ks == [] then Empty
    else
      InsertCorrect(InsertAll(ks[..|ks| - 1]), ks[|ks| - 1]);
      Insert(InsertAll(ks[..|ks| - 1]), ks[|ks| - 1])
  }

  lemma {:induction false} LastKey(ks: seq<int>)
    requires ks != []
    ensures multiset(ks) == multiset(ks[..|ks| - 1]) + multiset{ks[|ks| - 1]}
  {
    assert ks == ks[..|ks| - 1] + [ks[|ks| - 1]];
  }

  lemma {:induction false} InsertAllKeys(ks: seq<int>)
    ensures multiset(Keys(InsertAll(ks))) == multiset(ks)
    ensures InsertAll(ks).Empty? <==> ks == []
  {
    if ks == [] {
    } else {
      var init, last := ks[..|ks| - 1], ks[|ks| - 1];
      InsertAllKeys(init);
      InsertCorrect(InsertAll(init), last);
      LastKey(ks);
    }
  }

  /**
   After any sequence of insertions, duplicates included: the traversal is the sorted
   sequence of the inserted keys, all leaves are at one depth and the key bounds hold, the
   search finds exactly the inserted keys, and the number of keys is exponential in the height.
   */
  lemma {:induction false} AnyInsertions(ks: seq<int>)
    ensures var x := InsertAll(ks);
            && (x.Empty? <==> ks == [])
            && Sorted(Keys(x)) && multiset(Keys(x)) == multiset(ks)
            && (x.Rooted? ==>
                 && Shape(x.root, x.height) && |x.root.keys| >= 1
                 && (forall k :: Search(x.root, x.height, k).In? <==> k in ks)
                 && |ks| >= 2 * Pow3(x.height) - 1)
  {
    var x := InsertAll(ks);
    InsertAllKeys(ks);
    assert |ks| == |multiset(ks)| == |multiset(Keys(x))| == |Keys(x)|;
    if x.Rooted? {
      RootCount(x);
      forall k ensures Search(x.root, x.height, k).In? <==> k in ks {
        SearchCorrect(x.root, x.height, k);
        SameElements(Keys(x), ks, k);
      }
    }
  }

  lemma {:induction false} RootCount(x: Index)
    requires WellFormed(x) && x.Rooted?
    ensures |Keys(x)| >= 2 * Pow3(x.height) - 1
  {
    KeyCount(x.root, x.height);
    assert (|x.root.keys| + 1) * Pow3(x.height) >= 2 * Pow3(x.height);
  }

  lemma {:induction false} SameElements(s: seq<int>, s': seq<int>, k: int)
    requires multiset(s) == multiset(s')
    ensures k in s <==> k in s'
  {
    assert k in s <==> k in multiset(s);
  }
}
