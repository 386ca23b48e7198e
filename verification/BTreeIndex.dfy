/**
 The B-tree index object: a root pointer, insertion that splits a full root before it descends,
 search and traversal. `inserted` is the sequence of keys given to Insert so far.
 */
module BTreeIndex {
  import opened BTreeModel
  import opened BTreeNodes

  datatype Place = Nowhere | At(cell: Cell)

  ghost function Objects(p: Place): set<object> {
    if p.At? then p.cell.objs else {}
  }

  class BTree {
    var root: BTreeNode?
    ghost var inserted: seq<int>
    ghost var index: Index
    ghost var place: Place

    ghost function Objs(): set<object>
      reads this
    {
      Objects(place)
    }

    /** The nodes below the root hold a well-formed B-tree of exactly the keys inserted so far. */
    ghost predicate Valid()
      reads this, Objs()
    {
      && WellFormed(index) && multiset(Keys(index)) == multiset(inserted)
      && this !in Objs()
      && Stored(root, place, index)
    }

    constructor ()
      ensures Valid() && inserted == [] && fresh(Objs())
    {
      root := null;
      inserted := [];
      index := Empty;
      place := Nowhere;
    }

    /** Non-null exactly for inserted keys; the node returned holds the key. */
    method Search(k: int) returns (r: BTreeNode?)
      requires Valid()
      ensures r != null <==> k in inserted
      ensures r != null ==> r.numKeys <= r.keys.Length && k in r.keys[..r.numKeys]
    {
      SameElements(Keys(index), inserted, k);
      if root == null {
        return null;
      }
      SearchCorrect(index.root, index.height, k);
      r := root.Search(k, place.cell, index.root, index.height);
    }

    /** Prints the inserted keys in ascending order, each as often as it was inserted. */
    method Traverse() returns (out: seq<int>)
      requires Valid()
      ensures Sorted(out) && multiset(out) == multiset(inserted)
    {
      out := [];
      if root != null {
        out := root.Traverse(place.cell, index.root, index.height);
      }
    }

    method Insert(k: int)
      requires Valid()
      modifies this, Objs()
      ensures Valid() && inserted == old(inserted) + [k]
      ensures fresh(Objs() - old(Objs()))
    {
      ghost var x := BTreeModel.Insert(index, k);
      InsertCorrect(index, k);
      var r, c := InsertAt(root, k, place, index);
      SetRoot(r, c, x, inserted + [k]);
    }

    method SetRoot(r: BTreeNode, ghost c: Cell, ghost x: Index, ghost ks: seq<int>)
      requires WellFormed(x) && multiset(Keys(x)) == multiset(ks)
      requires this !in c.objs && Stored(r, At(c), x)
      modifies this
      ensures Valid() && inserted == ks && Objs() == c.objs
    {
      root, place, index, inserted := r, At(c), x, ks;
    }
  }

  ghost predicate Stored(r: BTreeNode?, p: Place, x: Index)
    reads Objects(p)
  {
    && (r == null ==> x.Empty?)
    && (r != null ==> x.Rooted? && p.At? && p.cell.node == r && Tidy(p.cell) && Holds(p.cell, x.root))
  }

  method InsertAt(r: BTreeNode?, k: int, ghost p: Place, ghost x: Index) returns (s: BTreeNode, ghost c: Cell)
    requires WellFormed(x) && Stored(r, p, x)
    modifies Objects(p)
    ensures c.node == s && Tidy(c) && Holds(c, BTreeModel.Insert(x, k).root)
    ensures fresh(c.objs - Objects(p))
  {
    if r == null {
      s, c := FirstNode(k);
    } else if r.numKeys == MAX_KEYS {
      s, c := GrowAndInsert(r, k, p.cell, x.root, x.height);
    } else {
      s := r;
      ghost var t;
      c, t := r.InsertNonFull(k, p.cell, x.root, x.height);
    }
  }

  /** A one-key leaf becomes the first root. */
  method FirstNode(k: int) returns (n: BTreeNode, ghost c: Cell)
    ensures fresh(c.objs) && c.node == n && Tidy(c) && Holds(c, Leaf([k]))
  {
    n := new BTreeNode(true);
    n.keys[0] := k;
    n.numKeys := 1;
    c := MakeCell(n, []);
  }

  /** A new node without keys above a root. */
  method NodeAbove(r: BTreeNode, ghost c: Cell, ghost t: Tree) returns (s: BTreeNode, ghost c': Cell)
    requires c.node == r && Tidy(c) && Holds(c, t)
    ensures c'.node == s && Tidy(c') && Holds(c', Node([], [t]))
    ensures c'.kids == [c] && c.objs <= c'.objs && fresh(c'.objs - c.objs)
  {
    s := new BTreeNode(false);
    s.children[0] := r;
    c' := Cell(s, [c], Own(s) + c.objs);
  }

  /** A full root is split under a new root, and the key goes into one of the halves. */
  method GrowAndInsert(r: BTreeNode, k: int, ghost c: Cell, ghost t: Tree, ghost h: nat)
    returns (s: BTreeNode, ghost c': Cell)
    requires c.node == r && Tidy(c) && Holds(c, t) && WellFormed(Rooted(t, h)) && Full(t)
    modifies c.objs
    ensures c'.node == s && Tidy(c') && Holds(c', BTreeModel.Insert(Rooted(t, h), k).root)
    ensures c.objs <= c'.objs && fresh(c'.objs - c.objs)
  {
    ghost var c1;
    s, c1 := NodeAbove(r, c, t);
    GrowRootCorrect(t, h);
    ghost var t';
    c', t' := s.SplitAndInsert(0, k, c1, Node([], [t]), h + 1);
  }
}
