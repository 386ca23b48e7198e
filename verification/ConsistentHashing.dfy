/**
 The consistent-hash ring. The hash is an arbitrary function; what is proved is which keys change
 owner when nodes come and go, and that without collisions the ring depends only on who is on it.
 */
module ConsistentHashing {
  import opened Decimal
  import Sets

  datatype Node = Node(id: string)

  /** The points of the ring, each with the node it belongs to. */
  type Ring = map<nat, Node>

  datatype Option = None | Some(node: Node)

  /** The points of a node's first `n` replicas. */
  function Points(hash: string -> nat, n: nat, node: Node): set<nat> {
    if n == 0 then {} else Points(hash, n - 1, node) + {hash(node.id + ToString(n - 1))}
  }

  function Add(ring: Ring, points: set<nat>, node: Node): Ring {
    map p | p in ring.Keys + points :: if p in points then node else ring[p]
  }

  function Remove(ring: Ring, points: set<nat>): Ring {
    ring - points
  }

  // ----- owners -----

  /** The point that serves a hash: the first one from it on, or the first of all when there is none. */
  predicate Serves(points: set<nat>, h: nat, p: nat) {
    && p in points
    && (p >= h ==> forall q :: q in points && q >= h ==> p <= q)
    && (p < h ==> (forall q :: q in points ==> q < h && p <= q))
  }

  lemma {:induction false} ServesUnique(points: set<nat>, h: nat, p: nat, q: nat)
    requires Serves(points, h, p) && Serves(points, h, q)
    ensures p == q
  {
  }

  lemma {:induction false} ServesExists(points: set<nat>, h: nat) returns (p: nat)
    requires points != {}
    ensures Serves(points, h, p)
    decreases |points|
  {
    var q := Sets.Member(points);
    var rest := points - {q};
    if rest == {} {
      p := q;
      assert points == {q};
    } else {
      var r := ServesExists(rest, h);
      p := if (q >= h) == (r >= h) then (if q <= r then q else r) else if q >= h then q else r;
      assert forall x :: x in points <==> x in rest || x == q;
    }
  }

  ghost function Point(points: set<nat>, h: nat): (p: nat)
    requires points != {}
    ensures Serves(points, h, p)
  {
    ServesSome(points, h);
    var p :| Serves(points, h, p);
    p
  }

  lemma {:induction false} ServesSome(points: set<nat>, h: nat)
    requires points != {}
    ensures exists p :: Serves(points, h, p)
  {
    var p := ServesExists(points, h);
  }

  /** How far a point is from a hash, going up and from the top on to 0. */
  function Distance(h: nat, p: nat, top: nat): nat
    requires h < top && p < top
  {
    if p >= h then p - h else p + top - h
  }

  /** The point that serves a hash is the nearest one in that direction. */
  lemma {:induction false} ServesIffNearest(points: set<nat>, h: nat, p: nat, top: nat)
    requires h < top && forall q :: q in points ==> q < top
    ensures Serves(points, h, p) <==>
            p in points && forall q :: q in points ==> Distance(h, p, top) <= Distance(h, q, top)
  {
    if p in points && forall q :: q in points ==> Distance(h, p, top) <= Distance(h, q, top) {
      forall q | q in points ensures (p >= h && q >= h ==> p <= q) && (p < h ==> q < h && p <= q) {
        assert Distance(h, p, top) <= Distance(h, q, top);
      }
    }
  }

  ghost function Owner(ring: Ring, h: nat): Option {
    if ring == map[] then None else Some(ring[Point(ring.Keys, h)])
  }

  /** The owner is the node at whichever point serves the hash. */
  lemma {:induction false} OwnerAt(ring: Ring, h: nat, p: nat)
    requires Serves(ring.Keys, h, p)
    ensures Owner(ring, h) == Some(ring[p])
  {
    ServesUnique(ring.Keys, h, p, Point(ring.Keys, h));
  }

  // ----- one change -----

  /** A new node takes over exactly the keys that one of its points now serves; no key moves between old nodes. */
  lemma {:induction false} AddMovesOnlyToNew(ring: Ring, points: set<nat>, node: Node, h: nat)
    requires ring != map[]
    ensures Owner(Add(ring, points, node), h) ==
            if Point(ring.Keys + points, h) in points then Some(node) else Owner(ring, h)
  {
    var ring' := Add(ring, points, node);
    assert ring'.Keys == ring.Keys + points;
    var p := Point(ring.Keys, h);
    assert p in ring'.Keys;
    var q := Point(ring'.Keys, h);
    OwnerAt(ring', h, q);
    if q !in points {
      assert Serves(ring.Keys, h, q);
      OwnerAt(ring, h, q);
    }
  }

  /** A removal changes the owner of no key that another point than the removed ones serves. */
  lemma {:induction false} RemoveMovesOnlyServed(ring: Ring, points: set<nat>, h: nat)
    requires ring != map[] && Point(ring.Keys, h) !in points
    ensures Owner(Remove(ring, points), h) == Owner(ring, h)
  {
    var p, ring' := Point(ring.Keys, h), Remove(ring, points);
    assert p in ring'.Keys && ring'.Keys == ring.Keys - points;
    assert Serves(ring'.Keys, h, p);
    OwnerAt(ring', h, p);
    OwnerAt(ring, h, p);
  }

  /** The node's points carry no other node. */
  predicate OwnPoints(ring: Ring, points: set<nat>, node: Node) {
    forall p :: p in points && p in ring ==> ring[p] == node
  }

  lemma {:induction false} RemoveMovesOnlyOwned(ring: Ring, points: set<nat>, node: Node, h: nat)
    requires OwnPoints(ring, points, node) && Owner(ring, h) != Some(node)
    ensures Owner(Remove(ring, points), h) == Owner(ring, h)
  {
    if ring != map[] {
      RemoveMovesOnlyServed(ring, points, h);
    } else {
      assert Remove(ring, points) == map[];
    }
  }

  /** Whoever serves the first point after a hash, once that point is gone, serves the hash. */
  lemma {:induction false} ServesAfter(points: set<nat>, kept: set<nat>, h: nat, p: nat, q: nat)
    requires kept <= points && Serves(points, h, p) && Serves(kept, p, q)
    ensures Serves(kept, h, q)
  {
  }

  lemma {:induction false} OwnerAfter(ring: Ring, points: set<nat>, h: nat)
    requires ring != map[]
    ensures Owner(Remove(ring, points), h) == Owner(Remove(ring, points), Point(ring.Keys, h))
  {
    var kept, p := Remove(ring, points), Point(ring.Keys, h);
    if kept != map[] {
      var q := Point(kept.Keys, p);
      ServesAfter(ring.Keys, kept.Keys, h, p, q);
      OwnerAt(kept, h, q);
    }
  }

  /** The removal leaves every key that the node does not own where it is. */
  ghost predicate MovesNoOther(ring: Ring, points: set<nat>, node: Node) {
    forall h :: Owner(ring, h) != Some(node) ==> Owner(Remove(ring, points), h) == Owner(ring, h)
  }

  /** Each point that is taken from another node is followed, on the ring that is left, by one of the same node. */
  ghost predicate Covered(ring: Ring, points: set<nat>, node: Node) {
    forall p :: p in points && p in ring && ring[p] != node ==> Owner(Remove(ring, points), p) == Some(ring[p])
  }

  /** A removal moves no key of another node exactly when the points it takes from others, by collision, are covered. */
  lemma {:induction false} RemoveMovesNoOtherIff(ring: Ring, points: set<nat>, node: Node)
    ensures MovesNoOther(ring, points, node) <==> Covered(ring, points, node)
  {
    forall p | p in ring ensures Owner(ring, p) == Some(ring[p]) {
      assert Serves(ring.Keys, p, p);
      OwnerAt(ring, p, p);
    }
    if Covered(ring, points, node) {
      forall h | Owner(ring, h) != Some(node) ensures Owner(Remove(ring, points), h) == Owner(ring, h) {
        if ring == map[] {
          assert Remove(ring, points) == map[];
        } else if Point(ring.Keys, h) !in points {
          RemoveMovesOnlyServed(ring, points, h);
        } else {
          OwnerAt(ring, h, Point(ring.Keys, h));
          OwnerAfter(ring, points, h);
        }
      }
    }
  }

  /** Adding and then removing a node restores the ring exactly when its points were free. */
  lemma {:induction false} AddThenRemoveIff(ring: Ring, points: set<nat>, node: Node)
    ensures Remove(Add(ring, points, node), points) == ring <==> points !! ring.Keys
  {
    var ring' := Remove(Add(ring, points, node), points);
    assert ring'.Keys == ring.Keys - points;
    if points !! ring.Keys {
      assert ring' == ring;
    } else {
      var p :| p in points && p in ring.Keys;
      assert p in ring && p !in ring';
    }
  }

  // ----- any sequence of changes -----

  datatype Change = Join(node: Node) | Leave(node: Node)

  function Apply(hash: string -> nat, n: nat, ring: Ring, change: Change): Ring {
    match change
    case Join(node) => Add(ring, Points(hash, n, node), node)
    case Leave(node) => Remove(ring, Points(hash, n, node))
  }

  function Run(hash: string -> nat, n: nat, changes: seq<Change>): Ring {
    if changes == [] then map[]
    else Apply(hash, n, Run(hash, n, changes[..|changes| - 1]), changes[|changes| - 1])
  }

  /** Who has joined and not left since. */
  function Members(changes: seq<Change>): set<Node> {
    if changes == [] then {}
    else
      var before, change := Members(changes[..|changes| - 1]), changes[|changes| - 1];
      if change.Join? then before + {change.node} else before - {change.node}
  }

  predicate Mentions(changes: seq<Change>, nodes: set<Node>) {
    forall i :: 0 <= i < |changes| ==> changes[i].node in nodes
  }

  /** No two of the nodes share a point. */
  ghost predicate Apart(points: Node -> set<nat>, nodes: set<Node>) {
    forall a, b, p :: a in nodes && b in nodes && p in points(a) && p in points(b) ==> a == b
  }

  /** The ring holds exactly the points of the members. */
  ghost predicate RingOf(points: Node -> set<nat>, members: set<Node>, ring: Ring) {
    && (forall m, p :: m in members && p in points(m) ==> p in ring && ring[p] == m)
    && (forall p :: p in ring ==> ring[p] in members && p in points(ring[p]))
  }

  lemma {:induction false} JoinKeepsRingOf(points: Node -> set<nat>, members: set<Node>, ring: Ring, node: Node)
    requires RingOf(points, members, ring) && Apart(points, members + {node})
    ensures RingOf(points, members + {node}, Add(ring, points(node), node))
  {
  }

  lemma {:induction false} LeaveKeepsRingOf(points: Node -> set<nat>, members: set<Node>, ring: Ring, node: Node)
    requires RingOf(points, members, ring) && Apart(points, members + {node})
    ensures RingOf(points, members - {node}, Remove(ring, points(node)))
  {
  }

  function PointsOf(hash: string -> nat, n: nat): Node -> set<nat> {
    node => Points(hash, n, node)
  }

  lemma {:induction false} RunIsRingOfMembers(hash: string -> nat, n: nat, changes: seq<Change>, nodes: set<Node>)
    requires Mentions(changes, nodes) && Apart(PointsOf(hash, n), nodes)
    ensures Members(changes) <= nodes && RingOf(PointsOf(hash, n), Members(changes), Run(hash, n, changes))
  {
    if changes == [] {
    } else {
      var init, node := changes[..|changes| - 1], changes[|changes| - 1].node;
      RunIsRingOfMembers(hash, n, init, nodes);
      assert Apart(PointsOf(hash, n), Members(init) + {node});
      if changes[|changes| - 1].Join? {
        JoinKeepsRingOf(PointsOf(hash, n), Members(init), Run(hash, n, init), node);
      } else {
        LeaveKeepsRingOf(PointsOf(hash, n), Members(init), Run(hash, n, init), node);
      }
    }
  }

  lemma {:induction false} SameRing(points: Node -> set<nat>, members: set<Node>, a: Ring, b: Ring)
    requires RingOf(points, members, a) && RingOf(points, members, b)
    ensures a == b
  {
  }

  /** Without collisions the ring, and so every key's owner, depends only on who is on it, not on how they got there. */
  lemma {:induction false} HistoryIndependent(hash: string -> nat, n: nat, a: seq<Change>, b: seq<Change>,
                                              nodes: set<Node>)
    requires Mentions(a, nodes) && Mentions(b, nodes) && Apart(PointsOf(hash, n), nodes) && Members(a) == Members(b)
    ensures Run(hash, n, a) == Run(hash, n, b)
  {
    RunIsRingOfMembers(hash, n, a, nodes);
    RunIsRingOfMembers(hash, n, b, nodes);
    SameRing(PointsOf(hash, n), Members(a), Run(hash, n, a), Run(hash, n, b));
  }

  // ----- which ids collide -----

  lemma {:induction false} PointsAre(hash: string -> nat, n: nat, node: Node, p: nat)
    ensures p in Points(hash, n, node) <==> exists i: nat :: i < n && p == hash(node.id + ToString(i))
  {
    if n == 0 {
    } else {
      PointsAre(hash, n - 1, node, p);
    }
  }

  /** The longer id is the shorter one with a number appended that is smaller than a tenth of the replicas. */
  predicate Extends(id: string, longer: string, n: nat) {
    && |id| < |longer| && id <= longer
    && var d := longer[|id|..];
       AllDigits(d) && d[0] != '0' && 10 * ValueOf(d) < n
  }

  lemma {:induction false} NoLeadingZero(n: nat)
    ensures n > 0 ==> Digits(n)[0] != '0'
    ensures |Digits(n)| > 1 ==> n >= 10
  {
    if n < 10 {
    } else {
      NoLeadingZero(n / 10);
    }
  }

  lemma {:induction false} DigitsOfValue(d: string)
    requires d != [] && AllDigits(d) && d[0] != '0'
    ensures ValueOf(d) > 0 && Digits(ValueOf(d)) == d
  {
    var init := d[..|d| - 1];
    if init == [] {
      assert d == [DigitChar(DigitValue(d[0]))];
    } else {
      DigitsOfValue(init);
      assert d == init + [DigitChar(DigitValue(d[|d| - 1]))];
    }
  }

  lemma {:induction false} ValueIsNat(d: string)
    requires AllDigits(d)
    ensures ValueOf(d) >= 0
  {
    if d == [] {
    } else {
      ValueIsNat(d[..|d| - 1]);
    }
  }

  lemma {:induction false} AppendedValue(d: string, e: string)
    requires AllDigits(d) && AllDigits(e) && e != []
    ensures AllDigits(d + e) && ValueOf(d + e) >= 10 * ValueOf(d)
  {
    var init := e[..|e| - 1];
    assert (d + e)[..|d + e| - 1] == d + init;
    ValueIsNat(d);
    if init == [] {
      assert d + init == d;
    } else {
      AppendedValue(d, init);
    }
  }

  lemma {:induction false} NumberInFront(d: string, i: nat, j: nat)
    requires d != [] && Digits(i) == d + Digits(j)
    ensures AllDigits(d) && d[0] != '0' && 10 * ValueOf(d) <= i
  {
    assert forall k :: 0 <= k < |d| ==> d[k] == Digits(i)[k];
    NoLeadingZero(i);
    AppendedValue(d, Digits(j));
    ValueOfDigits(i);
  }

  lemma {:induction false} PrefixOf(a: string, x: string, b: string, y: string)
    requires a + x == b + y && |a| < |b|
    ensures a <= b && x == b[|a|..] + y
  {
    var s := a + x;
    assert a == s[..|a|] && b == s[..|b|] && x == s[|a|..];
  }

  /** One id and a number give the same string as another id and a number. */
  lemma {:induction false} SameString(id: string, i: nat, longer: string, j: nat, n: nat)
    requires id + ToString(i) == longer + ToString(j) && |id| < |longer| && i < n
    ensures Extends(id, longer, n)
  {
    PrefixOf(id, ToString(i), longer, ToString(j));
    NumberInFront(longer[|id|..], i, j);
  }

  /** Under every hash, an id and the same id extended by a small number share a point. */
  lemma {:induction false} ExtendedIdsCollide(hash: string -> nat, n: nat, a: Node, b: Node) returns (p: nat)
    requires Extends(a.id, b.id, n)
    ensures p in Points(hash, n, a) && p in Points(hash, n, b)
  {
    var d := b.id[|a.id|..];
    DigitsOfValue(d);
    var i: nat := 10 * ValueOf(d);
    assert Digits(i) == d + ['0'];
    assert ToString(0) == ['0'];
    assert b.id + ToString(0) == a.id + ToString(i);
    p := hash(a.id + ToString(i));
    PointsAre(hash, n, a, p);
    PointsAre(hash, n, b, p);
  }

  ghost predicate Injective(hash: string -> nat) {
    forall s, t :: hash(s) == hash(t) ==> s == t
  }

  /** Under a hash without collisions two nodes share a point exactly when one id so extends the other. */
  lemma {:induction false} PointsMeetIff(hash: string -> nat, n: nat, a: Node, b: Node)
    requires Injective(hash) && a != b
    ensures Points(hash, n, a) !! Points(hash, n, b) <==> !Extends(a.id, b.id, n) && !Extends(b.id, a.id, n)
  {
    if Extends(a.id, b.id, n) {
      var p := ExtendedIdsCollide(hash, n, a, b);
    } else if Extends(b.id, a.id, n) {
      var p := ExtendedIdsCollide(hash, n, b, a);
    } else {
      forall p | p in Points(hash, n, a) ensures p !in Points(hash, n, b) {
        if p in Points(hash, n, b) {
          SharedPoint(hash, n, a, b, p);
        }
      }
    }
  }

  lemma {:induction false} SharedPoint(hash: string -> nat, n: nat, a: Node, b: Node, p: nat)
    requires Injective(hash) && a != b && p in Points(hash, n, a) && p in Points(hash, n, b)
    ensures Extends(a.id, b.id, n) || Extends(b.id, a.id, n)
  {
    PointsAre(hash, n, a, p);
    PointsAre(hash, n, b, p);
    var i: nat :| i < n && p == hash(a.id + ToString(i));
    var j: nat :| j < n && p == hash(b.id + ToString(j));
    var s, t := a.id + ToString(i), b.id + ToString(j);
    assert s == t && a.id == s[..|a.id|] && b.id == t[..|b.id|];
    if |a.id| < |b.id| {
      SameString(a.id, i, b.id, j, n);
    } else if |b.id| < |a.id| {
      SameString(b.id, j, a.id, i, n);
    }
  }

  lemma {:induction false} ExtendedNotApart(hash: string -> nat, n: nat, nodes: set<Node>, a: Node, b: Node)
    requires a in nodes && b in nodes && Extends(a.id, b.id, n)
    ensures !Apart(PointsOf(hash, n), nodes)
  {
    var p := ExtendedIdsCollide(hash, n, a, b);
    assert p in PointsOf(hash, n)(a) && p in PointsOf(hash, n)(b);
  }

  /** So a set of nodes is free of collisions exactly when no id in it so extends another. */
  lemma {:induction false} ApartIff(hash: string -> nat, n: nat, nodes: set<Node>)
    requires Injective(hash)
    ensures Apart(PointsOf(hash, n), nodes) <==>
            forall a, b :: a in nodes && b in nodes ==> !Extends(a.id, b.id, n)
  {
    forall a, b | a in nodes && b in nodes && Extends(a.id, b.id, n) ensures !Apart(PointsOf(hash, n), nodes) {
      ExtendedNotApart(hash, n, nodes, a, b);
    }
    forall a, b, p | a in nodes && b in nodes && a != b && p in Points(hash, n, a) && p in Points(hash, n, b)
      ensures Extends(a.id, b.id, n) || Extends(b.id, a.id, n)
    {
      SharedPoint(hash, n, a, b, p);
    }
  }

  /** Two nodes can be added in either order exactly when they do not collide. */
  lemma {:induction false} AddsCommuteIff(ring: Ring, a: Node, pa: set<nat>, b: Node, pb: set<nat>)
    requires a != b
    ensures Add(Add(ring, pa, a), pb, b) == Add(Add(ring, pb, b), pa, a) <==> pa !! pb
  {
    var ab, ba := Add(Add(ring, pa, a), pb, b), Add(Add(ring, pb, b), pa, a);
    if pa !! pb {
      assert ab == ba;
    } else {
      var p :| p in pa && p in pb;
      assert ab[p] == b && ba[p] == a;
    }
  }

  // ----- the ring object -----

  class HashRing {
    var hashRing: Ring
    const numReplicas: nat
    const hash: string -> nat
    ghost var changes: seq<Change>

    ghost predicate Valid()
      reads this
    {
      hashRing == Run(hash, numReplicas, changes)
    }

    constructor (replicas: nat, hashFunction: string -> nat)
      ensures Valid() && changes == [] && numReplicas == replicas && hash == hashFunction
    {
      hashRing, numReplicas, hash, changes := map[], replicas, hashFunction, [];
    }

    ghost method Record(change: Change)
      requires hashRing == Apply(hash, numReplicas, Run(hash, numReplicas, changes), change)
      modifies this`changes
      ensures Valid() && changes == old(changes) + [change]
    {
      assert (changes + [change])[..|changes|] == changes;
      changes := changes + [change];
    }

    method AddNode(node: Node)
      requires Valid()
      modifies this
      ensures Valid() && changes == old(changes) + [Join(node)]
    {
      for i := 0 to numReplicas
        invariant hashRing == Add(old(hashRing), Points(hash, i, node), node) && changes == old(changes)
      {
        hashRing := hashRing[hash(node.id + ToString(i)) := node];
      }
      Record(Join(node));
    }

    method RemoveNode(node: Node)
      requires Valid()
      modifies this
      ensures Valid() && changes == old(changes) + [Leave(node)]
    {
      for i := 0 to numReplicas
        invariant hashRing == Remove(old(hashRing), Points(hash, i, node)) && changes == old(changes)
      {
        hashRing := hashRing - {hash(node.id + ToString(i))};
      }
      Record(Leave(node));
    }

    /** The first point from a hash on, or the first of all; the ring is not empty. */
    method FindPoint(h: nat) returns (p: nat)
      requires hashRing != map[]
      ensures Serves(hashRing.Keys, h, p)
    {
      var rest := hashRing.Keys;
      p := Sets.AnyOf(rest);
      rest := rest - {p};
      while rest != {}
        invariant rest <= hashRing.Keys && Serves(hashRing.Keys - rest, h, p)
      {
        var q := Sets.AnyOf(rest);
        ghost var seen := hashRing.Keys - rest;
        assert hashRing.Keys - (rest - {q}) == seen + {q};
        if if (q >= h) == (p >= h) then q < p else q >= h {
          p := q;
        }
        rest := rest - {q};
      }
      assert hashRing.Keys - rest == hashRing.Keys;
    }

    method GetNode(key: string) returns (owner: Option)
      ensures owner == Owner(hashRing, hash(key))
    {
      if hashRing == map[] {
        return None;
      }
      var p := FindPoint(hash(key));
      OwnerAt(hashRing, hash(key), p);
      owner := Some(hashRing[p]);
    }
  }
}
