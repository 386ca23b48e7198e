/**
 Deadlock detection by depth-first search over the wait-for graph. The graph is any finite
 map from transactions to the transactions they wait for; nothing is assumed about how it
 was built. The search keeps the sets `visited` and `recStack` of the source; the stack
 as a path and the order in which transactions were finished are kept as proof data.
 */
module DeadlockDetection {
  import opened Sets

  type Graph = map<int, set<int>>

  predicate Edge(g: Graph, a: int, b: int) {
    a in g && b in g[a]
  }

  predicate IsPath(g: Graph, p: seq<int>) {
    forall i :: 0 <= i < |p| - 1 ==> Edge(g, p[i], p[i + 1])
  }

  lemma {:induction false} PathTail(g: Graph, p: seq<int>, n: nat)
    requires IsPath(g, p) && n <= |p|
    ensures IsPath(g, p[n..])
  {
    var q := p[n..];
    forall i | 0 <= i < |q| - 1 ensures Edge(g, q[i], q[i + 1]) {
      assert Edge(g, p[n + i], p[n + i + 1]);
    }
  }

  lemma {:induction false} PathAppend(g: Graph, p: seq<int>, b: int)
    requires IsPath(g, p) && (p != [] ==> Edge(g, p[|p| - 1], b))
    ensures IsPath(g, p + [b])
  {
    var q := p + [b];
    forall i | 0 <= i < |q| - 1 ensures Edge(g, q[i], q[i + 1]) {
      if i < |p| - 1 {
        assert Edge(g, p[i], p[i + 1]);
      }
    }
  }

  /** A walk along at least one edge that ends where it starts. */
  predicate IsCycle(g: Graph, p: seq<int>) {
    |p| >= 2 && p[0] == p[|p| - 1] && IsPath(g, p)
  }

  ghost predicate HasCycle(g: Graph) {
    exists p :: IsCycle(g, p)
  }

  ghost function Nodes(g: Graph): set<int> {
    g.Keys + set a, b | a in g && b in g[a] :: b
  }

  // ----- finished transactions are in an order that every edge descends -----

  ghost predicate Topological(g: Graph, order: seq<int>) {
    forall i, w :: 0 <= i < |order| && Edge(g, order[i], w) ==> w in order[..i]
  }

  lemma {:induction false} PathDescends(g: Graph, order: seq<int>, p: seq<int>, k: nat) returns (k': nat)
    requires Topological(g, order) && IsPath(g, p) && |p| >= 2 && k < |order| && order[k] == p[0]
    ensures k' < k && order[k'] == p[|p| - 1]
    decreases |p|
  {
    assert Edge(g, order[k], p[1]);
    k' :| 0 <= k' < k && order[..k][k'] == p[1];
    if |p| > 2 {
      PathTail(g, p, 1);
      k' := PathDescends(g, order, p[1..], k');
    }
  }

  lemma {:induction false} NoCycleInOrder(g: Graph, order: seq<int>, p: seq<int>, k: nat)
    requires Topological(g, order) && |p| >= 2 && k < |order| && order[k] == p[0]
    ensures !IsCycle(g, p)
    decreases k
  {
    if IsCycle(g, p) {
      var k' := PathDescends(g, order, p, k);
      NoCycleInOrder(g, order, p, k');
    }
  }

  /** If every transaction that waits for anything is in such an order, there is no cycle. */
  lemma {:induction false} OrderedGraphHasNoCycle(g: Graph, order: seq<int>)
    requires Topological(g, order) && forall t :: t in g ==> t in order
    ensures !HasCycle(g)
  {
    forall p | |p| >= 2 ensures !IsCycle(g, p) {
      if IsCycle(g, p) {
        assert Edge(g, p[0], p[1]);
        var k :| 0 <= k < |order| && order[k] == p[0];
        NoCycleInOrder(g, order, p, k);
      }
    }
  }

  // ----- the state of the search -----

  ghost function Elements(s: seq<int>): set<int> {
    set x | x in s
  }

  /** The recursion stack is a path without repetitions; what is visited and not on it is finished. */
  ghost predicate SearchInv(g: Graph, visited: set<int>, recStack: set<int>, stack: seq<int>, order: seq<int>) {
    && IsPath(g, stack) && recStack == Elements(stack)
    && (forall i, j :: 0 <= i < j < |stack| ==> stack[i] != stack[j])
    && visited == recStack + Elements(order) && recStack !! Elements(order)
    && Topological(g, order)
  }

  /** The search is entered at a node from the top of the stack. */
  ghost predicate Entered(g: Graph, stack: seq<int>, txn: int) {
    stack != [] ==> Edge(g, stack[|stack| - 1], txn)
  }

  lemma {:induction false} CycleOnStack(g: Graph, stack: seq<int>, txn: int)
    requires IsPath(g, stack) && Entered(g, stack, txn) && txn in stack
    ensures HasCycle(g)
  {
    var i :| 0 <= i < |stack| && stack[i] == txn;
    var tail := stack[i..];
    PathTail(g, stack, i);
    PathAppend(g, tail, txn);
    assert IsCycle(g, tail + [txn]);
  }

  lemma {:induction false} Push(g: Graph, visited: set<int>, recStack: set<int>, stack: seq<int>, order: seq<int>,
                                txn: int)
    requires SearchInv(g, visited, recStack, stack, order) && Entered(g, stack, txn) && txn !in visited
    ensures SearchInv(g, visited + {txn}, recStack + {txn}, stack + [txn], order)
  {
    var stack' := stack + [txn];
    assert Elements(stack') == Elements(stack) + {txn};
    PathAppend(g, stack, txn);
  }

  lemma {:induction false} Pop(g: Graph, visited: set<int>, recStack: set<int>, stack: seq<int>, order: seq<int>,
                               txn: int)
    requires txn !in recStack && txn !in order
    requires SearchInv(g, visited, recStack + {txn}, stack + [txn], order)
    requires forall w :: Edge(g, txn, w) ==> w in order
    ensures SearchInv(g, visited, recStack, stack, order + [txn])
  {
    var stack' := stack + [txn];
    assert forall i :: 0 <= i < |stack| ==> stack'[i] == stack[i];
    assert txn !in stack by {
      assert stack'[|stack|] == txn;
    }
    assert Elements(stack') == Elements(stack) + {txn};
    assert Elements(order + [txn]) == Elements(order) + {txn};
    TopologicalAppend(g, order, txn);
  }

  lemma {:induction false} TopologicalAppend(g: Graph, order: seq<int>, txn: int)
    requires Topological(g, order) && forall w :: Edge(g, txn, w) ==> w in order
    ensures Topological(g, order + [txn])
  {
    var order' := order + [txn];
    forall i, w | 0 <= i < |order'| && Edge(g, order'[i], w) ensures w in order'[..i] {
      if i < |order| {
        assert order'[..i] == order[..i] && order'[i] == order[i];
      } else {
        assert order'[..i] == order;
      }
    }
  }

  // ----- the search -----

  /** The part of the transaction manager that holds the wait-for graph. */
  class WaitForGraph {
    var graph: Graph

    constructor ()
      ensures graph == map[]
    {
      graph := map[];
    }

    /**
     The recursive search. A true answer means a cycle was closed; after a false answer the
     recursion stack is as it was and the transaction and all it can reach are finished.
     */
    method Dfs(txn: int, visited0: set<int>, recStack0: set<int>, ghost stack: seq<int>, ghost order0: seq<int>)
      returns (found: bool, visited: set<int>, recStack: set<int>, ghost order: seq<int>)
      requires SearchInv(graph, visited0, recStack0, stack, order0)
      requires Entered(graph, stack, txn) && txn in Nodes(graph)
      ensures found ==> HasCycle(graph)
      ensures !found ==> SearchInv(graph, visited, recStack, stack, order)
      ensures !found ==> recStack == recStack0 && visited0 <= visited && txn in order
      ensures !found ==> Elements(order0) <= Elements(order)
      decreases Nodes(graph) - visited0
    {
      found, visited, recStack, order := false, visited0, recStack0, order0;
      if txn in recStack {
        CycleOnStack(graph, stack, txn);
        return true, visited, recStack, order;
      }
      if txn in visited {
        return;
      }
      Push(graph, visited, recStack, stack, order, txn);
      visited := visited + {txn};
      recStack := recStack + {txn};
      if txn in graph {
        var todo := graph[txn];
        while todo != {}
          invariant todo <= graph[txn]
          invariant SearchInv(graph, visited, recStack, stack + [txn], order)
          invariant recStack == recStack0 + {txn} && visited0 + {txn} <= visited
          invariant Elements(order0) <= Elements(order)
          invariant forall w :: w in graph[txn] - todo ==> w in order
          decreases todo
        {
          var waitingFor := AnyOf(todo);
          assert Entered(graph, stack + [txn], waitingFor);
          assert visited0 < visited by { assert txn in visited && txn !in visited0; }
          ghost var before := order;
          found, visited, recStack, order := Dfs(waitingFor, visited, recStack, stack + [txn], order);
          if found {
            return;
          }
          assert forall w :: w in before ==> w in order by {
            assert forall w :: w in before ==> w in Elements(before);
          }
          todo := todo - {waitingFor};
        }
      }
      assert txn !in order by { assert txn in recStack; }
      Pop(graph, visited, recStack0, stack, order, txn);
      recStack := recStack - {txn};
      assert Elements(order + [txn]) == Elements(order) + {txn};
      order := order + [txn];
      assert recStack == recStack0;
    }

    /** Starts a search from every transaction that waits; true exactly when the graph has a cycle. */
    method DetectDeadlock() returns (deadlock: bool)
      ensures deadlock <==> HasCycle(graph)
    {
      var visited, recStack := {}, {};
      ghost var order: seq<int> := [];
      var todo := graph.Keys;
      while todo != {}
        invariant todo <= graph.Keys
        invariant SearchInv(graph, visited, recStack, [], order) && recStack == {}
        invariant forall t :: t in graph.Keys - todo ==> t in order
        decreases todo
      {
        var txn := AnyOf(todo);
        ghost var before := order;
        if txn !in visited {
          var found;
          found, visited, recStack, order := Dfs(txn, visited, recStack, [], order);
          if found {
            return true;
          }
          assert forall w :: w in before ==> w in order by {
            assert forall w :: w in before ==> w in Elements(before);
          }
        } else {
          assert txn in Elements(order);
        }
        todo := todo - {txn};
      }
      OrderedGraphHasNoCycle(graph, order);
      return false;
    }

    /** Removes a transaction from the graph, as the release of its locks does. */
    method RemoveTransaction(txn: int)
      modifies this
      ensures graph == Without(old(graph), txn)
    {
      graph := graph - {txn};
      graph := map t | t in graph :: graph[t] - {txn};
    }

    /** Adds one edge, creating the waiting transaction's entry if there is none. */
    method AddWait(txn: int, other: int)
      modifies this
      ensures graph == WithWaits(old(graph), txn, {other})
      ensures forall a, b :: Edge(graph, a, b) <==> Edge(old(graph), a, b) || (a == txn && b == other)
    {
      if txn !in graph {
        graph := graph[txn := {}];
      }
      graph := graph[txn := graph[txn] + {other}];
    }
  }

  function WithWaits(g: Graph, txn: int, others: set<int>): Graph {
    if others == {} then g else g[txn := (if txn in g then g[txn] else {}) + others]
  }

  lemma {:induction false} WaitsTwice(g: Graph, txn: int, some: set<int>, more: set<int>)
    ensures WithWaits(WithWaits(g, txn, some), txn, more) == WithWaits(g, txn, some + more)
  {
    var before := if txn in g then g[txn] else {};
    if some == {} {
      assert some + more == more;
    } else if more == {} {
      assert some + more == some;
    } else {
      assert before + some + more == before + (some + more);
      assert g[txn := before + some][txn := before + some + more] == g[txn := before + (some + more)];
    }
  }

  /** The cycle from its i-th transaction on. */
  function Rotated(c: seq<int>, i: nat): (r: seq<int>)
    requires i < |c| - 1
    ensures |r| == |c|
    ensures forall k :: 0 <= k < |c| - i ==> r[k] == c[i + k]
    ensures forall k :: |c| - i <= k < |c| ==> r[k] == c[i + k - (|c| - 1)]
  {
    c[i..] + c[1..i + 1]
  }

  lemma {:induction false} RotateCycle(g: Graph, c: seq<int>, i: nat)
    requires IsCycle(g, c) && i < |c| - 1
    ensures IsCycle(g, Rotated(c, i)) && Rotated(c, i)[0] == c[i] && Rotated(c, i)[1] == c[i + 1]
  {
    var r := Rotated(c, i);
    forall k | 0 <= k < |r| - 1 ensures Edge(g, r[k], r[k + 1]) {
      var n := if i + k < |c| - 1 then i + k else i + k - (|c| - 1);
      assert r[k] == c[n] && r[k + 1] == c[n + 1];
      assert Edge(g, c[n], c[n + 1]);
    }
  }

  /** Up to where it first comes to the transaction, a walk uses none of its edges. */
  lemma {:induction false} FirstReturn(g: Graph, txn: int, others: set<int>, q: seq<int>) returns (p: seq<int>)
    requires q != [] && q[|q| - 1] == txn && IsPath(WithWaits(g, txn, others), q)
    ensures p != [] && p[0] == q[0] && p[|p| - 1] == txn && IsPath(g, p)
  {
    if q[0] == txn {
      p := [txn];
    } else {
      PathTail(WithWaits(g, txn, others), q, 1);
      var rest := FirstReturn(g, txn, others, q[1..]);
      p := [q[0]] + rest;
      assert Edge(WithWaits(g, txn, others), q[0], q[1]);
      forall i | 0 <= i < |p| - 1 ensures Edge(g, p[i], p[i + 1]) {
        if i > 0 {
          assert Edge(g, rest[i - 1], rest[i]);
        }
      }
    }
  }

  /** One of the others leads, along edges of the graph, to the transaction. */
  ghost predicate LeadsBack(g: Graph, txn: int, others: set<int>) {
    exists p :: p != [] && p[0] in others && p[|p| - 1] == txn && IsPath(g, p)
  }

  lemma {:induction false} CycleLeadsBack(g: Graph, txn: int, others: set<int>, c: seq<int>)
    requires IsCycle(WithWaits(g, txn, others), c) && !IsCycle(g, c)
    ensures LeadsBack(g, txn, others)
  {
    var g' := WithWaits(g, txn, others);
    var i :| 0 <= i < |c| - 1 && !Edge(g, c[i], c[i + 1]);
    assert Edge(g', c[i], c[i + 1]);
    RotateCycle(g', c, i);
    var r := Rotated(c, i);
    PathTail(g', r, 1);
    var p := FirstReturn(g, txn, others, r[1..]);
  }

  lemma {:induction false} WaitsKeepPaths(g: Graph, txn: int, others: set<int>, p: seq<int>)
    requires IsPath(g, p)
    ensures IsPath(WithWaits(g, txn, others), p)
  {
    forall i | 0 <= i < |p| - 1 ensures Edge(WithWaits(g, txn, others), p[i], p[i + 1]) {
      assert Edge(g, p[i], p[i + 1]);
    }
  }

  lemma {:induction false} LeadingBackCloses(g: Graph, txn: int, others: set<int>, p: seq<int>)
    requires p != [] && p[0] in others && p[|p| - 1] == txn && IsPath(g, p)
    ensures IsCycle(WithWaits(g, txn, others), [txn] + p)
  {
    var g', c := WithWaits(g, txn, others), [txn] + p;
    WaitsKeepPaths(g, txn, others, p);
    forall i | 0 <= i < |c| - 1 ensures Edge(g', c[i], c[i + 1]) {
      if i > 0 {
        assert Edge(g', p[i - 1], p[i]);
      }
    }
  }

  /**
   Recording waits leaves a deadlock exactly when there was one, or one of those waited for already
   waits, directly or through others, for the transaction.
   */
  lemma {:induction false} WaitsCloseCycleIff(g: Graph, txn: int, others: set<int>)
    ensures HasCycle(WithWaits(g, txn, others)) <==> HasCycle(g) || LeadsBack(g, txn, others)
  {
    var g' := WithWaits(g, txn, others);
    if HasCycle(g') && !HasCycle(g) {
      var c :| IsCycle(g', c);
      CycleLeadsBack(g, txn, others, c);
    }
    if HasCycle(g) {
      var c :| IsCycle(g, c);
      WaitsKeepPaths(g, txn, others, c);
      assert IsCycle(g', c);
    }
    if LeadsBack(g, txn, others) {
      var p :| p != [] && p[0] in others && p[|p| - 1] == txn && IsPath(g, p);
      LeadingBackCloses(g, txn, others, p);
    }
  }

  function Without(g: Graph, txn: int): Graph {
    map t | t in g && t != txn :: g[t] - {txn}
  }

  /** Removing a transaction breaks the cycles through it and no other. */
  lemma {:induction false} RemovalBreaksItsCycles(g: Graph, txn: int)
    ensures HasCycle(Without(g, txn)) <==> exists p :: IsCycle(g, p) && txn !in p
  {
    var g' := Without(g, txn);
    forall p | IsCycle(g', p) ensures IsCycle(g, p) && txn !in p {
      forall i | 0 <= i < |p| ensures p[i] != txn {
        if i < |p| - 1 {
          assert Edge(g', p[i], p[i + 1]);
        } else {
          assert Edge(g', p[0], p[1]);
        }
      }
      forall i | 0 <= i < |p| - 1 ensures Edge(g, p[i], p[i + 1]) {
        assert Edge(g', p[i], p[i + 1]);
      }
    }
    forall p | IsCycle(g, p) && txn !in p ensures IsCycle(g', p) {
      forall i | 0 <= i < |p| - 1 ensures Edge(g', p[i], p[i + 1]) {
        assert Edge(g, p[i], p[i + 1]);
      }
    }
  }
}
