/**
 The three join algorithms. Rows are generic in their value, so that the plan component can
 join rows that come from joins. The sequence-valued functions give what each algorithm emits,
 in order; the lemmas relate them to each other and to per-id reference definitions.
 */
module JoinAlgorithms {

  datatype Row<V> = Row(id: int, value: V)
  datatype JoinedRow<L, R> = JoinedRow(id: int, leftValue: L, rightValue: R)

  // ----- nested loop join -----

  function MatchesOf<L, R>(x: Row<L>, right: seq<Row<R>>): seq<JoinedRow<L, R>> {
    if right == [] then []
    else
      var y := right[|right| - 1];
      MatchesOf(x, right[..|right| - 1]) + if x.id == y.id then [JoinedRow(x.id, x.value, y.value)] else []
  }

  function NestedLoop<L, R>(left: seq<Row<L>>, right: seq<Row<R>>): seq<JoinedRow<L, R>> {
    if left == [] then [] else NestedLoop(left[..|left| - 1], right) + MatchesOf(left[|left| - 1], right)
  }

  lemma {:induction false} MatchesMultiplicity<L, R>(x: Row<L>, right: seq<Row<R>>, j: JoinedRow<L, R>)
    ensures multiset(MatchesOf(x, right))[j] ==
            if x == Row(j.id, j.leftValue) then multiset(right)[Row(j.id, j.rightValue)] else 0
  {
    if right == [] {
    } else {
      assert right == right[..|right| - 1] + [right[|right| - 1]];
      MatchesMultiplicity(x, right[..|right| - 1], j);
    }
  }

  function Times(a: nat, b: nat): nat {
    if a == 0 then 0 else Times(a - 1, b) + b
  }

  lemma {:induction false} TimesIsProduct(a: nat, b: nat)
    ensures Times(a, b) == a * b
  {
    if a == 0 {
    } else {
      TimesIsProduct(a - 1, b);
    }
  }

  lemma {:induction false} NestedLoopOneMore<L, R>(init: seq<Row<L>>, x: Row<L>, right: seq<Row<R>>, j: JoinedRow<L, R>)
    ensures multiset(NestedLoop(init + [x], right))[j] == multiset(NestedLoop(init, right))[j] +
            (if x == Row(j.id, j.leftValue) then multiset(right)[Row(j.id, j.rightValue)] else 0)
  {
    assert (init + [x])[..|init|] == init;
    MatchesMultiplicity(x, right, j);
    ConcatMultiplicity(NestedLoop(init, right), MatchesOf(x, right), j);
  }

  lemma {:induction false} OneMore<T>(init: seq<T>, x: T, y: T)
    ensures multiset(init + [x])[y] == multiset(init)[y] + (if x == y then 1 else 0)
  {
  }

  lemma {:induction false} TimesStep(total: nat, a: nat, n: nat, hit: bool, total': nat, a': nat)
    requires total == Times(a, n) && a' == a + (if hit then 1 else 0) && total' == total + (if hit then n else 0)
    ensures total' == Times(a', n)
  {
  }

  lemma {:induction false} NestedLoopTimes<L, R>(left: seq<Row<L>>, right: seq<Row<R>>, j: JoinedRow<L, R>)
    ensures multiset(NestedLoop(left, right))[j] ==
            Times(multiset(left)[Row(j.id, j.leftValue)], multiset(right)[Row(j.id, j.rightValue)])
  {
    var l, n := Row(j.id, j.leftValue), multiset(right)[Row(j.id, j.rightValue)];
    var total, a := multiset(NestedLoop(left, right))[j], multiset(left)[l];
    if left == [] {
      assert total == 0 && a == 0;
    } else {
      var init, x := left[..|left| - 1], left[|left| - 1];
      assert left == init + [x];
      NestedLoopTimes(init, right, j);
      NestedLoopOneMore(init, x, right, j);
      OneMore(init, x, l);
      TimesStep(multiset(NestedLoop(init, right))[j], multiset(init)[l], n, x == l, total, a);
    }
  }

  /**
   The nested loop join is the equi-join of the two tables as bags: a joined row occurs as often
   as its left part in the left table times its right part in the right table.
   */
  lemma {:induction false} NestedLoopMultiplicity<L, R>(left: seq<Row<L>>, right: seq<Row<R>>, j: JoinedRow<L, R>)
    ensures multiset(NestedLoop(left, right))[j] ==
            multiset(left)[Row(j.id, j.leftValue)] * multiset(right)[Row(j.id, j.rightValue)]
  {
    NestedLoopTimes(left, right, j);
    TimesIsProduct(multiset(left)[Row(j.id, j.leftValue)], multiset(right)[Row(j.id, j.rightValue)]);
  }

  lemma {:induction false} ConcatMultiplicity<T>(a: seq<T>, b: seq<T>, x: T)
    ensures multiset(a + b)[x] == multiset(a)[x] + multiset(b)[x]
  {
  }

  // ----- hash join -----

  /** The hash table: a later row replaces an earlier row of the same id. */
  function Table<R>(right: seq<Row<R>>): map<int, R> {
    if right == [] then map[] else Table(right[..|right| - 1])[right[|right| - 1].id := right[|right| - 1].value]
  }

  function Probe<L, R>(x: Row<L>, table: map<int, R>): seq<JoinedRow<L, R>> {
    if x.id in table then [JoinedRow(x.id, x.value, table[x.id])] else []
  }

  function ProbeAll<L, R>(left: seq<Row<L>>, table: map<int, R>): seq<JoinedRow<L, R>> {
    if left == [] then [] else ProbeAll(left[..|left| - 1], table) + Probe(left[|left| - 1], table)
  }

  function Hash<L, R>(left: seq<Row<L>>, right: seq<Row<R>>): seq<JoinedRow<L, R>> {
    ProbeAll(left, Table(right))
  }

  function DropId<V>(rows: seq<Row<V>>, id: int): seq<Row<V>> {
    if rows == [] then []
    else DropId(rows[..|rows| - 1], id) + if rows[|rows| - 1].id == id then [] else [rows[|rows| - 1]]
  }

  /** The right table reduced to its last row per id. */
  function LastPerId<V>(rows: seq<Row<V>>): seq<Row<V>> {
    if rows == [] then []
    else DropId(LastPerId(rows[..|rows| - 1]), rows[|rows| - 1].id) + [rows[|rows| - 1]]
  }

  lemma {:induction false} MatchesAppend<L, R>(x: Row<L>, right: seq<Row<R>>, y: Row<R>)
    ensures MatchesOf(x, right + [y]) ==
            MatchesOf(x, right) + if x.id == y.id then [JoinedRow(x.id, x.value, y.value)] else []
  {
    assert (right + [y])[..|right|] == right;
  }

  lemma {:induction false} MatchesWithoutId<L, R>(x: Row<L>, right: seq<Row<R>>, id: int)
    ensures MatchesOf(x, DropId(right, id)) == if x.id == id then [] else MatchesOf(x, right)
  {
    if right == [] {
    } else {
      var init, y := right[..|right| - 1], right[|right| - 1];
      MatchesWithoutId(x, init, id);
      if y.id != id {
        MatchesAppend(x, DropId(init, id), y);
      } else {
        assert DropId(init, id) + [] == DropId(init, id);
      }
    }
  }

  /** A probe of the table finds what a scan of the reduced table finds. */
  lemma {:induction false} ProbeIsScan<L, R>(x: Row<L>, right: seq<Row<R>>)
    ensures Probe(x, Table(right)) == MatchesOf(x, LastPerId(right))
  {
    if right == [] {
    } else {
      var init, y := right[..|right| - 1], right[|right| - 1];
      ProbeIsScan(x, init);
      MatchesWithoutId(x, LastPerId(init), y.id);
      MatchesAppend(x, DropId(LastPerId(init), y.id), y);
    }
  }

  /** The hash join is the nested loop join with the right table reduced to its last row per id. */
  lemma {:induction false} HashIsNestedLoopOfLast<L, R>(left: seq<Row<L>>, right: seq<Row<R>>)
    ensures Hash(left, right) == NestedLoop(left, LastPerId(right))
  {
    if left == [] {
    } else {
      HashIsNestedLoopOfLast(left[..|left| - 1], right);
      ProbeIsScan(left[|left| - 1], right);
    }
  }

  predicate UniqueIds<V>(rows: seq<Row<V>>) {
    forall i, j :: 0 <= i < j < |rows| ==> rows[i].id != rows[j].id
  }

  lemma {:induction false} DropAbsentId<V>(rows: seq<Row<V>>, id: int)
    requires forall i :: 0 <= i < |rows| ==> rows[i].id != id
    ensures DropId(rows, id) == rows
  {
    if rows == [] {
    } else {
      DropAbsentId(rows[..|rows| - 1], id);
      assert rows == rows[..|rows| - 1] + [rows[|rows| - 1]];
    }
  }

  lemma {:induction false} LastPerUniqueId<V>(rows: seq<Row<V>>)
    requires UniqueIds(rows)
    ensures LastPerId(rows) == rows
  {
    if rows == [] {
    } else {
      LastPerUniqueId(rows[..|rows| - 1]);
      DropAbsentId(rows[..|rows| - 1], rows[|rows| - 1].id);
      assert rows == rows[..|rows| - 1] + [rows[|rows| - 1]];
    }
  }

  // ----- merge join -----

  predicate SortedById<V>(rows: seq<Row<V>>) {
    forall i, j :: 0 <= i < j < |rows| ==> rows[i].id <= rows[j].id
  }

  /** What the merge of two sorted tables emits. */
  function Merge<L, R>(left: seq<Row<L>>, right: seq<Row<R>>): seq<JoinedRow<L, R>>
    decreases |left| + |right|
  {
    if left == [] || right == [] then []
    else if left[0].id == right[0].id then
      [JoinedRow(left[0].id, left[0].value, right[0].value)] + Merge(left[1..], right[1..])
    else if left[0].id < right[0].id then Merge(left[1..], right)
    else Merge(left, right[1..])
  }

  /** The values of one id, in order. */
  function ValuesOf<V>(rows: seq<Row<V>>, id: int): seq<V> {
    if rows == [] then []
    else if rows[0].id == id then [rows[0].value] + ValuesOf(rows[1..], id)
    else ValuesOf(rows[1..], id)
  }

  /** The joined rows of one id, in order. */
  function RowsOf<L, R>(rows: seq<JoinedRow<L, R>>, id: int): seq<JoinedRow<L, R>> {
    if rows == [] then []
    else if rows[0].id == id then [rows[0]] + RowsOf(rows[1..], id)
    else RowsOf(rows[1..], id)
  }

  function PairUp<L, R>(id: int, ls: seq<L>, rs: seq<R>): seq<JoinedRow<L, R>> {
    if ls == [] || rs == [] then []
    else [JoinedRow(id, ls[0], rs[0])] + PairUp(id, ls[1..], rs[1..])
  }

  lemma {:induction false} NoValuesBelow<V>(rows: seq<Row<V>>, id: int)
    requires SortedById(rows) && (rows == [] || id < rows[0].id)
    ensures ValuesOf(rows, id) == []
  {
    if rows == [] {
    } else {
      NoValuesBelow(rows[1..], id);
    }
  }

  /** For each id the merge pairs the first left value with the first right value, and so on until one side runs out. */
  lemma {:induction false} MergePairsUp<L, R>(left: seq<Row<L>>, right: seq<Row<R>>, id: int)
    requires SortedById(left) && SortedById(right)
    ensures RowsOf(Merge(left, right), id) == PairUp(id, ValuesOf(left, id), ValuesOf(right, id))
    decreases |left| + |right|
  {
    if left == [] || right == [] {
    } else if left[0].id == right[0].id {
      MergePairsUp(left[1..], right[1..], id);
      MergeHead(left, right, id);
    } else if left[0].id < right[0].id {
      MergePairsUp(left[1..], right, id);
      if left[0].id == id {
        NoValuesBelow(right, id);
      }
    } else {
      MergePairsUp(left, right[1..], id);
      if right[0].id == id {
        NoValuesBelow(left, id);
      }
    }
  }

  lemma {:induction false} MergeHead<L, R>(left: seq<Row<L>>, right: seq<Row<R>>, id: int)
    requires left != [] && right != [] && left[0].id == right[0].id
    ensures var j := JoinedRow(left[0].id, left[0].value, right[0].value);
            var rest := RowsOf(Merge(left[1..], right[1..]), id);
            RowsOf(Merge(left, right), id) == if j.id == id then [j] + rest else rest
    ensures var j := JoinedRow(left[0].id, left[0].value, right[0].value);
            var rest := PairUp(id, ValuesOf(left[1..], id), ValuesOf(right[1..], id));
            PairUp(id, ValuesOf(left, id), ValuesOf(right, id)) == if j.id == id then [j] + rest else rest
  {
    var m := Merge(left, right);
    assert m[1..] == Merge(left[1..], right[1..]);
    if left[0].id == id {
      assert ValuesOf(left, id)[1..] == ValuesOf(left[1..], id);
      assert ValuesOf(right, id)[1..] == ValuesOf(right[1..], id);
    }
  }

  function Min(a: nat, b: nat): nat {
    if a < b then a else b
  }

  lemma {:induction false} PairUpLength<L, R>(id: int, ls: seq<L>, rs: seq<R>)
    ensures |PairUp(id, ls, rs)| == Min(|ls|, |rs|)
    decreases ls
  {
    if ls == [] || rs == [] {
    } else {
      PairUpLength(id, ls[1..], rs[1..]);
    }
  }

  /** How many rows of a table have an id. */
  function CountId<V>(rows: seq<Row<V>>, id: int): nat {
    |ValuesOf(rows, id)|
  }

  lemma {:induction false} ValuesConcat<V>(a: seq<Row<V>>, b: seq<Row<V>>, id: int)
    ensures ValuesOf(a + b, id) == ValuesOf(a, id) + ValuesOf(b, id)
  {
    if a == [] {
      assert a + b == b;
    } else {
      assert (a + b)[1..] == a[1..] + b;
      ValuesConcat(a[1..], b, id);
    }
  }

  /** The multiset of values of an id depends only on the multiset of rows. */
  lemma {:induction false} ValuesOfPermutation<V>(a: seq<Row<V>>, b: seq<Row<V>>, id: int)
    requires multiset(a) == multiset(b)
    ensures multiset(ValuesOf(a, id)) == multiset(ValuesOf(b, id))
  {
    if a == [] {
      assert |b| == |multiset(b)| == 0;
    } else {
      assert a[0] in multiset(b);
      var k :| 0 <= k < |b| && b[k] == a[0];
      RemoveAt(a, 0);
      RemoveAt(b, k);
      assert a[..0] + a[1..] == a[1..];
      Cancel(multiset(a[1..]), multiset(b[..k] + b[k + 1..]), a[0]);
      ValuesOfPermutation(a[1..], b[..k] + b[k + 1..], id);
      ValuesRemoveAt(a, 0, id);
      ValuesRemoveAt(b, k, id);
    }
  }

  lemma {:induction false} Cancel<T>(m: multiset<T>, n: multiset<T>, x: T)
    requires m + multiset{x} == n + multiset{x}
    ensures m == n
  {
    assert m == (m + multiset{x}) - multiset{x};
    assert n == (n + multiset{x}) - multiset{x};
  }

  lemma {:induction false} RemoveAt<T>(s: seq<T>, k: nat)
    requires k < |s|
    ensures multiset(s) == multiset(s[..k] + s[k + 1..]) + multiset{s[k]}
  {
    assert s == s[..k] + [s[k]] + s[k + 1..];
  }

  lemma {:induction false} ValuesRemoveAt<V>(rows: seq<Row<V>>, k: nat, id: int)
    requires k < |rows|
    ensures multiset(ValuesOf(rows, id)) ==
            multiset(ValuesOf(rows[..k] + rows[k + 1..], id)) +
            (if rows[k].id == id then multiset{rows[k].value} else multiset{})
  {
    assert rows == rows[..k] + [rows[k]] + rows[k + 1..];
    ValuesConcat(rows[..k] + [rows[k]], rows[k + 1..], id);
    ValuesConcat(rows[..k], [rows[k]], id);
    ValuesConcat(rows[..k], rows[k + 1..], id);
  }

  /**
   The merge join of any two tables emits min(left, right) rows per id, whatever order the sort gives
   to equal ids.
   */
  lemma {:induction false} MergeCountsPerId<L, R>(left: seq<Row<L>>, right: seq<Row<R>>,
                                                  ls: seq<Row<L>>, rs: seq<Row<R>>, id: int)
    requires SortedById(ls) && multiset(ls) == multiset(left)
    requires SortedById(rs) && multiset(rs) == multiset(right)
    ensures |RowsOf(Merge(ls, rs), id)| == Min(CountId(left, id), CountId(right, id))
  {
    MergePairsUp(ls, rs, id);
    PairUpLength(id, ValuesOf(ls, id), ValuesOf(rs, id));
    ValuesOfPermutation(ls, left, id);
    ValuesOfPermutation(rs, right, id);
    assert |multiset(ValuesOf(ls, id))| == |ValuesOf(ls, id)|;
    assert |multiset(ValuesOf(rs, id))| == |ValuesOf(rs, id)|;
  }

  // ----- the three joins agree on tables with unique ids -----

  lemma {:induction false} ValueMultiplicity<V>(rows: seq<Row<V>>, id: int, v: V)
    ensures multiset(ValuesOf(rows, id))[v] == multiset(rows)[Row(id, v)]
  {
    if rows == [] {
    } else {
      assert rows == [rows[0]] + rows[1..];
      ValueMultiplicity(rows[1..], id, v);
    }
  }

  lemma {:induction false} RowMultiplicity<L, R>(rows: seq<JoinedRow<L, R>>, j: JoinedRow<L, R>)
    ensures multiset(RowsOf(rows, j.id))[j] == multiset(rows)[j]
  {
    if rows == [] {
    } else {
      assert rows == [rows[0]] + rows[1..];
      RowMultiplicity(rows[1..], j);
    }
  }

  lemma {:induction false} AbsentId<V>(rows: seq<Row<V>>, id: int)
    requires forall i :: 0 <= i < |rows| ==> rows[i].id != id
    ensures ValuesOf(rows, id) == []
  {
    if rows == [] {
    } else {
      AbsentId(rows[1..], id);
    }
  }

  lemma {:induction false} UniqueIdOnce<V>(rows: seq<Row<V>>, id: int)
    requires UniqueIds(rows)
    ensures CountId(rows, id) <= 1
  {
    if rows == [] {
    } else {
      if rows[0].id == id {
        AbsentId(rows[1..], id);
      } else {
        UniqueIdOnce(rows[1..], id);
      }
    }
  }

  lemma {:induction false} PairUpSingles<L, R>(id: int, ls: seq<L>, rs: seq<R>, j: JoinedRow<L, R>)
    requires |ls| <= 1 && |rs| <= 1 && j.id == id
    ensures multiset(PairUp(id, ls, rs))[j] == Times(multiset(ls)[j.leftValue], multiset(rs)[j.rightValue])
  {
    if |ls| == 1 && |rs| == 1 {
      assert PairUp(id, ls, rs) == [JoinedRow(id, ls[0], rs[0])];
    }
  }

  lemma {:induction false} MergeTimes<L, R>(left: seq<Row<L>>, right: seq<Row<R>>,
                                            ls: seq<Row<L>>, rs: seq<Row<R>>, j: JoinedRow<L, R>)
    requires UniqueIds(left) && UniqueIds(right)
    requires SortedById(ls) && multiset(ls) == multiset(left)
    requires SortedById(rs) && multiset(rs) == multiset(right)
    ensures multiset(Merge(ls, rs))[j] ==
            Times(multiset(left)[Row(j.id, j.leftValue)], multiset(right)[Row(j.id, j.rightValue)])
  {
    RowMultiplicity(Merge(ls, rs), j);
    MergePairsUp(ls, rs, j.id);
    SameCount(ls, left, j.id);
    SameCount(rs, right, j.id);
    UniqueIdOnce(left, j.id);
    UniqueIdOnce(right, j.id);
    PairUpSingles(j.id, ValuesOf(ls, j.id), ValuesOf(rs, j.id), j);
    ValueMultiplicity(ls, j.id, j.leftValue);
    ValueMultiplicity(rs, j.id, j.rightValue);
  }

  lemma {:induction false} SameCount<V>(a: seq<Row<V>>, b: seq<Row<V>>, id: int)
    requires multiset(a) == multiset(b)
    ensures CountId(a, id) == CountId(b, id)
  {
    ValuesOfPermutation(a, b, id);
    assert |multiset(ValuesOf(a, id))| == |ValuesOf(a, id)|;
    assert |multiset(ValuesOf(b, id))| == |ValuesOf(b, id)|;
  }

  /** With ids unique in both tables all three joins emit the same bag of rows; the first two emit the same sequence. */
  lemma {:induction false} JoinsAgreeOnUniqueIds<L, R>(left: seq<Row<L>>, right: seq<Row<R>>,
                                                       ls: seq<Row<L>>, rs: seq<Row<R>>)
    requires UniqueIds(left) && UniqueIds(right)
    requires SortedById(ls) && multiset(ls) == multiset(left)
    requires SortedById(rs) && multiset(rs) == multiset(right)
    ensures Hash(left, right) == NestedLoop(left, right)
    ensures multiset(Merge(ls, rs)) == multiset(NestedLoop(left, right))
  {
    HashIsNestedLoopOfLast(left, right);
    LastPerUniqueId(right);
    forall j: JoinedRow<L, R> ensures multiset(Merge(ls, rs))[j] == multiset(NestedLoop(left, right))[j] {
      MergeTimes(left, right, ls, rs, j);
      NestedLoopTimes(left, right, j);
    }
    SameMultiplicities(multiset(Merge(ls, rs)), multiset(NestedLoop(left, right)));
  }

  lemma {:induction false} SameMultiplicities<T>(a: multiset<T>, b: multiset<T>)
    requires forall x :: a[x] == b[x]
    ensures a == b
  {
  }

  // ----- the algorithms -----

  method HashJoin<L, R>(leftTable: seq<Row<L>>, rightTable: seq<Row<R>>) returns (joinResult: seq<JoinedRow<L, R>>)
    ensures joinResult == Hash(leftTable, rightTable)
  {
    var hashTable: map<int, R> := map[];
    for i := 0 to |rightTable|
      invariant hashTable == Table(rightTable[..i])
    {
      assert rightTable[..i + 1][..i] == rightTable[..i];
      hashTable := hashTable[rightTable[i].id := rightTable[i].value];
    }
    assert rightTable[..|rightTable|] == rightTable;
    joinResult := [];
    for i := 0 to |leftTable|
      invariant joinResult == ProbeAll(leftTable[..i], hashTable)
    {
      assert leftTable[..i + 1][..i] == leftTable[..i];
      var leftRow := leftTable[i];
      if leftRow.id in hashTable {
        joinResult := joinResult + [JoinedRow(leftRow.id, leftRow.value, hashTable[leftRow.id])];
      }
    }
    assert leftTable[..|leftTable|] == leftTable;
  }

  method NestedLoopJoin<L, R>(leftTable: seq<Row<L>>, rightTable: seq<Row<R>>)
    returns (joinResult: seq<JoinedRow<L, R>>)
    ensures joinResult == NestedLoop(leftTable, rightTable)
  {
    joinResult := [];
    for i := 0 to |leftTable|
      invariant joinResult == NestedLoop(leftTable[..i], rightTable)
    {
      assert leftTable[..i + 1][..i] == leftTable[..i];
      var leftRow := leftTable[i];
      for k := 0 to |rightTable|
        invariant joinResult == NestedLoop(leftTable[..i], rightTable) + MatchesOf(leftRow, rightTable[..k])
      {
        assert rightTable[..k + 1][..k] == rightTable[..k];
        if leftRow.id == rightTable[k].id {
          joinResult := joinResult + [JoinedRow(leftRow.id, leftRow.value, rightTable[k].value)];
        }
      }
      assert rightTable[..|rightTable|] == rightTable;
    }
    assert leftTable[..|leftTable|] == leftTable;
  }

  function InsertById<V>(rows: seq<Row<V>>, x: Row<V>): seq<Row<V>> {
    if rows == [] || rows[|rows| - 1].id <= x.id then rows + [x]
    else InsertById(rows[..|rows| - 1], x) + [rows[|rows| - 1]]
  }

  lemma {:induction false} InsertByIdPermutes<V>(rows: seq<Row<V>>, x: Row<V>)
    ensures multiset(InsertById(rows, x)) == multiset(rows) + multiset{x}
  {
    if rows != [] && rows[|rows| - 1].id > x.id {
      assert rows == rows[..|rows| - 1] + [rows[|rows| - 1]];
      InsertByIdPermutes(rows[..|rows| - 1], x);
    }
  }

  lemma {:induction false} InsertedRow<V>(rows: seq<Row<V>>, x: Row<V>, y: Row<V>)
    requires y in InsertById(rows, x)
    ensures y == x || y in rows
  {
    InsertByIdPermutes(rows, x);
    assert y in multiset(InsertById(rows, x));
  }

  lemma {:induction false} InsertByIdSorted<V>(rows: seq<Row<V>>, x: Row<V>)
    requires SortedById(rows)
    ensures SortedById(InsertById(rows, x))
  {
    if rows != [] && rows[|rows| - 1].id > x.id {
      var init, last := rows[..|rows| - 1], rows[|rows| - 1];
      InsertByIdSorted(init, x);
      var r := InsertById(init, x);
      forall i | 0 <= i < |r| ensures r[i].id <= last.id {
        InsertedRow(init, x, r[i]);
        if r[i] != x {
          var k :| 0 <= k < |init| && init[k] == r[i];
          assert rows[k] == r[i];
        }
      }
    }
  }

  function SortRows<V>(rows: seq<Row<V>>): seq<Row<V>> {
    if rows == [] then [] else InsertById(SortRows(rows[..|rows| - 1]), rows[|rows| - 1])
  }

  lemma {:induction false} SortRowsCorrect<V>(rows: seq<Row<V>>)
    ensures SortedById(SortRows(rows)) && multiset(SortRows(rows)) == multiset(rows) && |SortRows(rows)| == |rows|
  {
    if rows != [] {
      var init, x := rows[..|rows| - 1], rows[|rows| - 1];
      assert rows == init + [x];
      SortRowsCorrect(init);
      InsertByIdPermutes(SortRows(init), x);
      InsertByIdSorted(SortRows(init), x);
    }
    assert |multiset(SortRows(rows))| == |SortRows(rows)|;
    assert |multiset(rows)| == |rows|;
  }

  /** Stands for the library sort: its contract leaves the order of equal ids open. */
  method SortById<V>(table: array<Row<V>>)
    modifies table
    ensures SortedById(table[..]) && multiset(table[..]) == old(multiset(table[..]))
  {
    var sorted := SortRows(table[..]);
    SortRowsCorrect(table[..]);
    WriteBack(table, sorted);
  }

  method WriteBack<T>(a: array<T>, s: seq<T>)
    requires |s| == a.Length
    modifies a
    ensures a[..] == s
  {
    for i := 0 to a.Length
      invariant a[..i] == s[..i]
    {
      a[i] := s[i];
    }
  }

  /** Sorts both tables in place, then merges. The two tables may be the same one. */
  method MergeJoin<V>(leftTable: array<Row<V>>, rightTable: array<Row<V>>) returns (joinResult: seq<JoinedRow<V, V>>)
    modifies leftTable, rightTable
    ensures SortedById(leftTable[..]) && multiset(leftTable[..]) == old(multiset(leftTable[..]))
    ensures SortedById(rightTable[..]) && multiset(rightTable[..]) == old(multiset(rightTable[..]))
    ensures joinResult == Merge(leftTable[..], rightTable[..])
    ensures forall id ::
              |RowsOf(joinResult, id)| == Min(CountId(old(leftTable[..]), id), CountId(old(rightTable[..]), id))
  {
    SortById(leftTable);
    SortById(rightTable);
    joinResult := MergeSorted(leftTable[..], rightTable[..]);
    forall id
      ensures |RowsOf(joinResult, id)| == Min(CountId(old(leftTable[..]), id), CountId(old(rightTable[..]), id))
    {
      MergeCountsPerId(old(leftTable[..]), old(rightTable[..]), leftTable[..], rightTable[..], id);
    }
  }

  /** The merge loop. */
  method MergeSorted<L, R>(left: seq<Row<L>>, right: seq<Row<R>>) returns (joinResult: seq<JoinedRow<L, R>>)
    ensures joinResult == Merge(left, right)
  {
    joinResult := [];
    var leftIndex, rightIndex := 0, 0;
    while leftIndex < |left| && rightIndex < |right|
      invariant leftIndex <= |left| && rightIndex <= |right|
      invariant joinResult + Merge(left[leftIndex..], right[rightIndex..]) == Merge(left, right)
      decreases |left| - leftIndex + |right| - rightIndex
    {
      assert left[leftIndex..][1..] == left[leftIndex + 1..] && right[rightIndex..][1..] == right[rightIndex + 1..];
      if left[leftIndex].id == right[rightIndex].id {
        joinResult := joinResult + [JoinedRow(left[leftIndex].id, left[leftIndex].value, right[rightIndex].value)];
        leftIndex, rightIndex := leftIndex + 1, rightIndex + 1;
      } else if left[leftIndex].id < right[rightIndex].id {
        leftIndex := leftIndex + 1;
      } else {
        rightIndex := rightIndex + 1;
      }
    }
  }
}
