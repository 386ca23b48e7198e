/**
 Filtering one side of a join before the join, instead of its result after it. For the nested
 loop join that is always the same, for the hash join always on the left, and otherwise exactly
 under the conditions proved here.
 */
module JoinPushDown {
  import opened JoinAlgorithms
  import opened Sequences

  function FilterBy<V>(q: Row<V> -> bool, rows: seq<Row<V>>): seq<Row<V>> {
    if rows == [] then []
    else FilterBy(q, rows[..|rows| - 1]) + if q(rows[|rows| - 1]) then [rows[|rows| - 1]] else []
  }

  function LeftOf<L, R>(j: JoinedRow<L, R>): Row<L> {
    Row(j.id, j.leftValue)
  }

  function RightOf<L, R>(j: JoinedRow<L, R>): Row<R> {
    Row(j.id, j.rightValue)
  }

  /** The joined rows whose left part passes. */
  function KeepLeft<L, R>(q: Row<L> -> bool, js: seq<JoinedRow<L, R>>): seq<JoinedRow<L, R>> {
    if js == [] then []
    else KeepLeft(q, js[..|js| - 1]) + if q(LeftOf(js[|js| - 1])) then [js[|js| - 1]] else []
  }

  /** The joined rows whose right part passes. */
  function KeepRight<L, R>(q: Row<R> -> bool, js: seq<JoinedRow<L, R>>): seq<JoinedRow<L, R>> {
    if js == [] then []
    else KeepRight(q, js[..|js| - 1]) + if q(RightOf(js[|js| - 1])) then [js[|js| - 1]] else []
  }

  // ----- filters and concatenation -----

  lemma {:induction false} Snoc<T>(a: seq<T>, b: seq<T>)
    requires b != []
    ensures (a + b)[..|a + b| - 1] == a + b[..|b| - 1] && (a + b)[|a + b| - 1] == b[|b| - 1]
  {
  }

  lemma {:induction false} FilterConcat<V>(q: Row<V> -> bool, a: seq<Row<V>>, b: seq<Row<V>>)
    ensures FilterBy(q, a + b) == FilterBy(q, a) + FilterBy(q, b)
  {
    if b == [] {
      assert a + b == a;
    } else {
      Snoc(a, b);
      FilterConcat(q, a, b[..|b| - 1]);
      Associate(FilterBy(q, a), FilterBy(q, b[..|b| - 1]), if q(b[|b| - 1]) then [b[|b| - 1]] else []);
    }
  }

  lemma {:induction false} KeepLeftConcat<L, R>(q: Row<L> -> bool, a: seq<JoinedRow<L, R>>, b: seq<JoinedRow<L, R>>)
    ensures KeepLeft(q, a + b) == KeepLeft(q, a) + KeepLeft(q, b)
  {
    if b == [] {
      assert a + b == a;
    } else {
      Snoc(a, b);
      KeepLeftConcat(q, a, b[..|b| - 1]);
      Associate(KeepLeft(q, a), KeepLeft(q, b[..|b| - 1]), if q(LeftOf(b[|b| - 1])) then [b[|b| - 1]] else []);
    }
  }

  lemma {:induction false} KeepRightConcat<L, R>(q: Row<R> -> bool, a: seq<JoinedRow<L, R>>, b: seq<JoinedRow<L, R>>)
    ensures KeepRight(q, a + b) == KeepRight(q, a) + KeepRight(q, b)
  {
    if b == [] {
      assert a + b == a;
    } else {
      Snoc(a, b);
      KeepRightConcat(q, a, b[..|b| - 1]);
      Associate(KeepRight(q, a), KeepRight(q, b[..|b| - 1]), if q(RightOf(b[|b| - 1])) then [b[|b| - 1]] else []);
    }
  }

  lemma {:induction false} FilterHead<V>(q: Row<V> -> bool, rows: seq<Row<V>>)
    requires rows != []
    ensures FilterBy(q, rows) == if q(rows[0]) then [rows[0]] + FilterBy(q, rows[1..]) else FilterBy(q, rows[1..])
  {
    assert rows == [rows[0]] + rows[1..];
    FilterConcat(q, [rows[0]], rows[1..]);
  }

  lemma {:induction false} FilterElement<V>(q: Row<V> -> bool, rows: seq<Row<V>>, r: Row<V>)
    ensures r in FilterBy(q, rows) <==> r in rows && q(r)
  {
    if rows == [] {
    } else {
      FilterElement(q, rows[..|rows| - 1], r);
      assert rows == rows[..|rows| - 1] + [rows[|rows| - 1]];
    }
  }

  // ----- the nested loop join -----

  lemma {:induction false} NoMatchesLeft<L, R>(q: Row<L> -> bool, x: Row<L>, right: seq<Row<R>>)
    requires !q(x)
    ensures KeepLeft(q, MatchesOf(x, right)) == []
  {
    if right == [] {
    } else {
      NoMatchesLeft(q, x, right[..|right| - 1]);
      KeepLeftConcat(q, MatchesOf(x, right[..|right| - 1]),
                     if x.id == right[|right| - 1].id then [JoinedRow(x.id, x.value, right[|right| - 1].value)]
                     else []);
    }
  }

  lemma {:induction false} NestedLoopAppend<L, R>(left: seq<Row<L>>, x: Row<L>, right: seq<Row<R>>)
    ensures NestedLoop(left + [x], right) == NestedLoop(left, right) + MatchesOf(x, right)
  {
    assert (left + [x])[..|left|] == left;
  }

  lemma {:induction false} NestedLoopPushLeft<L, R>(q: Row<L> -> bool, left: seq<Row<L>>, right: seq<Row<R>>)
    ensures KeepLeft(q, NestedLoop(FilterBy(q, left), right)) == KeepLeft(q, NestedLoop(left, right))
  {
    if left == [] {
    } else {
      var init, x := left[..|left| - 1], left[|left| - 1];
      NestedLoopPushLeft(q, init, right);
      KeepLeftConcat(q, NestedLoop(init, right), MatchesOf(x, right));
      if q(x) {
        NestedLoopAppend(FilterBy(q, init), x, right);
        KeepLeftConcat(q, NestedLoop(FilterBy(q, init), right), MatchesOf(x, right));
      } else {
        NoMatchesLeft(q, x, right);
        assert FilterBy(q, left) == FilterBy(q, init);
      }
    }
  }

  lemma {:induction false} MatchesPushRight<L, R>(q: Row<R> -> bool, x: Row<L>, right: seq<Row<R>>)
    ensures KeepRight(q, MatchesOf(x, FilterBy(q, right))) == KeepRight(q, MatchesOf(x, right))
  {
    if right == [] {
    } else {
      var init, y := right[..|right| - 1], right[|right| - 1];
      MatchesPushRight(q, x, init);
      var last := if x.id == y.id then [JoinedRow(x.id, x.value, y.value)] else [];
      KeepRightConcat(q, MatchesOf(x, init), last);
      if q(y) {
        MatchesAppend(x, FilterBy(q, init), y);
        KeepRightConcat(q, MatchesOf(x, FilterBy(q, init)), last);
      } else {
        assert FilterBy(q, right) == FilterBy(q, init);
        assert KeepRight(q, last) == [];
      }
    }
  }

  lemma {:induction false} NestedLoopPushRight<L, R>(q: Row<R> -> bool, left: seq<Row<L>>, right: seq<Row<R>>)
    ensures KeepRight(q, NestedLoop(left, FilterBy(q, right))) == KeepRight(q, NestedLoop(left, right))
  {
    if left == [] {
    } else {
      var init, x := left[..|left| - 1], left[|left| - 1];
      NestedLoopPushRight(q, init, right);
      MatchesPushRight(q, x, right);
      KeepRightConcat(q, NestedLoop(init, right), MatchesOf(x, right));
      KeepRightConcat(q, NestedLoop(init, FilterBy(q, right)), MatchesOf(x, FilterBy(q, right)));
    }
  }

  // ----- the hash join -----

  lemma {:induction false} HashPushLeft<L, R>(q: Row<L> -> bool, left: seq<Row<L>>, right: seq<Row<R>>)
    ensures KeepLeft(q, Hash(FilterBy(q, left), right)) == KeepLeft(q, Hash(left, right))
  {
    HashIsNestedLoopOfLast(left, right);
    HashIsNestedLoopOfLast(FilterBy(q, left), right);
    NestedLoopPushLeft(q, left, LastPerId(right));
  }

  /** If any right row of the id passes, then so does the one that the hash table keeps, the last. */
  predicate LastDecides<R>(q: Row<R> -> bool, right: seq<Row<R>>, id: int) {
    forall i :: 0 <= i < |right| && right[i].id == id && q(right[i]) ==>
      id in Table(right) && q(Row(id, Table(right)[id]))
  }

  lemma {:induction false} TableOfFiltered<R>(q: Row<R> -> bool, right: seq<Row<R>>, id: int)
    ensures id in Table(FilterBy(q, right)) ==> id in Table(right) && q(Row(id, Table(FilterBy(q, right))[id]))
    ensures id in Table(FilterBy(q, right)) <==> exists i :: 0 <= i < |right| && right[i].id == id && q(right[i])
    ensures id in Table(right) && q(Row(id, Table(right)[id])) ==>
              id in Table(FilterBy(q, right)) && Table(FilterBy(q, right))[id] == Table(right)[id]
  {
    if right == [] {
    } else {
      var init, y := right[..|right| - 1], right[|right| - 1];
      TableOfFiltered(q, init, id);
      if q(y) {
        assert (FilterBy(q, init) + [y])[..|FilterBy(q, init)|] == FilterBy(q, init);
        assert y.id == id ==> right[|right| - 1].id == id && q(right[|right| - 1]);
      } else {
        assert FilterBy(q, right) == FilterBy(q, init);
      }
      assert forall i :: 0 <= i < |init| ==> init[i] == right[i];
    }
  }

  lemma {:induction false} ProbePushRight<L, R>(q: Row<R> -> bool, x: Row<L>, right: seq<Row<R>>)
    ensures var before := KeepRight(q, Probe(x, Table(right)));
            var after := KeepRight(q, Probe(x, Table(FilterBy(q, right))));
            if LastDecides(q, right, x.id) then after == before else |after| == |before| + 1
  {
    TableOfFiltered(q, right, x.id);
  }

  lemma {:induction false} ProbesPushRight<L, R>(q: Row<R> -> bool, left: seq<Row<L>>, right: seq<Row<R>>)
    ensures var before := KeepRight(q, ProbeAll(left, Table(right)));
            var after := KeepRight(q, ProbeAll(left, Table(FilterBy(q, right))));
            if forall i :: 0 <= i < |left| ==> LastDecides(q, right, left[i].id) then after == before
            else |after| > |before|
    ensures |KeepRight(q, ProbeAll(left, Table(FilterBy(q, right))))| >= |KeepRight(q, ProbeAll(left, Table(right)))|
  {
    if left == [] {
    } else {
      var init, x := left[..|left| - 1], left[|left| - 1];
      var table, filtered := Table(right), Table(FilterBy(q, right));
      ProbesPushRight(q, init, right);
      ProbePushRight(q, x, right);
      KeepRightConcat(q, ProbeAll(init, table), Probe(x, table));
      KeepRightConcat(q, ProbeAll(init, filtered), Probe(x, filtered));
      assert forall i :: 0 <= i < |init| ==> init[i] == left[i];
      if !LastDecides(q, right, x.id) {
        assert !LastDecides(q, right, left[|left| - 1].id);
      }
    }
  }

  /**
   On the right of a hash join the filter may go first exactly when, for every id of the left
   table, a passing right row of that id implies that the last right row of that id passes.
   */
  lemma {:induction false} HashPushRightIff<L, R>(q: Row<R> -> bool, left: seq<Row<L>>, right: seq<Row<R>>)
    ensures KeepRight(q, Hash(left, FilterBy(q, right))) == KeepRight(q, Hash(left, right)) <==>
            forall i :: 0 <= i < |left| ==> LastDecides(q, right, left[i].id)
    ensures KeepRight(q, Hash(left, FilterBy(q, right))) != KeepRight(q, Hash(left, right)) ==>
            |KeepRight(q, Hash(left, FilterBy(q, right)))| > |KeepRight(q, Hash(left, right))|
  {
    ProbesPushRight(q, left, right);
  }

  // ----- the merge of sorted tables -----

  /** Among rows of one id those that pass come first. */
  predicate PassersFirst<V>(q: Row<V> -> bool, rows: seq<Row<V>>) {
    forall i, j :: 0 <= i < j < |rows| && rows[i].id == rows[j].id && q(rows[j]) ==> q(rows[i])
  }

  lemma {:induction false} MergeStep<L, R>(q: Row<L> -> bool, left: seq<Row<L>>, right: seq<Row<R>>)
    requires left != [] && right != [] && left[0].id == right[0].id
    ensures KeepLeft(q, Merge(left, right)) ==
            if q(left[0])
              then [JoinedRow(left[0].id, left[0].value, right[0].value)] + KeepLeft(q, Merge(left[1..], right[1..]))
            else KeepLeft(q, Merge(left[1..], right[1..]))
  {
    var j := JoinedRow(left[0].id, left[0].value, right[0].value);
    KeepLeftConcat(q, [j], Merge(left[1..], right[1..]));
    assert LeftOf(j) == left[0];
  }

  /** A right row that only meets failing left rows can be dropped. */
  lemma {:induction false} SkipFailing<L, R>(q: Row<L> -> bool, left: seq<Row<L>>, right: seq<Row<R>>)
    requires right != [] && SortedById(left) && SortedById(right)
    requires forall i :: 0 <= i < |left| ==> left[i].id >= right[0].id && (left[i].id == right[0].id ==> !q(left[i]))
    ensures KeepLeft(q, Merge(left, right)) == KeepLeft(q, Merge(left, right[1..]))
    decreases |left|
  {
    if left != [] && left[0].id == right[0].id {
      MergeStep(q, left, right);
      if right[1..] != [] {
        if right[1].id == right[0].id {
          MergeStep(q, left, right[1..]);
          SkipFailing(q, left[1..], right[1..]);
        }
      }
    }
  }

  lemma {:induction false} FilteredIds<V>(q: Row<V> -> bool, rows: seq<Row<V>>)
    requires rows != [] && SortedById(rows)
    ensures FilterBy(q, rows) != [] ==> FilterBy(q, rows)[0].id >= rows[0].id
  {
    if FilterBy(q, rows) != [] {
      FilterElement(q, rows, FilterBy(q, rows)[0]);
    }
  }

  lemma {:induction false} MergeCons<L, R>(q: Row<L> -> bool, x: Row<L>, xs: seq<Row<L>>, right: seq<Row<R>>)
    requires right != []
    ensures x.id < right[0].id ==> Merge([x] + xs, right) == Merge(xs, right)
    ensures x.id == right[0].id ==>
              KeepLeft(q, Merge([x] + xs, right)) ==
              if q(x) then [JoinedRow(x.id, x.value, right[0].value)] + KeepLeft(q, Merge(xs, right[1..]))
              else KeepLeft(q, Merge(xs, right[1..]))
  {
    var left := [x] + xs;
    assert left[0] == x && left[1..] == xs;
    if x.id == right[0].id {
      MergeStep(q, left, right);
    }
  }

  lemma {:induction false} MergeBelow<L, R>(left: seq<Row<L>>, right: seq<Row<R>>)
    requires right != [] && (left != [] ==> left[0].id > right[0].id)
    ensures Merge(left, right) == Merge(left, right[1..])
  {
  }

  lemma {:induction false} TailPassersFirst<V>(q: Row<V> -> bool, rows: seq<Row<V>>)
    requires rows != [] && SortedById(rows) && PassersFirst(q, rows)
    ensures SortedById(rows[1..]) && PassersFirst(q, rows[1..])
    ensures forall i :: 0 <= i < |rows[1..]| ==>
              rows[1..][i].id >= rows[0].id && (rows[1..][i].id == rows[0].id && !q(rows[0]) ==> !q(rows[1..][i]))
  {
  }

  lemma {:induction false} MergeFilteredCons<L, R>(q: Row<L> -> bool, left: seq<Row<L>>, right: seq<Row<R>>)
    requires left != [] && right != [] && left[0].id <= right[0].id
    ensures left[0].id < right[0].id || !q(left[0]) ==>
              KeepLeft(q, Merge(FilterBy(q, left), right)) == KeepLeft(q, Merge(FilterBy(q, left[1..]), right))
    ensures left[0].id == right[0].id && q(left[0]) ==>
              KeepLeft(q, Merge(FilterBy(q, left), right)) ==
              [JoinedRow(left[0].id, left[0].value, right[0].value)] +
                KeepLeft(q, Merge(FilterBy(q, left[1..]), right[1..]))
  {
    FilterHead(q, left);
    MergeCons(q, left[0], FilterBy(q, left[1..]), right);
  }

  lemma {:induction false} MergePushLeft<L, R>(q: Row<L> -> bool, left: seq<Row<L>>, right: seq<Row<R>>)
    requires SortedById(left) && SortedById(right) && PassersFirst(q, left)
    ensures KeepLeft(q, Merge(FilterBy(q, left), right)) == KeepLeft(q, Merge(left, right))
    decreases |left| + |right|
  {
    if left == [] || right == [] {
    } else {
      TailPassersFirst(q, left);
      if left[0].id > right[0].id {
        FilteredIds(q, left);
        MergeBelow(FilterBy(q, left), right);
        MergePushLeft(q, left, right[1..]);
      } else {
        MergeFilteredCons(q, left, right);
        if left[0].id < right[0].id {
          MergePushLeft(q, left[1..], right);
        } else {
          MergeStep(q, left, right);
          if q(left[0]) {
            MergePushLeft(q, left[1..], right[1..]);
          } else {
            MergePushLeft(q, left[1..], right);
            SkipFailing(q, left[1..], right);
          }
        }
      }
    }
  }

  // ----- the mirrored merge -----

  function Flip<L, R>(js: seq<JoinedRow<L, R>>): seq<JoinedRow<R, L>> {
    if js == [] then []
    else Flip(js[..|js| - 1]) + [JoinedRow(js[|js| - 1].id, js[|js| - 1].rightValue, js[|js| - 1].leftValue)]
  }

  lemma {:induction false} FlipCons<L, R>(j: JoinedRow<L, R>, js: seq<JoinedRow<L, R>>)
    ensures Flip([j] + js) == [JoinedRow(j.id, j.rightValue, j.leftValue)] + Flip(js)
  {
    if js == [] {
      assert [j] + js == [j];
    } else {
      Snoc([j], js);
      FlipCons(j, js[..|js| - 1]);
    }
  }

  lemma {:induction false} MergeFlip<L, R>(left: seq<Row<L>>, right: seq<Row<R>>)
    ensures Merge(right, left) == Flip(Merge(left, right))
    decreases |left| + |right|
  {
    if left == [] || right == [] {
    } else {
      if left[0].id == right[0].id {
        MergeFlip(left[1..], right[1..]);
        FlipCons(JoinedRow(left[0].id, left[0].value, right[0].value), Merge(left[1..], right[1..]));
      } else if left[0].id < right[0].id {
        MergeFlip(left[1..], right);
      } else {
        MergeFlip(left, right[1..]);
      }
    }
  }

  lemma {:induction false} FlipTwice<L, R>(js: seq<JoinedRow<L, R>>)
    ensures Flip(Flip(js)) == js
  {
    if js == [] {
    } else {
      FlipTwice(js[..|js| - 1]);
      var last := JoinedRow(js[|js| - 1].id, js[|js| - 1].rightValue, js[|js| - 1].leftValue);
      assert (Flip(js[..|js| - 1]) + [last])[..|Flip(js[..|js| - 1])|] == Flip(js[..|js| - 1]);
    }
  }

  lemma {:induction false} KeepFlip<L, R>(q: Row<R> -> bool, js: seq<JoinedRow<L, R>>)
    ensures KeepLeft(q, Flip(js)) == Flip(KeepRight(q, js))
  {
    if js == [] {
    } else {
      var init, j := js[..|js| - 1], js[|js| - 1];
      KeepFlip(q, init);
      var last := JoinedRow(j.id, j.rightValue, j.leftValue);
      assert LeftOf(last) == RightOf(j);
      KeepLeftConcat(q, Flip(init), [last]);
      if q(RightOf(j)) {
        assert (KeepRight(q, init) + [j])[..|KeepRight(q, init)|] == KeepRight(q, init);
      } else {
        assert KeepRight(q, js) == KeepRight(q, init);
        assert KeepLeft(q, [last]) == [];
      }
    }
  }

  lemma {:induction false} MergePushRight<L, R>(q: Row<R> -> bool, left: seq<Row<L>>, right: seq<Row<R>>)
    requires SortedById(left) && SortedById(right) && PassersFirst(q, right)
    ensures KeepRight(q, Merge(left, FilterBy(q, right))) == KeepRight(q, Merge(left, right))
  {
    var before, after := Merge(left, right), Merge(left, FilterBy(q, right));
    MergeFlip(left, right);
    MergeFlip(left, FilterBy(q, right));
    KeepFlip(q, before);
    KeepFlip(q, after);
    MergePushLeft(q, right, left);
    FlipTwice(KeepRight(q, before));
    FlipTwice(KeepRight(q, after));
  }

  // ----- the condition is necessary -----

  lemma {:induction false} FilterSorted<V>(q: Row<V> -> bool, rows: seq<Row<V>>)
    requires SortedById(rows)
    ensures SortedById(FilterBy(q, rows))
  {
    if rows == [] {
    } else {
      var kept := FilterBy(q, rows[..|rows| - 1]);
      FilterSorted(q, rows[..|rows| - 1]);
      forall i | 0 <= i < |kept| ensures kept[i].id <= rows[|rows| - 1].id {
        FilterElement(q, rows[..|rows| - 1], kept[i]);
      }
    }
  }

  lemma {:induction false} FirstPasser<V>(q: Row<V> -> bool, rows: seq<Row<V>>, k: nat)
    requires k < |rows| && SortedById(rows) && q(rows[k]) && rows[0].id == rows[k].id
    ensures FilterBy(q, rows) != [] && FilterBy(q, rows)[0].id == rows[0].id && q(FilterBy(q, rows)[0])
  {
    FilterElement(q, rows, rows[k]);
    FilterElement(q, rows, FilterBy(q, rows)[0]);
    FilterSorted(q, rows);
    FilteredIds(q, rows);
  }

  /** A failing row before a passing one of its id: one right row tells the two plans apart. */
  lemma {:induction false} OffenderAtHead<L, R>(q: Row<L> -> bool, left: seq<Row<L>>, k: nat, right: seq<Row<R>>)
    requires k < |left| && SortedById(left) && !q(left[0]) && q(left[k]) && left[k].id == left[0].id
    requires |right| == 1 && right[0].id == left[0].id
    ensures |KeepLeft(q, Merge(FilterBy(q, left), right))| == 1
    ensures KeepLeft(q, Merge(left, right)) == []
  {
    MergeStep(q, left, right);
    FirstPasser(q, left, k);
    MergeStep(q, FilterBy(q, left), right);
  }

  /** A right table with rows of one id. */
  ghost predicate OneId<R>(right: seq<Row<R>>, id: int, v: R) {
    forall i :: 0 <= i < |right| ==> right[i] == Row(id, v)
  }

  lemma {:induction false} HeadOffends<V>(q: Row<V> -> bool, rows: seq<Row<V>>) returns (k: nat)
    requires rows != [] && !PassersFirst(q, rows) && PassersFirst(q, rows[1..])
    ensures 0 < k < |rows| && rows[k].id == rows[0].id && q(rows[k]) && !q(rows[0])
  {
    forall i, j | 1 <= i < j < |rows| && rows[i].id == rows[j].id && q(rows[j]) ensures q(rows[i]) {
      assert rows[1..][i - 1] == rows[i] && rows[1..][j - 1] == rows[j];
    }
    var i, j :| 0 <= i < j < |rows| && rows[i].id == rows[j].id && q(rows[j]) && !q(rows[i]);
    k := j;
  }

  lemma {:induction false} Offender<L, R>(q: Row<L> -> bool, left: seq<Row<L>>, v: R)
    returns (k: nat, right: seq<Row<R>>)
    requires SortedById(left) && !PassersFirst(q, left)
    ensures k < |left| && q(left[k]) && right != [] && OneId(right, left[k].id, v)
    ensures |KeepLeft(q, Merge(FilterBy(q, left), right))| > |KeepLeft(q, Merge(left, right))|
  {
    if PassersFirst(q, left[1..]) {
      k := HeadOffends(q, left);
      right := [Row(left[k].id, v)];
      OffenderAtHead(q, left, k, right);
    } else {
      var m, ys := Offender(q, left[1..], v);
      k := m + 1;
      assert left[1..][m] == left[k];
      right := OffenderFurther(q, left, k, ys, v);
    }
  }

  lemma {:induction false} OffenderFurther<L, R>(q: Row<L> -> bool, left: seq<Row<L>>, k: nat, rest: seq<Row<R>>, v: R)
    returns (right: seq<Row<R>>)
    requires 0 < k < |left| && SortedById(left) && q(left[k]) && rest != [] && OneId(rest, left[k].id, v)
    requires |KeepLeft(q, Merge(FilterBy(q, left[1..]), rest))| > |KeepLeft(q, Merge(left[1..], rest))|
    ensures right != [] && OneId(right, left[k].id, v)
    ensures |KeepLeft(q, Merge(FilterBy(q, left), right))| > |KeepLeft(q, Merge(left, right))|
  {
    if left[0].id == left[k].id && !q(left[0]) {
      right := [Row(left[k].id, v)];
      OffenderAtHead(q, left, k, right);
    } else {
      right := if left[0].id == left[k].id then [rest[0]] + rest else rest;
      OffenderAfterHead(q, left, right, rest);
    }
  }

  lemma {:induction false} OffenderAfterHead<L, R>(q: Row<L> -> bool, left: seq<Row<L>>,
                                                   right: seq<Row<R>>, rest: seq<Row<R>>)
    requires left != [] && rest != []
    requires |KeepLeft(q, Merge(FilterBy(q, left[1..]), rest))| > |KeepLeft(q, Merge(left[1..], rest))|
    requires if q(left[0]) && left[0].id == rest[0].id then right == [rest[0]] + rest
             else right == rest && left[0].id < rest[0].id
    ensures |KeepLeft(q, Merge(FilterBy(q, left), right))| > |KeepLeft(q, Merge(left, right))|
  {
    MergeFilteredCons(q, left, right);
    if left[0].id == rest[0].id {
      MergeStep(q, left, right);
      assert right[1..] == rest;
    }
  }

  /**
   On the left of a merge the filter may go first, whatever the right table, exactly when among
   the left rows of each id those that pass come first.
   */
  lemma {:induction false} MergePushLeftIff<L, R(!new)>(q: Row<L> -> bool, left: seq<Row<L>>, v: R)
    requires SortedById(left)
    ensures PassersFirst(q, left) <==>
            forall right: seq<Row<R>> :: SortedById(right) ==>
              KeepLeft(q, Merge(FilterBy(q, left), right)) == KeepLeft(q, Merge(left, right))
  {
    if PassersFirst(q, left) {
      forall right: seq<Row<R>> | SortedById(right)
        ensures KeepLeft(q, Merge(FilterBy(q, left), right)) == KeepLeft(q, Merge(left, right))
      {
        MergePushLeft(q, left, right);
      }
    } else {
      var k, right := Offender(q, left, v);
      assert SortedById(right);
    }
  }

  lemma {:induction false} FlipLength<L, R>(js: seq<JoinedRow<L, R>>)
    ensures |Flip(js)| == |js|
  {
    if js == [] {
    } else {
      FlipLength(js[..|js| - 1]);
    }
  }

  lemma {:induction false} MirroredLength<L, R>(q: Row<R> -> bool, left: seq<Row<L>>, right: seq<Row<R>>)
    ensures |KeepRight(q, Merge(left, right))| == |KeepLeft(q, Merge(right, left))|
  {
    MergeFlip(left, right);
    KeepFlip(q, Merge(left, right));
    FlipLength(KeepRight(q, Merge(left, right)));
  }

  /** The same on the right of a merge. */
  lemma {:induction false} MergePushRightIff<L(!new), R>(q: Row<R> -> bool, right: seq<Row<R>>, v: L)
    requires SortedById(right)
    ensures PassersFirst(q, right) <==>
            forall left: seq<Row<L>> :: SortedById(left) ==>
              KeepRight(q, Merge(left, FilterBy(q, right))) == KeepRight(q, Merge(left, right))
  {
    if PassersFirst(q, right) {
      forall left: seq<Row<L>> | SortedById(left)
        ensures KeepRight(q, Merge(left, FilterBy(q, right))) == KeepRight(q, Merge(left, right))
      {
        MergePushRight(q, left, right);
      }
    } else {
      var k, left := Offender(q, right, v);
      assert SortedById(left);
      MirroredLength(q, left, right);
      MirroredLength(q, left, FilterBy(q, right));
    }
  }

  // ----- sorting and filtering -----

  lemma {:induction false} FilterMultiplicity<V>(q: Row<V> -> bool, rows: seq<Row<V>>, r: Row<V>)
    ensures multiset(FilterBy(q, rows))[r] == if q(r) then multiset(rows)[r] else 0
  {
    if rows == [] {
    } else {
      FilterMultiplicity(q, rows[..|rows| - 1], r);
      assert rows == rows[..|rows| - 1] + [rows[|rows| - 1]];
    }
  }

  /** Rows of equal id are equal; in particular so when ids are unique. */
  ghost predicate IdDetermines<V>(rows: seq<Row<V>>) {
    forall x, y :: x in rows && y in rows && x.id == y.id ==> x == y
  }

  lemma {:induction false} SameLast<V>(a: seq<Row<V>>, b: seq<Row<V>>)
    requires a != [] && b != [] && SortedById(a) && SortedById(b) && IdDetermines(a) && multiset(a) == multiset(b)
    ensures a[|a| - 1] == b[|b| - 1]
  {
    var x, y := a[|a| - 1], b[|b| - 1];
    assert y in a by {
      assert y in multiset(b);
      assert y in multiset(a);
    }
    assert x in b by {
      assert x in multiset(a);
      assert x in multiset(b);
    }
  }

  lemma {:induction false} WithoutLast<V>(a: seq<Row<V>>, b: seq<Row<V>>)
    requires a != [] && b != [] && a[|a| - 1] == b[|b| - 1] && IdDetermines(a) && multiset(a) == multiset(b)
    ensures multiset(a[..|a| - 1]) == multiset(b[..|b| - 1]) && IdDetermines(a[..|a| - 1])
  {
    var initA, initB, x := a[..|a| - 1], b[..|b| - 1], a[|a| - 1];
    assert a == initA + [x];
    assert b == initB + [x];
    Cancel(multiset(initA), multiset(initB), x);
  }

  lemma {:induction false} SortedEqual<V>(a: seq<Row<V>>, b: seq<Row<V>>)
    requires SortedById(a) && SortedById(b) && IdDetermines(a) && multiset(a) == multiset(b)
    ensures a == b
  {
    if a == [] || b == [] {
      assert |multiset(a)| == |a| && |multiset(b)| == |b|;
    } else {
      SameLast(a, b);
      WithoutLast(a, b);
      SortedEqual(a[..|a| - 1], b[..|b| - 1]);
      assert a == a[..|a| - 1] + [a[|a| - 1]];
      assert b == b[..|b| - 1] + [b[|b| - 1]];
    }
  }

  /** When the id determines the row, any two sorts agree whether they come before or after the filter. */
  lemma {:induction false} SortCommutes<V>(q: Row<V> -> bool, rows: seq<Row<V>>, sorted: seq<Row<V>>,
                                           sortedFiltered: seq<Row<V>>)
    requires IdDetermines(rows)
    requires SortedById(sorted) && multiset(sorted) == multiset(rows)
    requires SortedById(sortedFiltered) && multiset(sortedFiltered) == multiset(FilterBy(q, rows))
    ensures sortedFiltered == FilterBy(q, sorted) && PassersFirst(q, sorted)
  {
    forall r ensures multiset(FilterBy(q, sorted))[r] == multiset(sortedFiltered)[r] {
      FilterMultiplicity(q, sorted, r);
      FilterMultiplicity(q, rows, r);
    }
    SameMultiplicities(multiset(FilterBy(q, sorted)), multiset(sortedFiltered));
    forall r ensures r in sorted <==> r in rows {
      assert r in sorted <==> r in multiset(sorted);
      assert r in rows <==> r in multiset(rows);
    }
    FilterSorted(q, sorted);
    forall r | r in FilterBy(q, sorted) ensures r in rows {
      FilterElement(q, sorted, r);
    }
    SortedEqual(FilterBy(q, sorted), sortedFiltered);
  }
}
