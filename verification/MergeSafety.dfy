/**
 Filters pushed below a merge join, for one database. A merge pairs the rows of an id by their
 positions, so a push keeps the result exactly when, for every id, each passing row that finds a
 partner after the push found the same partner before it.
 */
module MergeSafety {
  import opened JoinAlgorithms
  import opened JoinPushDown
  import opened PlanModel
  import opened PlanSafety

  // ----- one id -----

  /** The positions, in order, at which the values of an id pass. */
  function Passing(q: Record -> bool, id: int, ls: seq<Values>): (ps: seq<nat>)
    ensures |ps| <= |ls|
    ensures forall k :: 0 <= k < |ps| ==> k <= ps[k] < |ls|
    ensures forall j, k :: 0 <= j < k < |ps| ==> ps[j] < ps[k]
  {
    if ls == [] then []
    else
      var ps := Passing(q, id, ls[..|ls| - 1]);
      if q(Row(id, ls[|ls| - 1])) then ps + [|ls| - 1] else ps
  }

  lemma {:induction false} PassingPrefix(q: Record -> bool, id: int, ls: seq<Values>, n: nat)
    requires n <= |ls|
    ensures Passing(q, id, ls[..n]) <= Passing(q, id, ls)
    ensures forall k :: |Passing(q, id, ls[..n])| <= k < |Passing(q, id, ls)| ==> Passing(q, id, ls)[k] >= n
  {
    if n == |ls| {
      assert ls[..n] == ls;
    } else {
      PassingPrefix(q, id, ls[..|ls| - 1], n);
      assert ls[..|ls| - 1][..n] == ls[..n];
    }
  }

  lemma {:induction false} PairUpAt(id: int, ls: seq<Values>, rs: seq<Values>, k: nat)
    requires k < |PairUp(id, ls, rs)|
    ensures k < |ls| && k < |rs| && PairUp(id, ls, rs)[k] == JoinedRow(id, ls[k], rs[k])
    decreases k
  {
    if k == 0 {
    } else {
      PairUpAt(id, ls[1..], rs[1..], k - 1);
    }
  }

  /** The joined rows that pass are those at the passing positions. */
  lemma {:induction false} KeptAt(q: Record -> bool, id: int, ls: seq<Values>, js: seq<Joined>)
    requires |js| <= |ls|
    requires forall k :: 0 <= k < |js| ==> js[k].id == id && js[k].leftValue == ls[k]
    ensures var ps := Passing(q, id, ls[..|js|]);
            |KeepLeft(q, js)| == |ps| && forall k :: 0 <= k < |ps| ==> KeepLeft(q, js)[k] == js[ps[k]]
  {
    if js == [] {
      assert ls[..0] == [];
    } else {
      var init := js[..|js| - 1];
      KeptAt(q, id, ls, init);
      assert ls[..|js|][..|init|] == ls[..|init|];
    }
  }

  /**
   The k-th passing row of the id meets, after the push, the k-th row opposite; before it, the row
   opposite its own position. `fs` are the passing rows as the sort gives them when they are sorted alone.
   */
  predicate KeepsId(q: Record -> bool, id: int, ls: seq<Values>, fs: seq<Values>, rs: seq<Values>) {
    var ps := Passing(q, id, ls);
    forall k :: 0 <= k < |ps| && k < |fs| && k < |rs| ==>
      ps[k] < |rs| && fs[k] == ls[ps[k]] && rs[k] == rs[ps[k]]
  }

  lemma {:induction false} AllKept(q: Record -> bool, js: seq<Joined>)
    requires forall k :: 0 <= k < |js| ==> q(LeftOf(js[k]))
    ensures KeepLeft(q, js) == js
  {
    if js == [] {
    } else {
      AllKept(q, js[..|js| - 1]);
      assert js == js[..|js| - 1] + [js[|js| - 1]];
    }
  }

  lemma {:induction false} PairsBefore(q: Record -> bool, id: int, ls: seq<Values>, rs: seq<Values>)
    ensures var ps := Passing(q, id, ls);
            var b := KeepLeft(q, PairUp(id, ls, rs));
            && |b| <= |ps| && |b| <= |rs|
            && (forall k :: 0 <= k < |ps| ==> (k < |b| <==> ps[k] < |rs|))
            && (forall k :: 0 <= k < |b| ==> b[k] == JoinedRow(id, ls[ps[k]], rs[ps[k]]))
  {
    var js := PairUp(id, ls, rs);
    PairUpLength(id, ls, rs);
    forall k | 0 <= k < |js| ensures js[k] == JoinedRow(id, ls[k], rs[k]) {
      PairUpAt(id, ls, rs, k);
    }
    KeptAt(q, id, ls, js);
    PassingPrefix(q, id, ls, |js|);
  }

  lemma {:induction false} PairsAfter(q: Record -> bool, id: int, fs: seq<Values>, rs: seq<Values>)
    requires forall k :: 0 <= k < |fs| ==> q(Row(id, fs[k]))
    ensures var a := KeepLeft(q, PairUp(id, fs, rs));
            |a| == Min(|fs|, |rs|) && forall k :: 0 <= k < |a| ==> a[k] == JoinedRow(id, fs[k], rs[k])
  {
    var js := PairUp(id, fs, rs);
    PairUpLength(id, fs, rs);
    forall k | 0 <= k < |js| ensures js[k] == JoinedRow(id, fs[k], rs[k]) {
      PairUpAt(id, fs, rs, k);
    }
    AllKept(q, js);
  }

  lemma {:induction false} IdKeptIff(q: Record -> bool, id: int, ls: seq<Values>, fs: seq<Values>, rs: seq<Values>)
    requires |fs| == |Passing(q, id, ls)| && forall k :: 0 <= k < |fs| ==> q(Row(id, fs[k]))
    ensures KeepLeft(q, PairUp(id, fs, rs)) == KeepLeft(q, PairUp(id, ls, rs)) <==> KeepsId(q, id, ls, fs, rs)
  {
    var ps, a, b := Passing(q, id, ls), KeepLeft(q, PairUp(id, fs, rs)), KeepLeft(q, PairUp(id, ls, rs));
    PairsBefore(q, id, ls, rs);
    PairsAfter(q, id, fs, rs);
    if KeepsId(q, id, ls, fs, rs) {
      forall k | 0 <= k < |a| ensures k < |b| && a[k] == b[k] {
        assert ps[k] < |rs|;
      }
      if |a| > 0 {
        assert a[|a| - 1] == JoinedRow(id, fs[|a| - 1], rs[|a| - 1]);
        assert |a| - 1 < |b|;
      }
      assert a == b;
    } else if a == b {
      forall k | 0 <= k < |ps| && k < |fs| && k < |rs|
        ensures ps[k] < |rs| && fs[k] == ls[ps[k]] && rs[k] == rs[ps[k]]
      {
        assert k < |a| && a[k] == b[k];
      }
    }
  }

  // ----- all ids -----

  predicate SortedJoined(js: seq<Joined>) {
    forall i, j :: 0 <= i < j < |js| ==> js[i].id <= js[j].id
  }

  lemma {:induction false} MergeIsSorted(left: seq<Record>, right: seq<Record>)
    requires SortedById(left) && SortedById(right)
    ensures SortedJoined(Merge(left, right))
    decreases |left| + |right|
  {
    if left == [] || right == [] {
    } else if left[0].id == right[0].id {
      var rest: seq<Joined> := Merge(left[1..], right[1..]);
      MergeIsSorted(left[1..], right[1..]);
      MergeSourced(left[1..], right[1..]);
      forall i | 0 <= i < |rest| ensures left[0].id <= rest[i].id {
        assert LeftOf(rest[i]) in left[1..];
      }
    } else if left[0].id < right[0].id {
      MergeIsSorted(left[1..], right);
    } else {
      MergeIsSorted(left, right[1..]);
    }
  }

  lemma {:induction false} KeptElement(q: Record -> bool, js: seq<Joined>, j: Joined)
    requires j in KeepLeft(q, js)
    ensures j in js
  {
    if j in KeepLeft(q, js[..|js| - 1]) {
      KeptElement(q, js[..|js| - 1], j);
    }
  }

  lemma {:induction false} KeptIsSorted(q: Record -> bool, js: seq<Joined>)
    requires SortedJoined(js)
    ensures SortedJoined(KeepLeft(q, js))
  {
    if js == [] {
    } else {
      var init, kept := js[..|js| - 1], KeepLeft(q, js[..|js| - 1]);
      KeptIsSorted(q, init);
      forall i | 0 <= i < |kept| ensures kept[i].id <= js[|js| - 1].id {
        KeptElement(q, init, kept[i]);
      }
    }
  }

  lemma {:induction false} KeepFront(q: Record -> bool, j: Joined, js: seq<Joined>)
    ensures KeepLeft(q, [j] + js) == if q(LeftOf(j)) then [j] + KeepLeft(q, js) else KeepLeft(q, js)
  {
    KeepLeftConcat(q, [j], js);
    assert KeepLeft(q, [j]) == if q(LeftOf(j)) then [j] else [];
  }

  lemma {:induction false} RowsOfKept(q: Record -> bool, js: seq<Joined>, id: int)
    ensures RowsOf(KeepLeft(q, js), id) == KeepLeft(q, RowsOf(js, id))
  {
    if js == [] {
    } else {
      assert js == [js[0]] + js[1..];
      RowsOfKept(q, js[1..], id);
      KeepFront(q, js[0], js[1..]);
      KeepFront(q, js[0], RowsOf(js[1..], id));
      assert ([js[0]] + KeepLeft(q, js[1..]))[1..] == KeepLeft(q, js[1..]);
    }
  }

  lemma {:induction false} RowsOfElement(js: seq<Joined>, id: int)
    ensures RowsOf(js, id) != [] ==> exists i :: 0 <= i < |js| && js[i].id == id
  {
    if js == [] || js[0].id == id {
    } else {
      RowsOfElement(js[1..], id);
      assert forall i :: 0 <= i < |js| - 1 ==> js[1..][i] == js[i + 1];
    }
  }

  lemma {:induction false} HeadReached(a: seq<Joined>, b: seq<Joined>)
    requires SortedJoined(b) && a != [] && forall id :: RowsOf(a, id) == RowsOf(b, id)
    ensures b != [] && b[0].id <= a[0].id
  {
    assert RowsOf(a, a[0].id) == RowsOf(b, a[0].id);
    RowsOfElement(b, a[0].id);
  }

  /** Sorted joined rows that agree on every id are equal. */
  lemma {:induction false} EqualPerJoinedId(a: seq<Joined>, b: seq<Joined>)
    requires SortedJoined(a) && SortedJoined(b) && forall id :: RowsOf(a, id) == RowsOf(b, id)
    ensures a == b
  {
    if a == [] {
      if b != [] {
        HeadReached(b, a);
      }
    } else {
      HeadReached(a, b);
      HeadReached(b, a);
      var x := a[0].id;
      assert RowsOf(a, x) == RowsOf(b, x);
      assert RowsOf(a, x)[0] == a[0] && RowsOf(b, x)[0] == b[0];
      forall id ensures RowsOf(a[1..], id) == RowsOf(b[1..], id) {
        assert RowsOf(a, id) == RowsOf(b, id);
        if id == x {
          assert RowsOf(a, x)[1..] == RowsOf(a[1..], x) && RowsOf(b, x)[1..] == RowsOf(b[1..], x);
        }
      }
      EqualPerJoinedId(a[1..], b[1..]);
      assert a == [a[0]] + a[1..] && b == [b[0]] + b[1..];
    }
  }

  /** The kept rows are as many as pass, and all pass. */
  ghost predicate Filtered(q: Record -> bool, all: seq<Record>, kept: seq<Record>) {
    forall id :: |ValuesOf(kept, id)| == |Passing(q, id, ValuesOf(all, id))| &&
      forall k :: 0 <= k < |ValuesOf(kept, id)| ==> q(Row(id, ValuesOf(kept, id)[k]))
  }

  ghost predicate KeepsAll(q: Record -> bool, all: seq<Record>, kept: seq<Record>, other: seq<Record>) {
    forall id :: KeepsId(q, id, ValuesOf(all, id), ValuesOf(kept, id), ValuesOf(other, id))
  }

  lemma {:induction false} KeptOnId(q: Record -> bool, all: seq<Record>, kept: seq<Record>, other: seq<Record>, id: int)
    requires SortedById(all) && SortedById(kept) && SortedById(other) && Filtered(q, all, kept)
    ensures RowsOf(KeepLeft(q, Merge(kept, other)), id) == RowsOf(KeepLeft(q, Merge(all, other)), id) <==>
            KeepsId(q, id, ValuesOf(all, id), ValuesOf(kept, id), ValuesOf(other, id))
  {
    RowsOfKept(q, Merge(kept, other), id);
    RowsOfKept(q, Merge(all, other), id);
    MergePairsUp(kept, other, id);
    MergePairsUp(all, other, id);
    assert |ValuesOf(kept, id)| == |Passing(q, id, ValuesOf(all, id))|;
    IdKeptIff(q, id, ValuesOf(all, id), ValuesOf(kept, id), ValuesOf(other, id));
  }

  lemma {:induction false} MergeKeepsIff(q: Record -> bool, all: seq<Record>, kept: seq<Record>, other: seq<Record>)
    requires SortedById(all) && SortedById(kept) && SortedById(other) && Filtered(q, all, kept)
    ensures KeepLeft(q, Merge(kept, other)) == KeepLeft(q, Merge(all, other)) <==> KeepsAll(q, all, kept, other)
  {
    var a: seq<Joined>, b: seq<Joined> := KeepLeft(q, Merge(kept, other)), KeepLeft(q, Merge(all, other));
    forall id
      ensures RowsOf(a, id) == RowsOf(b, id) <==>
              KeepsId(q, id, ValuesOf(all, id), ValuesOf(kept, id), ValuesOf(other, id))
    {
      KeptOnId(q, all, kept, other, id);
    }
    if KeepsAll(q, all, kept, other) {
      MergeIsSorted(kept, other);
      MergeIsSorted(all, other);
      KeptIsSorted(q, Merge(kept, other));
      KeptIsSorted(q, Merge(all, other));
      EqualPerJoinedId(a, b);
    }
  }

  // ----- the sorted tables -----

  lemma {:induction false} PassingCount(q: Record -> bool, rows: seq<Record>, id: int)
    ensures |ValuesOf(FilterBy(q, rows), id)| == |Passing(q, id, ValuesOf(rows, id))|
  {
    if rows == [] {
    } else {
      var init, last := rows[..|rows| - 1], rows[|rows| - 1];
      PassingCount(q, init, id);
      assert rows == init + [last];
      ValuesConcat(init, [last], id);
      ValuesConcat(FilterBy(q, init), if q(last) then [last] else [], id);
      if last.id == id {
        var ls := ValuesOf(init, id);
        assert ValuesOf([last], id) == [last.value];
        assert (ls + [last.value])[..|ls|] == ls && last == Row(id, last.value);
      } else {
        assert ValuesOf([last], id) == [];
        assert ValuesOf(init, id) + [] == ValuesOf(init, id);
      }
    }
  }

  lemma {:induction false} ValuesElement(rows: seq<Record>, id: int, k: nat)
    requires k < |ValuesOf(rows, id)|
    ensures Row(id, ValuesOf(rows, id)[k]) in rows
  {
    if rows[0].id == id {
      if k > 0 {
        ValuesElement(rows[1..], id, k - 1);
      }
    } else {
      ValuesElement(rows[1..], id, k);
    }
  }

  lemma {:induction false} SameFilteredCount(q: Record -> bool, a: seq<Record>, b: seq<Record>, id: int)
    requires multiset(a) == multiset(b)
    ensures |ValuesOf(FilterBy(q, a), id)| == |ValuesOf(FilterBy(q, b), id)|
  {
    var fa, fb := FilterBy(q, a), FilterBy(q, b);
    forall r ensures multiset(fa)[r] == multiset(fb)[r] {
      FilterMultiplicity(q, a, r);
      FilterMultiplicity(q, b, r);
    }
    SameMultiplicities(multiset(fa), multiset(fb));
    SameCount(fa, fb, id);
  }

  lemma {:induction false} SortedFilter(env: Env, c: Condition, rows: seq<Record>)
    requires ValidEnv(env)
    ensures Filtered(Test(c), env.sort(rows), env.sort(FilterBy(Test(c), rows)))
  {
    var q := Test(c);
    var all, kept := env.sort(rows), env.sort(FilterBy(q, rows));
    assert multiset(all) == multiset(rows) && multiset(kept) == multiset(FilterBy(q, rows));
    FilteredSortPasses(env, c, rows);
    forall id
      ensures |ValuesOf(kept, id)| == |Passing(q, id, ValuesOf(all, id))|
      ensures forall k :: 0 <= k < |ValuesOf(kept, id)| ==> q(Row(id, ValuesOf(kept, id)[k]))
    {
      SameCount(kept, FilterBy(q, rows), id);
      SameFilteredCount(q, rows, all, id);
      PassingCount(q, all, id);
      forall k | 0 <= k < |ValuesOf(kept, id)| ensures q(Row(id, ValuesOf(kept, id)[k])) {
        ValuesElement(kept, id, k);
      }
    }
  }

  // ----- plans -----

  /** For every id, the passing rows keep their partners when the others are taken out first. */
  ghost predicate KeepsPartners(env: Env, c: Condition, rows: seq<Record>, other: seq<Record>) {
    KeepsAll(Test(c), env.sort(rows), env.sort(FilterBy(Test(c), rows)), env.sort(other))
  }

  ghost predicate InColumns(js: seq<Joined>, lc: set<Column>, rc: set<Column>) {
    forall i :: 0 <= i < |js| ==> js[i].leftValue.Keys <= lc && js[i].rightValue.Keys <= rc
  }

  lemma {:induction false} BothParts(j: Joined, lc: set<Column>, rc: set<Column>)
    requires lc !! rc && j.leftValue.Keys <= lc && j.rightValue.Keys <= rc
    ensures Restrict(Combine(j).value, lc) == j.leftValue && Restrict(Combine(j).value, rc) == j.rightValue
  {
    RestrictMerged(j.leftValue, j.rightValue, lc);
    RestrictMerged(j.leftValue, j.rightValue, rc);
    assert Restrict(j.leftValue, lc) == j.leftValue && Restrict(j.rightValue, rc) == j.rightValue;
  }

  /** With no column in common the two parts can be told from the whole. */
  lemma {:induction false} CombineInjective(js: seq<Joined>, ks: seq<Joined>, lc: set<Column>, rc: set<Column>)
    requires lc !! rc && InColumns(js, lc, rc) && InColumns(ks, lc, rc) && CombineAll(js) == CombineAll(ks)
    ensures js == ks
  {
    CombineLength(js);
    CombineLength(ks);
    if js == [] {
    } else {
      var a, b := CombineAll(js), CombineAll(ks);
      CombineLength(js[..|js| - 1]);
      CombineLength(ks[..|ks| - 1]);
      assert a[..|a| - 1] == CombineAll(js[..|js| - 1]) && b[..|b| - 1] == CombineAll(ks[..|ks| - 1]);
      CombineInjective(js[..|js| - 1], ks[..|ks| - 1], lc, rc);
      assert a[|a| - 1] == Combine(js[|js| - 1]) && b[|b| - 1] == Combine(ks[|ks| - 1]);
      BothParts(js[|js| - 1], lc, rc);
      BothParts(ks[|ks| - 1], lc, rc);
      assert js == js[..|js| - 1] + [js[|js| - 1]] && ks == ks[..|ks| - 1] + [ks[|ks| - 1]];
    }
  }

  lemma {:induction false} KeptInColumns(q: Record -> bool, js: seq<Joined>, left: seq<Record>, right: seq<Record>,
                                         lc: set<Column>, rc: set<Column>)
    requires Sourced(js, left, right) && Within(left, lc) && Within(right, rc)
    ensures InColumns(KeepLeft(q, js), lc, rc)
  {
    var kept := KeepLeft(q, js);
    forall i | 0 <= i < |kept| ensures kept[i].leftValue.Keys <= lc && kept[i].rightValue.Keys <= rc {
      KeptElement(q, js, kept[i]);
      assert LeftOf(kept[i]) in left && RightOf(kept[i]) in right;
    }
  }

  lemma {:induction false} MergeInColumns(q: Record -> bool, env: Env, left: seq<Record>, right: seq<Record>,
                                          lc: set<Column>, rc: set<Column>)
    requires ValidEnv(env) && Within(left, lc) && Within(right, rc)
    ensures InColumns(KeepLeft(q, Merge(env.sort(left), env.sort(right))), lc, rc)
  {
    JoinSourced(env, MergeJoin, left, right);
    KeptInColumns(q, JoinRows(env, MergeJoin, left, right), left, right, lc, rc);
  }

  lemma {:induction false} PushKeepsIff(env: Env, c: Condition, rows: seq<Record>, other: seq<Record>)
    requires ValidEnv(env)
    ensures (KeepLeft(Test(c), Merge(env.sort(FilterBy(Test(c), rows)), env.sort(other))) ==
             KeepLeft(Test(c), Merge(env.sort(rows), env.sort(other)))) <==>
            KeepsPartners(env, c, rows, other)
  {
    var all, kept, opposite := env.sort(rows), env.sort(FilterBy(Test(c), rows)), env.sort(other);
    assert SortedById(all) && SortedById(kept) && SortedById(opposite);
    SortedFilter(env, c, rows);
    MergeKeepsIff(Test(c), all, kept, opposite);
  }

  /**
   For one database: the push to the left of a merge join keeps the result exactly when, for every
   id, each passing left row that finds a partner after the push found the same partner before.
   */
  lemma {:induction false} MergePushLeftPreservesIff(c: Condition, left: Plan, right: Plan, env: Env)
    requires ValidEnv(env) && WellFormed(Join(MergeJoin, left, right)) && AppliesTo(c, left)
    ensures var join := Join(MergeJoin, left, right);
            Eval(Filter(c, PushInto(c, join)), env) == Eval(Filter(c, join), env) <==>
            KeepsPartners(env, c, Eval(left, env), Eval(right, env))
  {
    var ls, rs, q := Eval(left, env), Eval(right, env), Test(c);
    var a := KeepLeft(q, Merge(env.sort(FilterBy(q, ls)), env.sort(rs)));
    var b := KeepLeft(q, Merge(env.sort(ls), env.sort(rs)));
    PushLeftRowsAbove(c, MergeJoin, left, right, env);
    PushKeepsIff(env, c, ls, rs);
    EvalWithin(left, env);
    EvalWithin(right, env);
    FilterWithin(c, ls, Columns(left));
    MergeInColumns(q, env, ls, rs, Columns(left), Columns(right));
    MergeInColumns(q, env, FilterBy(q, ls), rs, Columns(left), Columns(right));
    if CombineAll(a) == CombineAll(b) {
      CombineInjective(a, b, Columns(left), Columns(right));
    }
  }

  // ----- the right side -----

  lemma {:induction false} FlipInjective(js: seq<Joined>, ks: seq<Joined>)
    requires Flip(js) == Flip(ks)
    ensures js == ks
  {
    FlipTwice(js);
    FlipTwice(ks);
  }

  lemma {:induction false} MirroredKept(q: Record -> bool, left: seq<Record>, right: seq<Record>)
    ensures KeepLeft(q, Merge(right, left)) == Flip(KeepRight(q, Merge(left, right)))
  {
    MergeFlip(left, right);
    KeepFlip(q, Merge(left, right));
  }

  lemma {:induction false} FlippedInColumns(js: seq<Joined>, lc: set<Column>, rc: set<Column>)
    requires InColumns(Flip(js), rc, lc)
    ensures InColumns(js, lc, rc)
  {
    if js == [] {
    } else {
      var flipped, init := Flip(js), Flip(js[..|js| - 1]);
      FlipLength(js);
      FlipLength(js[..|js| - 1]);
      assert forall i :: 0 <= i < |init| ==> init[i] == flipped[i];
      FlippedInColumns(js[..|js| - 1], lc, rc);
      assert flipped[|flipped| - 1] == JoinedRow(js[|js| - 1].id, js[|js| - 1].rightValue, js[|js| - 1].leftValue);
    }
  }

  lemma {:induction false} RightInColumns(q: Record -> bool, env: Env, left: seq<Record>, right: seq<Record>,
                                          lc: set<Column>, rc: set<Column>)
    requires ValidEnv(env) && Within(left, lc) && Within(right, rc)
    ensures InColumns(KeepRight(q, Merge(env.sort(left), env.sort(right))), lc, rc)
  {
    MergeInColumns(q, env, right, left, rc, lc);
    MirroredKept(q, env.sort(left), env.sort(right));
    FlippedInColumns(KeepRight(q, Merge(env.sort(left), env.sort(right))), lc, rc);
  }

  /** The same for the push to the right. */
  lemma {:induction false} MergePushRightPreservesIff(c: Condition, left: Plan, right: Plan, env: Env)
    requires ValidEnv(env) && WellFormed(Join(MergeJoin, left, right))
    requires !AppliesTo(c, left) && AppliesTo(c, right)
    ensures var join := Join(MergeJoin, left, right);
            Eval(Filter(c, PushInto(c, join)), env) == Eval(Filter(c, join), env) <==>
            KeepsPartners(env, c, Eval(right, env), Eval(left, env))
  {
    var ls, rs, q := Eval(left, env), Eval(right, env), Test(c);
    var a := KeepRight(q, Merge(env.sort(ls), env.sort(FilterBy(q, rs))));
    var b := KeepRight(q, Merge(env.sort(ls), env.sort(rs)));
    PushRightRowsAbove(c, MergeJoin, left, right, env);
    PushKeepsIff(env, c, rs, ls);
    MirroredKept(q, env.sort(ls), env.sort(FilterBy(q, rs)));
    MirroredKept(q, env.sort(ls), env.sort(rs));
    EvalWithin(left, env);
    EvalWithin(right, env);
    FilterWithin(c, rs, Columns(right));
    RightInColumns(q, env, ls, rs, Columns(left), Columns(right));
    RightInColumns(q, env, ls, FilterBy(q, rs), Columns(left), Columns(right));
    if CombineAll(a) == CombineAll(b) {
      CombineInjective(a, b, Columns(left), Columns(right));
    }
    if Flip(a) == Flip(b) {
      FlipInjective(a, b);
    }
  }

  // ----- a push that changes the result -----

  lemma {:induction false} SortedStays(rows: seq<Record>)
    requires SortedById(rows)
    ensures SortRows(rows) == rows
  {
    if rows == [] {
    } else {
      SortedStays(rows[..|rows| - 1]);
    }
  }

  lemma {:induction false} LosesPartner(q: Record -> bool, id: int, ls: seq<Values>, fs: seq<Values>, rs: seq<Values>)
    requires Passing(q, id, ls) == [1] && |fs| == 1 && |rs| == 1
    ensures !KeepsId(q, id, ls, fs, rs)
  {
    assert Passing(q, id, ls)[0] == 1;
  }

  lemma {:induction false} TrimOne(r: Record, columns: set<Column>)
    requires r.value.Keys <= columns
    ensures Trim([r], columns) == [r]
  {
    assert Restrict(r.value, columns) == r.value;
    assert [r][..0] == [] && Trim([], columns) == [];
  }

  /** Two left rows of one id, the first failing and the second passing, and one right row of the id. */
  lemma {:induction false} SecondLosesPartner(env: Env, c: Condition, y: Record, z: Record, r: Record)
    requires ValidEnv(env) && env.sort([y, z]) == [y, z] && y.id == z.id == r.id && !Holds(c, y) && Holds(c, z)
    ensures !KeepsPartners(env, c, [y, z], [r])
  {
    var q, id := Test(c), y.id;
    SortedFilter(env, c, [y, z]);
    assert Passing(q, id, [y.value]) == [] by { assert [y.value][..0] == []; }
    assert [y.value, z.value][..1] == [y.value] && z == Row(id, z.value);
    assert Passing(q, id, [y.value, z.value]) == [1];
    assert ValuesOf([z], id) == [z.value] && [y, z][1..] == [z];
    assert ValuesOf([y, z], id) == [y.value, z.value];
    assert |env.sort([r])| == 1 by { assert |multiset(env.sort([r]))| == |multiset([r])|; }
    assert |ValuesOf(env.sort([r]), id)| == 1 by {
      SameCount(env.sort([r]), [r], id);
      assert ValuesOf([r], id) == [r.value];
    }
    assert |ValuesOf(env.sort(FilterBy(q, [y, z])), id)| == 1;
    LosesPartner(q, id, [y.value, z.value], ValuesOf(env.sort(FilterBy(q, [y, z])), id), ValuesOf(env.sort([r]), id));
  }

  lemma {:induction false} ChangedByMergePush(c: Condition, left: Plan, right: Plan, env: Env)
    requires ValidEnv(env) && WellFormed(Join(MergeJoin, left, right)) && left.Scan? && right.Scan? &&
             AppliesTo(c, left)
    requires !KeepsPartners(env, c, Eval(left, env), Eval(right, env))
    ensures var p := Filter(c, Join(MergeJoin, left, right)); Eval(Optimize(p), env) != Eval(p, env)
  {
    var join := Join(MergeJoin, left, right);
    MergePushLeftPreservesIff(c, left, right, env);
    assert Optimize(Filter(c, left)) == Filter(c, left);
    assert Optimize(PushInto(c, join)) == PushInto(c, join);
  }

  /** Over two such tables the optimized plan returns another result, whatever else the rows and the condition are. */
  lemma {:induction false} MergeResultChanges(env: Env, c: Condition, y: Record, z: Record, r: Record,
                                              lc: set<Column>, rc: set<Column>)
    requires ValidEnv(env) && env.tables == map["l" := [y, z], "r" := [r]] && env.sort([y, z]) == [y, z]
    requires lc !! rc && c.uses <= lc && y.value.Keys <= lc && z.value.Keys <= lc && r.value.Keys <= rc
    requires y.id == z.id == r.id && !Holds(c, y) && Holds(c, z)
    ensures var p := Filter(c, Join(MergeJoin, Scan("l", lc), Scan("r", rc)));
            WellFormed(p) && Eval(Optimize(p), env) != Eval(p, env)
  {
    TrimPair(y, z, lc);
    TrimOne(r, rc);
    SecondLosesPartner(env, c, y, z, r);
    ChangedByMergePush(c, Scan("l", lc), Scan("r", rc), env);
  }

  /** A database with a stable sort. */
  function StableEnv(tables: map<string, seq<Record>>): Env {
    Env(tables, rows => SortRows(rows))
  }

  lemma {:induction false} StableEnvIsValid(tables: map<string, seq<Record>>, y: Record, z: Record)
    requires y.id <= z.id
    ensures ValidEnv(StableEnv(tables)) && StableEnv(tables).sort([y, z]) == [y, z]
  {
    var env := StableEnv(tables);
    forall rows ensures SortedById(env.sort(rows)) && multiset(env.sort(rows)) == multiset(rows) {
      SortRowsCorrect(rows);
    }
    SortedStays([y, z]);
  }

  /** There are such tables, so with merge joins too the optimized plan can return another result. */
  lemma {:induction false} OptimizeCanChangeMergeResult() returns (c: Condition, env: Env)
    ensures ValidEnv(env)
    ensures var p := Filter(c, Join(MergeJoin, Scan("l", {"a"}), Scan("r", {"b"})));
            WellFormed(p) && Eval(Optimize(p), env) != Eval(p, env)
  {
    c := Condition({"a"}, (id, v: Values) => "a" in v && v["a"] == "1");
    var y, z, r: Record := Row(1, map["a" := "0"]), Row(1, map["a" := "1"]), Row(1, map["b" := "0"]);
    env := StableEnv(map["l" := [y, z], "r" := [r]]);
    StableEnvIsValid(env.tables, y, z);
    MergeResultChanges(env, c, y, z, r, {"a"}, {"b"});
  }
}
