/**
 When pushing filters down is safe. A database whose ids determine the rows of its tables makes
 the whole optimization safe, whatever joins a plan uses; and for a merge join the condition on a
 single push is exact.
 */
module PlanSafety {
  import opened JoinAlgorithms
  import opened JoinPushDown
  import opened PlanModel

  // ----- tables whose ids determine their rows -----

  /** Scans, filters and joins over tables whose ids determine their rows. */
  ghost predicate Keyed(p: Plan, env: Env) {
    match p
    case Scan(table, _) => table in env.tables ==> IdDetermines(env.tables[table])
    case Filter(_, input) => Keyed(input, env)
    case Join(_, left, right) => Keyed(left, env) && Keyed(right, env)
    case _ => false
  }

  /** Every join of the plan is one of such plans; above the joins there may be anything. */
  ghost predicate KeyedJoins(p: Plan, env: Env) {
    match p
    case Scan(_, _) => true
    case Filter(_, input) => KeyedJoins(input, env)
    case Join(_, left, right) => Keyed(left, env) && Keyed(right, env)
    case Unary(_, _, input) => KeyedJoins(input, env)
    case Binary(_, _, left, right) => KeyedJoins(left, env) && KeyedJoins(right, env)
  }

  lemma {:induction false} TrimElement(rows: seq<Record>, columns: set<Column>, r: Record) returns (x: Record)
    requires r in Trim(rows, columns)
    ensures x in rows && r == Row(x.id, Restrict(x.value, columns))
  {
    if r in Trim(rows[..|rows| - 1], columns) {
      x := TrimElement(rows[..|rows| - 1], columns, r);
    } else {
      x := rows[|rows| - 1];
    }
  }

  lemma {:induction false} TrimDetermined(rows: seq<Record>, columns: set<Column>)
    requires IdDetermines(rows)
    ensures IdDetermines(Trim(rows, columns))
  {
    forall r, s | r in Trim(rows, columns) && s in Trim(rows, columns) && r.id == s.id ensures r == s {
      var x := TrimElement(rows, columns, r);
      var y := TrimElement(rows, columns, s);
    }
  }

  lemma {:induction false} FilterDetermined(c: Condition, rows: seq<Record>)
    requires IdDetermines(rows)
    ensures IdDetermines(FilterBy(Test(c), rows))
  {
    forall r | r in FilterBy(Test(c), rows) ensures r in rows {
      FilterElement(Test(c), rows, r);
    }
  }

  lemma {:induction false} CombineElement(js: seq<Joined>, r: Record) returns (j: Joined)
    requires r in CombineAll(js)
    ensures j in js && r == Combine(j)
  {
    if r in CombineAll(js[..|js| - 1]) {
      j := CombineElement(js[..|js| - 1], r);
    } else {
      j := js[|js| - 1];
    }
  }

  lemma {:induction false} JoinDetermined(js: seq<Joined>, left: seq<Record>, right: seq<Record>)
    requires Sourced(js, left, right) && IdDetermines(left) && IdDetermines(right)
    ensures IdDetermines(CombineAll(js))
  {
    forall r, s | r in CombineAll(js) && s in CombineAll(js) && r.id == s.id ensures r == s {
      var j := CombineElement(js, r);
      var k := CombineElement(js, s);
      assert LeftOf(j) in left && LeftOf(k) in left && RightOf(j) in right && RightOf(k) in right;
      assert LeftOf(j) == LeftOf(k) && RightOf(j) == RightOf(k);
    }
  }

  /** Trimming, filtering and joining keep it that ids determine rows. */
  lemma {:induction false} KeyedDetermines(p: Plan, env: Env)
    requires ValidEnv(env) && Keyed(p, env)
    ensures IdDetermines(Eval(p, env))
  {
    match p
    case Scan(table, columns) => TrimDetermined(if table in env.tables then env.tables[table] else [], columns);
    case Filter(c, input) =>
      KeyedDetermines(input, env);
      FilterDetermined(c, Eval(input, env));
    case Join(joinType, left, right) =>
      var ls, rs := Eval(left, env), Eval(right, env);
      KeyedDetermines(left, env);
      KeyedDetermines(right, env);
      JoinSourced(env, joinType, ls, rs);
      JoinDetermined(JoinRows(env, joinType, ls, rs), ls, rs);
  }

  lemma {:induction false} KeyedHasKeyedJoins(p: Plan, env: Env)
    requires Keyed(p, env)
    ensures KeyedJoins(p, env)
  {
    if p.Filter? {
      KeyedHasKeyedJoins(p.input, env);
    }
  }

  lemma {:induction false} KeyedPushIsSafe(c: Condition, input: Plan, env: Env)
    requires ValidEnv(env) && KeyedJoins(input, env)
    ensures PushSafe(c, input, env) && KeyedJoins(PushInto(c, input), env)
  {
    if input.Join? {
      KeyedDetermines(input.left, env);
      KeyedDetermines(input.right, env);
      DeterminedSideIsSafe(env, c, input.joinType, Eval(input.left, env), Eval(input.right, env));
    }
  }

  lemma {:induction false} KeyedPlansAreSafe(p: Plan, env: Env)
    requires ValidEnv(env) && KeyedJoins(p, env)
    ensures Safe(p, env)
    decreases Binaries(p), Chain(p)
  {
    match p
    case Scan(_, _) =>
    case Filter(c, input) =>
      KeyedPushIsSafe(c, input, env);
      KeyedPlansAreSafe(PushInto(c, input), env);
    case Join(_, left, right) =>
      KeyedHasKeyedJoins(left, env);
      KeyedHasKeyedJoins(right, env);
      KeyedPlansAreSafe(left, env);
      KeyedPlansAreSafe(right, env);
    case Unary(_, _, input) =>
      KeyedPlansAreSafe(input, env);
    case Binary(_, _, left, right) =>
      KeyedPlansAreSafe(left, env);
      KeyedPlansAreSafe(right, env);
  }

  /**
   Over tables whose ids determine their rows, the optimized plan returns the same rows in the
   same order, whatever joins it uses and however deep they are nested.
   */
  lemma {:induction false} KeyedPlansArePreserved(p: Plan, env: Env)
    requires ValidEnv(env) && WellFormed(p) && KeyedJoins(p, env)
    ensures Eval(Optimize(p), env) == Eval(p, env)
  {
    KeyedPlansAreSafe(p, env);
    OptimizePreserves(p, env);
  }

  // ----- merge joins: the condition is exact -----

  function SameId(id: int): Record -> bool {
    (r: Record) => r.id == id
  }

  /** A table of rows of one id and no columns. */
  function Repeat(id: int, m: nat): seq<Record> {
    seq(m, _ => Row(id, map[]))
  }

  /** The rows a filter leaves of the merge of sorted rows with such a table. */
  function Seen(c: Condition, rows: seq<Record>, id: int, m: nat): seq<Record> {
    CombineAll(KeepLeft(Test(c), Merge(rows, Repeat(id, m))))
  }

  lemma {:induction false} OnlyOneRow(rows: seq<Record>, id: int, m: nat)
    requires multiset(rows) == multiset(Repeat(id, m))
    ensures rows == Repeat(id, m)
  {
    assert |multiset(rows)| == |rows| && |multiset(Repeat(id, m))| == m;
    forall i | 0 <= i < |rows| ensures rows[i] == Row(id, map[]) {
      assert rows[i] in multiset(rows);
      assert rows[i] in multiset(Repeat(id, m));
    }
  }

  lemma {:induction false} RepeatSorts(env: Env, id: int, m: nat)
    requires ValidEnv(env)
    ensures env.sort(Repeat(id, m)) == Repeat(id, m)
  {
    assert multiset(env.sort(Repeat(id, m))) == multiset(Repeat(id, m));
    OnlyOneRow(env.sort(Repeat(id, m)), id, m);
  }

  lemma {:induction false} NothingAbove(rows: seq<Record>, id: int, m: nat)
    requires SortedById(rows) && rows != [] && id < rows[0].id
    ensures Merge(rows, Repeat(id, m)) == [] && FilterBy(SameId(id), rows) == []
    decreases m
  {
    if FilterBy(SameId(id), rows) != [] {
      FilterElement(SameId(id), rows, FilterBy(SameId(id), rows)[0]);
    }
    if m == 0 {
    } else {
      NothingAbove(rows, id, m - 1);
      assert Repeat(id, m)[1..] == Repeat(id, m - 1);
    }
  }

  lemma {:induction false} CombineFront(j: Joined, js: seq<Joined>)
    ensures CombineAll([j] + js) == [Combine(j)] + CombineAll(js)
  {
    if js == [] {
      assert [j] + js == [j];
      assert CombineAll([j][..0]) == [];
    } else {
      var init, last := js[..|js| - 1], js[|js| - 1];
      CombineFront(j, init);
      assert ([j] + js)[..|js|] == [j] + init;
    }
  }

  ghost predicate NoRightColumns(js: seq<Joined>) {
    forall i :: 0 <= i < |js| ==> js[i].rightValue == map[]
  }

  lemma {:induction false} CombineEmpty(j: Joined)
    requires j.rightValue == map[]
    ensures Combine(j) == LeftOf(j) == Row(j.id, j.rightValue + j.leftValue)
  {
    assert j.leftValue + j.rightValue == j.leftValue && j.rightValue + j.leftValue == j.leftValue;
  }

  /** Merging with enough rows of one id returns the rows of that id. */
  lemma {:induction false} MergeRepeat(rows: seq<Record>, id: int, m: nat)
    requires SortedById(rows) && m >= |rows|
    ensures CombineAll(Merge(rows, Repeat(id, m))) == FilterBy(SameId(id), rows)
  {
    if rows == [] {
    } else {
      FilterHead(SameId(id), rows);
      if rows[0].id == id {
        assert Repeat(id, m)[1..] == Repeat(id, m - 1);
        MergeRepeat(rows[1..], id, m - 1);
        CombineEmpty(JoinedRow(id, rows[0].value, map[]));
        CombineFront(JoinedRow(id, rows[0].value, map[]), Merge(rows[1..], Repeat(id, m - 1)));
      } else if rows[0].id < id {
        MergeRepeat(rows[1..], id, m);
      } else {
        NothingAbove(rows, id, m);
      }
    }
  }

  lemma {:induction false} MergeRepeatColumns(rows: seq<Record>, id: int, m: nat)
    ensures NoRightColumns(Merge(rows, Repeat(id, m)))
  {
    MergeSourced(rows, Repeat(id, m));
    var js: seq<Joined> := Merge(rows, Repeat(id, m));
    forall i | 0 <= i < |js| ensures js[i].rightValue == map[] {
      assert RightOf(js[i]) in Repeat(id, m);
    }
  }

  lemma {:induction false} SeenRows(c: Condition, rows: seq<Record>, id: int, m: nat)
    requires SortedById(rows) && m >= |rows|
    ensures Seen(c, rows, id, m) == FilterBy(Test(c), FilterBy(SameId(id), rows))
  {
    var js: seq<Joined> := Merge(rows, Repeat(id, m));
    MergeRepeat(rows, id, m);
    MergeRepeatColumns(rows, id, m);
    forall i | 0 <= i < |js| ensures Holds(c, Combine(js[i])) <==> Holds(c, LeftOf(js[i])) {
      CombineEmpty(js[i]);
    }
    FilterCombinedLeft(c, js);
  }

  lemma {:induction false} FiltersCommute(p: Record -> bool, q: Record -> bool, rows: seq<Record>)
    ensures FilterBy(p, FilterBy(q, rows)) == FilterBy(q, FilterBy(p, rows))
  {
    if rows == [] {
    } else {
      var init, last := rows[..|rows| - 1], rows[|rows| - 1];
      FiltersCommute(p, q, init);
      FilterConcat(p, FilterBy(q, init), if q(last) then [last] else []);
      FilterConcat(q, FilterBy(p, init), if p(last) then [last] else []);
      assert FilterBy(p, [last]) == if p(last) then [last] else [];
      assert FilterBy(q, [last]) == if q(last) then [last] else [];
    }
  }

  lemma {:induction false} AllPass(q: Record -> bool, rows: seq<Record>)
    requires forall r :: r in rows ==> q(r)
    ensures FilterBy(q, rows) == rows
  {
    if rows == [] {
    } else {
      AllPass(q, rows[..|rows| - 1]);
    }
  }

  lemma {:induction false} LastOfId(rows: seq<Record>)
    requires rows != []
    ensures var x := rows[|rows| - 1];
            FilterBy(SameId(x.id), rows) == FilterBy(SameId(x.id), rows[..|rows| - 1]) + [x]
    ensures forall id :: id != rows[|rows| - 1].id ==>
            FilterBy(SameId(id), rows) == FilterBy(SameId(id), rows[..|rows| - 1])
  {
  }

  lemma {:induction false} LastIdReached(a: seq<Record>, b: seq<Record>)
    requires SortedById(b) && a != [] && forall id :: FilterBy(SameId(id), a) == FilterBy(SameId(id), b)
    ensures b != [] && a[|a| - 1].id <= b[|b| - 1].id
  {
    var x := a[|a| - 1];
    FilterElement(SameId(x.id), a, x);
    FilterElement(SameId(x.id), b, x);
  }

  /** Sorted tables that agree on every id are equal. */
  lemma {:induction false} EqualPerId(a: seq<Record>, b: seq<Record>)
    requires SortedById(a) && SortedById(b) && forall id :: FilterBy(SameId(id), a) == FilterBy(SameId(id), b)
    ensures a == b
  {
    if a == [] {
      if b != [] {
        LastIdReached(b, a);
      }
    } else {
      LastIdReached(a, b);
      LastIdReached(b, a);
      EqualLast(a, b);
      EqualPerId(a[..|a| - 1], b[..|b| - 1]);
      assert a == a[..|a| - 1] + [a[|a| - 1]] && b == b[..|b| - 1] + [b[|b| - 1]];
    }
  }

  lemma {:induction false} EqualLast(a: seq<Record>, b: seq<Record>)
    requires a != [] && b != [] && a[|a| - 1].id == b[|b| - 1].id
    requires forall id :: FilterBy(SameId(id), a) == FilterBy(SameId(id), b)
    ensures a[|a| - 1] == b[|b| - 1]
    ensures forall id :: FilterBy(SameId(id), a[..|a| - 1]) == FilterBy(SameId(id), b[..|b| - 1])
  {
    var x, y, initA, initB := a[|a| - 1], b[|b| - 1], a[..|a| - 1], b[..|b| - 1];
    LastOfId(a);
    LastOfId(b);
    var fa, fb := FilterBy(SameId(x.id), initA), FilterBy(SameId(x.id), initB);
    assert fa + [x] == fb + [y];
    assert (fa + [x])[|fa|] == x && (fb + [y])[|fb|] == y && |fa| == |fb|;
    assert (fa + [x])[..|fa|] == fa && (fb + [y])[..|fb|] == fb;
    forall id ensures FilterBy(SameId(id), initA) == FilterBy(SameId(id), initB) {
      if id != x.id {
        assert FilterBy(SameId(id), a) == FilterBy(SameId(id), b);
      }
    }
  }

  /** Filtering before the sort cannot be told from filtering after the merge by tables of one id. */
  ghost predicate SameOnRepeats(env: Env, c: Condition, rows: seq<Record>) {
    forall id, m: nat :: Seen(c, env.sort(FilterBy(Test(c), rows)), id, m) == Seen(c, env.sort(rows), id, m)
  }

  lemma {:induction false} FilteredSortPasses(env: Env, c: Condition, rows: seq<Record>)
    requires ValidEnv(env)
    ensures forall r :: r in env.sort(FilterBy(Test(c), rows)) ==> Holds(c, r)
  {
    forall r | r in env.sort(FilterBy(Test(c), rows)) ensures Holds(c, r) {
      SortElements(env, FilterBy(Test(c), rows), r);
      FilterElement(Test(c), rows, r);
    }
  }

  lemma {:induction false} SameOnId(env: Env, c: Condition, rows: seq<Record>, id: int)
    requires ValidEnv(env) && SameOnRepeats(env, c, rows)
    ensures FilterBy(SameId(id), env.sort(FilterBy(Test(c), rows))) ==
            FilterBy(SameId(id), FilterBy(Test(c), env.sort(rows)))
  {
    var q := Test(c);
    var all, kept := env.sort(rows), env.sort(FilterBy(q, rows));
    var m: nat := |all| + |kept|;
    assert SortedById(all) && SortedById(kept);
    assert Seen(c, kept, id, m) == Seen(c, all, id, m);
    SeenRows(c, all, id, m);
    SeenRows(c, kept, id, m);
    FiltersCommute(q, SameId(id), all);
    FilteredSortPasses(env, c, rows);
    FiltersCommute(q, SameId(id), kept);
    AllPass(q, kept);
  }

  lemma {:induction false} SortThenFilter(env: Env, c: Condition, rows: seq<Record>)
    requires ValidEnv(env) && SameOnRepeats(env, c, rows)
    ensures env.sort(FilterBy(Test(c), rows)) == FilterBy(Test(c), env.sort(rows))
  {
    var all, kept := env.sort(rows), env.sort(FilterBy(Test(c), rows));
    assert SortedById(all) && SortedById(kept);
    FilterSorted(Test(c), all);
    forall id ensures FilterBy(SameId(id), kept) == FilterBy(SameId(id), FilterBy(Test(c), all)) {
      SameOnId(env, c, rows, id);
    }
    EqualPerId(kept, FilterBy(Test(c), all));
  }

  lemma {:induction false} RepeatsDecide(env: Env, c: Condition, rows: seq<Record>)
    requires ValidEnv(env) && SameOnRepeats(env, c, rows)
    ensures SortsPassersFirst(env, c, rows)
  {
    var all := env.sort(rows);
    assert SortedById(all);
    SortThenFilter(env, c, rows);
    if !PassersFirst(Test(c), all) {
      var e: Values := map[];
      var k, right := Offender(Test(c), all, e);
      var id, m := all[k].id, |right|;
      assert right == Repeat(id, m);
      assert Seen(c, FilterBy(Test(c), all), id, m) == Seen(c, all, id, m);
      CombineLength(KeepLeft(Test(c), Merge(FilterBy(Test(c), all), Repeat(id, m))));
      CombineLength(KeepLeft(Test(c), Merge(all, Repeat(id, m))));
    }
  }

  /** What a filter above a merge join leaves, when its condition looks at the left rows. */
  function AboveLeft(env: Env, c: Condition, left: seq<Record>, right: seq<Record>): seq<Record> {
    CombineAll(KeepLeft(Test(c), JoinRows(env, MergeJoin, left, right)))
  }

  function AboveRight(env: Env, c: Condition, left: seq<Record>, right: seq<Record>): seq<Record> {
    CombineAll(KeepRight(Test(c), JoinRows(env, MergeJoin, left, right)))
  }

  /**
   The push to the left of a merge join keeps the result for every right table exactly when the
   sort gives the filtered rows as it gives them among all rows, passing rows first per id.
   */
  lemma {:induction false} MergePushLeftSafeIff(env: Env, c: Condition, left: seq<Record>)
    requires ValidEnv(env)
    ensures SortsPassersFirst(env, c, left) <==>
            forall right :: AboveLeft(env, c, FilterBy(Test(c), left), right) == AboveLeft(env, c, left, right)
  {
    if SortsPassersFirst(env, c, left) {
      forall right ensures AboveLeft(env, c, FilterBy(Test(c), left), right) == AboveLeft(env, c, left, right) {
        PushLeftRows(env, c, MergeJoin, left, right);
      }
    } else if forall right :: AboveLeft(env, c, FilterBy(Test(c), left), right) == AboveLeft(env, c, left, right) {
      forall id, m: nat
        ensures Seen(c, env.sort(FilterBy(Test(c), left)), id, m) == Seen(c, env.sort(left), id, m)
      {
        RepeatSorts(env, id, m);
        assert AboveLeft(env, c, FilterBy(Test(c), left), Repeat(id, m)) == AboveLeft(env, c, left, Repeat(id, m));
      }
      RepeatsDecide(env, c, left);
    }
  }

  lemma {:induction false} CombineFlipped(js: seq<Joined>)
    requires NoRightColumns(js)
    ensures CombineAll(Flip(js)) == CombineAll(js)
  {
    if js == [] {
    } else {
      var init, j := js[..|js| - 1], js[|js| - 1];
      CombineFlipped(init);
      CombineEmpty(j);
      CombineAppend(Flip(init), JoinedRow(j.id, j.rightValue, j.leftValue));
    }
  }

  lemma {:induction false} KeepColumns(c: Condition, js: seq<Joined>)
    requires NoRightColumns(js)
    ensures NoRightColumns(KeepLeft(Test(c), js))
  {
    if js == [] {
    } else {
      KeepColumns(c, js[..|js| - 1]);
    }
  }

  lemma {:induction false} SeenFromRight(c: Condition, rows: seq<Record>, id: int, m: nat)
    ensures CombineAll(KeepRight(Test(c), Merge(Repeat(id, m), rows))) == Seen(c, rows, id, m)
  {
    var js: seq<Joined> := Merge(Repeat(id, m), rows);
    MergeFlip(Repeat(id, m), rows);
    KeepFlip(Test(c), js);
    FlipTwice(KeepRight(Test(c), js));
    MergeRepeatColumns(rows, id, m);
    KeepColumns(c, Merge(rows, Repeat(id, m)));
    CombineFlipped(KeepLeft(Test(c), Merge(rows, Repeat(id, m))));
  }

  /** The same for the push to the right and every left table. */
  lemma {:induction false} MergePushRightSafeIff(env: Env, c: Condition, right: seq<Record>)
    requires ValidEnv(env)
    ensures SortsPassersFirst(env, c, right) <==>
            forall left :: AboveRight(env, c, left, FilterBy(Test(c), right)) == AboveRight(env, c, left, right)
  {
    if SortsPassersFirst(env, c, right) {
      forall left ensures AboveRight(env, c, left, FilterBy(Test(c), right)) == AboveRight(env, c, left, right) {
        PushRightRows(env, c, MergeJoin, left, right);
      }
    } else if forall left :: AboveRight(env, c, left, FilterBy(Test(c), right)) == AboveRight(env, c, left, right) {
      forall id, m: nat
        ensures Seen(c, env.sort(FilterBy(Test(c), right)), id, m) == Seen(c, env.sort(right), id, m)
      {
        RepeatSorts(env, id, m);
        assert AboveRight(env, c, Repeat(id, m), FilterBy(Test(c), right)) == AboveRight(env, c, Repeat(id, m), right);
        SeenFromRight(c, env.sort(FilterBy(Test(c), right)), id, m);
        SeenFromRight(c, env.sort(right), id, m);
      }
      RepeatsDecide(env, c, right);
    }
  }
}
