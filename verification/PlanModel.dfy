/**
 Physical plans as values, what they evaluate to, and the filter push-down that the planner
 performs. Joins are evaluated by the repository's own join algorithms, whose results on tables
 with repeated ids differ from each other; that is what decides where a push-down is safe.
 */
module PlanModel {
  import opened JoinAlgorithms
  import opened JoinPushDown

  type Column = string
  type Values = map<Column, string>
  type Record = Row<Values>
  type Joined = JoinedRow<Values, Values>

  /** A condition sees the id of a row and the columns it reads, and nothing else. */
  datatype Condition = Condition(uses: set<Column>, test: (int, Values) -> bool)

  function Restrict(v: Values, columns: set<Column>): Values {
    map k | k in v && k in columns :: v[k]
  }

  predicate Holds(c: Condition, r: Record) {
    c.test(r.id, Restrict(r.value, c.uses))
  }

  datatype JoinType = HashJoin | MergeJoin | NestedLoopJoin

  /**
   `Unary` stands for projection, sort, limit, aggregate and distinct, `Binary` for union,
   intersection and difference. They may do anything with the rows of their inputs; the
   result has the columns they declare.
   */
  datatype Plan =
    | Scan(table: string, columns: set<Column>)
    | Filter(condition: Condition, input: Plan)
    | Join(joinType: JoinType, left: Plan, right: Plan)
    | Unary(unary: seq<Record> -> seq<Record>, columns: set<Column>, input: Plan)
    | Binary(binary: (seq<Record>, seq<Record>) -> seq<Record>, columns: set<Column>, left: Plan, right: Plan)

  /** A database and a sort. The order the sort gives to rows of equal id is its own affair. */
  datatype Env = Env(tables: map<string, seq<Record>>, sort: seq<Record> -> seq<Record>)

  ghost predicate ValidEnv(env: Env) {
    forall rows :: SortedById(env.sort(rows)) && multiset(env.sort(rows)) == multiset(rows)
  }

  function Columns(p: Plan): set<Column> {
    match p
    case Scan(_, columns) => columns
    case Filter(_, input) => Columns(input)
    case Join(_, left, right) => Columns(left) + Columns(right)
    case Unary(_, columns, _) => columns
    case Binary(_, columns, _, _) => columns
  }

  /** The two sides of a join have no column in common. */
  predicate WellFormed(p: Plan) {
    match p
    case Scan(_, _) => true
    case Filter(_, input) => WellFormed(input)
    case Join(_, left, right) => WellFormed(left) && WellFormed(right) && Columns(left) !! Columns(right)
    case Unary(_, _, input) => WellFormed(input)
    case Binary(_, _, left, right) => WellFormed(left) && WellFormed(right)
  }

  // ----- evaluation -----

  function Trim(rows: seq<Record>, columns: set<Column>): seq<Record> {
    if rows == [] then []
    else Trim(rows[..|rows| - 1], columns) + [Row(rows[|rows| - 1].id, Restrict(rows[|rows| - 1].value, columns))]
  }

  function Test(c: Condition): Record -> bool {
    r => Holds(c, r)
  }

  function Combine(j: Joined): Record {
    Row(j.id, j.leftValue + j.rightValue)
  }

  function CombineAll(js: seq<Joined>): seq<Record> {
    if js == [] then [] else CombineAll(js[..|js| - 1]) + [Combine(js[|js| - 1])]
  }

  function JoinRows(env: Env, joinType: JoinType, left: seq<Record>, right: seq<Record>): seq<Joined> {
    match joinType
    case HashJoin => Hash(left, right)
    case NestedLoopJoin => NestedLoop(left, right)
    case MergeJoin => Merge(env.sort(left), env.sort(right))
  }

  function Eval(p: Plan, env: Env): seq<Record> {
    match p
    case Scan(table, columns) => Trim(if table in env.tables then env.tables[table] else [], columns)
    case Filter(condition, input) => FilterBy(Test(condition), Eval(input, env))
    case Join(joinType, left, right) => CombineAll(JoinRows(env, joinType, Eval(left, env), Eval(right, env)))
    case Unary(unary, columns, input) => Trim(unary(Eval(input, env)), columns)
    case Binary(binary, columns, left, right) => Trim(binary(Eval(left, env), Eval(right, env)), columns)
  }

  // ----- the push-down -----

  /** The condition reads only columns of the plan. */
  predicate AppliesTo(c: Condition, p: Plan) {
    c.uses <= Columns(p)
  }

  /** The number of nodes with two children. */
  function Binaries(p: Plan): nat {
    match p
    case Scan(_, _) => 0
    case Filter(_, input) => Binaries(input)
    case Join(_, left, right) => 1 + Binaries(left) + Binaries(right)
    case Unary(_, _, input) => Binaries(input)
    case Binary(_, _, left, right) => 1 + Binaries(left) + Binaries(right)
  }

  /** The length of the chain of one-child nodes at the top. */
  function Chain(p: Plan): nat {
    match p
    case Filter(_, input) => 1 + Chain(input)
    case Unary(_, _, input) => 1 + Chain(input)
    case _ => 0
  }

  /** A copy of the filter goes below the join, on the first side it applies to; the filter itself stays. */
  function PushInto(c: Condition, input: Plan): (r: Plan)
    ensures Binaries(r) == Binaries(input) && Chain(r) == Chain(input)
    ensures Columns(r) == Columns(input) && (WellFormed(input) ==> WellFormed(r))
  {
    if input.Join? then
      if AppliesTo(c, input.left) then Join(input.joinType, Filter(c, input.left), input.right)
      else if AppliesTo(c, input.right) then Join(input.joinType, input.left, Filter(c, input.right))
      else input
    else input
  }

  /** The planner's recursion; it ends although a pushed filter is visited again further down. */
  function Optimize(p: Plan): Plan
    decreases Binaries(p), Chain(p)
  {
    match p
    case Scan(_, _) => p
    case Filter(c, input) => Filter(c, Optimize(PushInto(c, input)))
    case Join(joinType, left, right) => Join(joinType, Optimize(left), Optimize(right))
    case Unary(unary, columns, input) => Unary(unary, columns, Optimize(input))
    case Binary(binary, columns, left, right) => Binary(binary, columns, Optimize(left), Optimize(right))
  }

  // ----- rows have the columns of their plan -----

  predicate Within(rows: seq<Record>, columns: set<Column>) {
    forall i :: 0 <= i < |rows| ==> rows[i].value.Keys <= columns
  }

  lemma {:induction false} TrimWithin(rows: seq<Record>, columns: set<Column>)
    ensures Within(Trim(rows, columns), columns)
  {
    if rows == [] {
    } else {
      TrimWithin(rows[..|rows| - 1], columns);
    }
  }

  lemma {:induction false} FilterWithin(c: Condition, rows: seq<Record>, columns: set<Column>)
    requires Within(rows, columns)
    ensures Within(FilterBy(Test(c), rows), columns)
  {
    var kept := FilterBy(Test(c), rows);
    forall i | 0 <= i < |kept| ensures kept[i].value.Keys <= columns {
      FilterElement(Test(c), rows, kept[i]);
    }
  }

  /** Every joined row comes from a left and a right row of its id. */
  ghost predicate Sourced(js: seq<Joined>, left: seq<Record>, right: seq<Record>) {
    forall i :: 0 <= i < |js| ==> LeftOf(js[i]) in left && RightOf(js[i]) in right
  }

  lemma {:induction false} MatchesSourced(x: Record, right: seq<Record>)
    ensures forall i :: 0 <= i < |MatchesOf(x, right)| ==>
              var j: Joined := MatchesOf(x, right)[i];
              j.id == x.id && j.leftValue == x.value && Row(j.id, j.rightValue) in right
  {
    if right == [] {
    } else {
      MatchesSourced(x, right[..|right| - 1]);
      assert forall r :: r in right[..|right| - 1] ==> r in right;
    }
  }

  lemma {:induction false} NestedLoopSourced(left: seq<Record>, right: seq<Record>)
    ensures Sourced(NestedLoop(left, right), left, right)
  {
    if left == [] {
    } else {
      NestedLoopSourced(left[..|left| - 1], right);
      MatchesSourced(left[|left| - 1], right);
      assert forall r :: r in left[..|left| - 1] ==> r in left;
    }
  }

  lemma {:induction false} DropIdElements(rows: seq<Record>, id: int)
    ensures forall r :: r in DropId(rows, id) ==> r in rows
  {
    if rows == [] {
    } else {
      DropIdElements(rows[..|rows| - 1], id);
    }
  }

  lemma {:induction false} LastPerIdElements(rows: seq<Record>)
    ensures forall r :: r in LastPerId(rows) ==> r in rows
  {
    if rows == [] {
    } else {
      LastPerIdElements(rows[..|rows| - 1]);
      DropIdElements(LastPerId(rows[..|rows| - 1]), rows[|rows| - 1].id);
    }
  }

  lemma {:induction false} MergeSourced(left: seq<Record>, right: seq<Record>)
    ensures Sourced(Merge(left, right), left, right)
    decreases |left| + |right|
  {
    if left == [] || right == [] {
    } else {
      if left[0].id == right[0].id {
        MergeSourced(left[1..], right[1..]);
      } else if left[0].id < right[0].id {
        MergeSourced(left[1..], right);
      } else {
        MergeSourced(left, right[1..]);
      }
    }
  }

  lemma {:induction false} SortElements(env: Env, rows: seq<Record>, r: Record)
    requires ValidEnv(env)
    ensures r in env.sort(rows) <==> r in rows
  {
    assert multiset(env.sort(rows)) == multiset(rows);
    assert r in env.sort(rows) <==> r in multiset(env.sort(rows));
  }

  lemma {:induction false} JoinSourced(env: Env, joinType: JoinType, left: seq<Record>, right: seq<Record>)
    requires ValidEnv(env)
    ensures Sourced(JoinRows(env, joinType, left, right), left, right)
  {
    match joinType
    case HashJoin =>
      HashIsNestedLoopOfLast(left, right);
      NestedLoopSourced(left, LastPerId(right));
      LastPerIdElements(right);
    case NestedLoopJoin =>
      NestedLoopSourced(left, right);
    case MergeJoin =>
      MergeSourced(env.sort(left), env.sort(right));
      forall r ensures r in env.sort(left) <==> r in left { SortElements(env, left, r); }
      forall r ensures r in env.sort(right) <==> r in right { SortElements(env, right, r); }
  }

  lemma {:induction false} CombineWithin(js: seq<Joined>, left: seq<Record>, right: seq<Record>, lc: set<Column>,
                                         rc: set<Column>)
    requires Sourced(js, left, right) && Within(left, lc) && Within(right, rc)
    ensures Within(CombineAll(js), lc + rc)
  {
    if js == [] {
    } else {
      CombineWithin(js[..|js| - 1], left, right, lc, rc);
      var j := js[|js| - 1];
      assert LeftOf(j) in left && RightOf(j) in right;
    }
  }

  lemma {:induction false} EvalWithin(p: Plan, env: Env)
    requires ValidEnv(env)
    ensures Within(Eval(p, env), Columns(p))
  {
    match p
    case Scan(table, columns) => TrimWithin(if table in env.tables then env.tables[table] else [], columns);
    case Filter(c, input) =>
      EvalWithin(input, env);
      FilterWithin(c, Eval(input, env), Columns(input));
    case Join(joinType, left, right) =>
      EvalWithin(left, env);
      EvalWithin(right, env);
      JoinSourced(env, joinType, Eval(left, env), Eval(right, env));
      CombineWithin(JoinRows(env, joinType, Eval(left, env), Eval(right, env)),
                    Eval(left, env), Eval(right, env), Columns(left), Columns(right));
    case Unary(unary, columns, input) => TrimWithin(unary(Eval(input, env)), columns);
    case Binary(binary, columns, left, right) => TrimWithin(binary(Eval(left, env), Eval(right, env)), columns);
  }

  // ----- what the filter above a join sees -----

  lemma {:induction false} CombineLength(js: seq<Joined>)
    ensures |CombineAll(js)| == |js|
  {
    if js == [] {
    } else {
      CombineLength(js[..|js| - 1]);
    }
  }

  lemma {:induction false} CombineAppend(js: seq<Joined>, j: Joined)
    ensures CombineAll(js + [j]) == CombineAll(js) + [Combine(j)]
  {
    assert (js + [j])[..|js|] == js;
  }

  lemma {:induction false} FilterCombinedLeft(c: Condition, js: seq<Joined>)
    requires forall i :: 0 <= i < |js| ==> (Holds(c, Combine(js[i])) <==> Holds(c, LeftOf(js[i])))
    ensures FilterBy(Test(c), CombineAll(js)) == CombineAll(KeepLeft(Test(c), js))
  {
    if js == [] {
    } else {
      var init, j := js[..|js| - 1], js[|js| - 1];
      FilterCombinedLeft(c, init);
      FilterConcat(Test(c), CombineAll(init), [Combine(j)]);
      if Holds(c, Combine(j)) {
        CombineAppend(KeepLeft(Test(c), init), j);
      } else {
        assert KeepLeft(Test(c), js) == KeepLeft(Test(c), init);
        assert FilterBy(Test(c), [Combine(j)]) == [];
      }
    }
  }

  lemma {:induction false} FilterCombinedRight(c: Condition, js: seq<Joined>)
    requires forall i :: 0 <= i < |js| ==> (Holds(c, Combine(js[i])) <==> Holds(c, RightOf(js[i])))
    ensures FilterBy(Test(c), CombineAll(js)) == CombineAll(KeepRight(Test(c), js))
  {
    if js == [] {
    } else {
      var init, j := js[..|js| - 1], js[|js| - 1];
      FilterCombinedRight(c, init);
      FilterConcat(Test(c), CombineAll(init), [Combine(j)]);
      if Holds(c, Combine(j)) {
        CombineAppend(KeepRight(Test(c), init), j);
      } else {
        assert KeepRight(Test(c), js) == KeepRight(Test(c), init);
        assert FilterBy(Test(c), [Combine(j)]) == [];
      }
    }
  }

  lemma {:induction false} RestrictMerged(a: Values, b: Values, columns: set<Column>)
    ensures b.Keys !! columns ==> Restrict(a + b, columns) == Restrict(a, columns)
    ensures a.Keys !! columns ==> Restrict(a + b, columns) == Restrict(b, columns)
  {
  }

  /** A filter on the columns of the left side, above the join, sees the left part of each row. */
  lemma {:induction false} FilterSeesLeft(c: Condition, js: seq<Joined>, left: seq<Record>, right: seq<Record>,
                                          lc: set<Column>, rc: set<Column>)
    requires Sourced(js, left, right) && Within(left, lc) && Within(right, rc)
    requires lc !! rc && c.uses <= lc
    ensures FilterBy(Test(c), CombineAll(js)) == CombineAll(KeepLeft(Test(c), js))
  {
    forall i | 0 <= i < |js| ensures Holds(c, Combine(js[i])) <==> Holds(c, LeftOf(js[i])) {
      assert RightOf(js[i]) in right;
      RestrictMerged(js[i].leftValue, js[i].rightValue, c.uses);
    }
    FilterCombinedLeft(c, js);
  }

  lemma {:induction false} FilterSeesRight(c: Condition, js: seq<Joined>, left: seq<Record>, right: seq<Record>,
                                           lc: set<Column>, rc: set<Column>)
    requires Sourced(js, left, right) && Within(left, lc) && Within(right, rc)
    requires lc !! rc && c.uses <= rc
    ensures FilterBy(Test(c), CombineAll(js)) == CombineAll(KeepRight(Test(c), js))
  {
    forall i | 0 <= i < |js| ensures Holds(c, Combine(js[i])) <==> Holds(c, RightOf(js[i])) {
      assert LeftOf(js[i]) in left;
      RestrictMerged(js[i].leftValue, js[i].rightValue, c.uses);
    }
    FilterCombinedRight(c, js);
  }

  // ----- where the push-down is safe -----

  /** The sort gives the filtered rows in the order it gives them among all rows, passing rows first per id. */
  predicate SortsPassersFirst(env: Env, c: Condition, rows: seq<Record>) {
    && env.sort(FilterBy(Test(c), rows)) == FilterBy(Test(c), env.sort(rows))
    && PassersFirst(Test(c), env.sort(rows))
  }

  predicate SafeLeft(env: Env, c: Condition, joinType: JoinType, left: seq<Record>, right: seq<Record>) {
    joinType.MergeJoin? ==> SortsPassersFirst(env, c, left)
  }

  predicate SafeRight(env: Env, c: Condition, joinType: JoinType, left: seq<Record>, right: seq<Record>) {
    match joinType
    case NestedLoopJoin => true
    case HashJoin => forall i :: 0 <= i < |left| ==> LastDecides(Test(c), right, left[i].id)
    case MergeJoin => SortsPassersFirst(env, c, right)
  }

  predicate PushSafe(c: Condition, input: Plan, env: Env) {
    input.Join? ==>
      var left, right := Eval(input.left, env), Eval(input.right, env);
      if AppliesTo(c, input.left) then SafeLeft(env, c, input.joinType, left, right)
      else AppliesTo(c, input.right) ==> SafeRight(env, c, input.joinType, left, right)
  }

  lemma {:induction false} PushLeftRows(env: Env, c: Condition, joinType: JoinType, left: seq<Record>,
                                        right: seq<Record>)
    requires ValidEnv(env) && SafeLeft(env, c, joinType, left, right)
    ensures KeepLeft(Test(c), JoinRows(env, joinType, FilterBy(Test(c), left), right)) ==
            KeepLeft(Test(c), JoinRows(env, joinType, left, right))
  {
    match joinType
    case HashJoin => HashPushLeft(Test(c), left, right);
    case NestedLoopJoin => NestedLoopPushLeft(Test(c), left, right);
    case MergeJoin => MergePushLeft(Test(c), env.sort(left), env.sort(right));
  }

  lemma {:induction false} PushRightRows(env: Env, c: Condition, joinType: JoinType, left: seq<Record>,
                                         right: seq<Record>)
    requires ValidEnv(env) && SafeRight(env, c, joinType, left, right)
    ensures KeepRight(Test(c), JoinRows(env, joinType, left, FilterBy(Test(c), right))) ==
            KeepRight(Test(c), JoinRows(env, joinType, left, right))
  {
    match joinType
    case HashJoin => HashPushRightIff(Test(c), left, right);
    case NestedLoopJoin => NestedLoopPushRight(Test(c), left, right);
    case MergeJoin => MergePushRight(Test(c), env.sort(left), env.sort(right));
  }

  /** On the left, with the two row sequences the filter above the join leaves. */
  lemma {:induction false} PushLeftRowsAbove(c: Condition, joinType: JoinType, left: Plan, right: Plan, env: Env)
    requires ValidEnv(env) && Columns(left) !! Columns(right) && AppliesTo(c, left)
    ensures FilterBy(Test(c), Eval(Join(joinType, Filter(c, left), right), env)) ==
            CombineAll(KeepLeft(Test(c), JoinRows(env, joinType, FilterBy(Test(c), Eval(left, env)), Eval(right, env))))
    ensures FilterBy(Test(c), Eval(Join(joinType, left, right), env)) ==
            CombineAll(KeepLeft(Test(c), JoinRows(env, joinType, Eval(left, env), Eval(right, env))))
  {
    var ls, rs := Eval(left, env), Eval(right, env);
    var kept := FilterBy(Test(c), ls);
    EvalWithin(left, env);
    EvalWithin(right, env);
    FilterWithin(c, ls, Columns(left));
    JoinSourced(env, joinType, ls, rs);
    JoinSourced(env, joinType, kept, rs);
    FilterSeesLeft(c, JoinRows(env, joinType, ls, rs), ls, rs, Columns(left), Columns(right));
    FilterSeesLeft(c, JoinRows(env, joinType, kept, rs), kept, rs, Columns(left), Columns(right));
  }

  /** On the right, with the two row sequences the filter above the join leaves. */
  lemma {:induction false} PushRightRowsAbove(c: Condition, joinType: JoinType, left: Plan, right: Plan, env: Env)
    requires ValidEnv(env) && Columns(left) !! Columns(right) && AppliesTo(c, right)
    ensures FilterBy(Test(c), Eval(Join(joinType, left, Filter(c, right)), env)) ==
            CombineAll(KeepRight(Test(c),
                                 JoinRows(env, joinType, Eval(left, env), FilterBy(Test(c), Eval(right, env)))))
    ensures FilterBy(Test(c), Eval(Join(joinType, left, right), env)) ==
            CombineAll(KeepRight(Test(c), JoinRows(env, joinType, Eval(left, env), Eval(right, env))))
  {
    var ls, rs := Eval(left, env), Eval(right, env);
    var kept := FilterBy(Test(c), rs);
    EvalWithin(left, env);
    EvalWithin(right, env);
    FilterWithin(c, rs, Columns(right));
    JoinSourced(env, joinType, ls, rs);
    JoinSourced(env, joinType, ls, kept);
    FilterSeesRight(c, JoinRows(env, joinType, ls, rs), ls, rs, Columns(left), Columns(right));
    FilterSeesRight(c, JoinRows(env, joinType, ls, kept), ls, kept, Columns(left), Columns(right));
  }

  lemma {:induction false} PushPreserves(c: Condition, input: Plan, env: Env)
    requires ValidEnv(env) && WellFormed(input) && PushSafe(c, input, env)
    ensures Eval(Filter(c, PushInto(c, input)), env) == Eval(Filter(c, input), env)
  {
    if input.Join? {
      if AppliesTo(c, input.left) {
        PushLeftRowsAbove(c, input.joinType, input.left, input.right, env);
        PushLeftRows(env, c, input.joinType, Eval(input.left, env), Eval(input.right, env));
      } else if AppliesTo(c, input.right) {
        PushRightRowsAbove(c, input.joinType, input.left, input.right, env);
        PushRightRows(env, c, input.joinType, Eval(input.left, env), Eval(input.right, env));
      }
    }
  }

  /** For a hash join whose filter goes right the condition is exact: without it the plan returns too many rows. */
  lemma {:induction false} HashPushRightPreservesIff(c: Condition, left: Plan, right: Plan, env: Env)
    requires ValidEnv(env) && WellFormed(Join(HashJoin, left, right))
    requires !AppliesTo(c, left) && AppliesTo(c, right)
    ensures var join := Join(HashJoin, left, right);
            Eval(Filter(c, PushInto(c, join)), env) == Eval(Filter(c, join), env) <==> PushSafe(c, join, env)
  {
    var ls, rs := Eval(left, env), Eval(right, env);
    PushRightRowsAbove(c, HashJoin, left, right, env);
    HashPushRightIff(Test(c), ls, rs);
    CombineLength(KeepRight(Test(c), Hash(ls, rs)));
    CombineLength(KeepRight(Test(c), Hash(ls, FilterBy(Test(c), rs))));
  }

  /** A side whose ids determine its rows is safe for every join. */
  lemma {:induction false} DeterminedSideIsSafe(env: Env, c: Condition, joinType: JoinType, left: seq<Record>,
                                                right: seq<Record>)
    requires ValidEnv(env)
    ensures IdDetermines(left) ==> SafeLeft(env, c, joinType, left, right)
    ensures IdDetermines(right) ==> SafeRight(env, c, joinType, left, right)
  {
    var q := Test(c);
    if IdDetermines(left) {
      SortCommutes(q, left, env.sort(left), env.sort(FilterBy(q, left)));
    }
    if IdDetermines(right) {
      SortCommutes(q, right, env.sort(right), env.sort(FilterBy(q, right)));
      forall i | 0 <= i < |left| ensures LastDecides(q, right, left[i].id) {
        DeterminedLast(q, right, left[i].id);
      }
    }
  }

  lemma {:induction false} TableFromRow(right: seq<Record>, id: int)
    ensures id in Table(right) ==> Row(id, Table(right)[id]) in right
    ensures (exists i :: 0 <= i < |right| && right[i].id == id) ==> id in Table(right)
  {
    if right == [] {
    } else {
      TableFromRow(right[..|right| - 1], id);
    }
  }

  lemma {:induction false} DeterminedLast(q: Record -> bool, right: seq<Record>, id: int)
    requires IdDetermines(right)
    ensures LastDecides(q, right, id)
  {
    TableFromRow(right, id);
    forall i | 0 <= i < |right| && right[i].id == id && q(right[i])
      ensures id in Table(right) && q(Row(id, Table(right)[id]))
    {
      assert right[i] in right;
    }
  }

  // ----- the whole optimization -----

  /** Every push that the optimization makes is safe. */
  predicate Safe(p: Plan, env: Env)
    decreases Binaries(p), Chain(p)
  {
    match p
    case Scan(_, _) => true
    case Filter(c, input) => PushSafe(c, input, env) && Safe(PushInto(c, input), env)
    case Join(_, left, right) => Safe(left, env) && Safe(right, env)
    case Unary(_, _, input) => Safe(input, env)
    case Binary(_, _, left, right) => Safe(left, env) && Safe(right, env)
  }

  /** The optimized plan returns the same rows in the same order. */
  lemma {:induction false} OptimizePreserves(p: Plan, env: Env)
    requires ValidEnv(env) && WellFormed(p) && Safe(p, env)
    ensures Eval(Optimize(p), env) == Eval(p, env)
    decreases Binaries(p), Chain(p)
  {
    match p
    case Scan(_, _) =>
    case Filter(c, input) =>
      OptimizePreserves(PushInto(c, input), env);
      PushPreserves(c, input, env);
    case Join(_, left, right) =>
      OptimizePreserves(left, env);
      OptimizePreserves(right, env);
    case Unary(_, _, input) =>
      OptimizePreserves(input, env);
    case Binary(_, _, left, right) =>
      OptimizePreserves(left, env);
      OptimizePreserves(right, env);
  }

  predicate NestedLoopsOnly(p: Plan) {
    match p
    case Scan(_, _) => true
    case Filter(_, input) => NestedLoopsOnly(input)
    case Join(joinType, left, right) => joinType.NestedLoopJoin? && NestedLoopsOnly(left) && NestedLoopsOnly(right)
    case Unary(_, _, input) => NestedLoopsOnly(input)
    case Binary(_, _, left, right) => NestedLoopsOnly(left) && NestedLoopsOnly(right)
  }

  /** Plans that join by nested loops are optimized safely, whatever the tables hold. */
  lemma {:induction false} NestedLoopsAreSafe(p: Plan, env: Env)
    requires NestedLoopsOnly(p)
    ensures Safe(p, env)
    decreases Binaries(p), Chain(p)
  {
    match p
    case Scan(_, _) =>
    case Filter(c, input) =>
      NestedLoopsAreSafe(PushInto(c, input), env);
    case Join(_, left, right) =>
      NestedLoopsAreSafe(left, env);
      NestedLoopsAreSafe(right, env);
    case Unary(_, _, input) =>
      NestedLoopsAreSafe(input, env);
    case Binary(_, _, left, right) =>
      NestedLoopsAreSafe(left, env);
      NestedLoopsAreSafe(right, env);
  }

  /** Every filter above a join it applies to one side of has a copy at the top of that side, the left one first. */
  ghost predicate Pushed(p: Plan) {
    match p
    case Scan(_, _) => true
    case Filter(c, input) =>
      && Pushed(input)
      && (input.Join? && AppliesTo(c, input.left) ==> input.left.Filter? && input.left.condition == c)
      && (input.Join? && !AppliesTo(c, input.left) && AppliesTo(c, input.right) ==>
            input.right.Filter? && input.right.condition == c)
    case Join(_, left, right) => Pushed(left) && Pushed(right)
    case Unary(_, _, input) => Pushed(input)
    case Binary(_, _, left, right) => Pushed(left) && Pushed(right)
  }

  lemma {:induction false} OptimizeColumns(p: Plan)
    ensures Columns(Optimize(p)) == Columns(p) && (WellFormed(p) ==> WellFormed(Optimize(p)))
    decreases Binaries(p), Chain(p)
  {
    match p
    case Scan(_, _) =>
    case Filter(c, input) =>
      OptimizeColumns(PushInto(c, input));
    case Join(_, left, right) =>
      OptimizeColumns(left);
      OptimizeColumns(right);
    case Unary(_, _, input) =>
      OptimizeColumns(input);
    case Binary(_, _, left, right) =>
      OptimizeColumns(left);
      OptimizeColumns(right);
  }

  /** In the optimized plan every filter has been pushed, through every join it can pass. */
  lemma {:induction false} OptimizePushes(p: Plan)
    ensures Pushed(Optimize(p))
    decreases Binaries(p), Chain(p)
  {
    match p
    case Scan(_, _) =>
    case Filter(c, input) =>
      OptimizePushes(PushInto(c, input));
      if input.Join? {
        OptimizeColumns(input.left);
        OptimizeColumns(input.right);
        OptimizeColumns(Filter(c, input.left));
        assert Optimize(Filter(c, input.left)).Filter? && Optimize(Filter(c, input.right)).Filter?;
      }
    case Join(_, left, right) =>
      OptimizePushes(left);
      OptimizePushes(right);
    case Unary(_, _, input) =>
      OptimizePushes(input);
    case Binary(_, _, left, right) =>
      OptimizePushes(left);
      OptimizePushes(right);
  }

  // ----- a push-down that changes the result -----

  /** Two right rows of one id, of which the hash table keeps the second and the filter the first. */
  lemma {:induction false} LastCanDisagree(c: Condition, y: Record, z: Record)
    requires y.id == z.id && Holds(c, y) && !Holds(c, z)
    ensures !LastDecides(Test(c), [y, z], z.id)
  {
    TableOfPair(y, z);
    var rows := [y, z];
    assert rows[0] == y && Test(c)(rows[0]);
    assert Row(z.id, Table(rows)[z.id]) == z;
  }

  lemma {:induction false} OptimizeCanChangeResult() returns (p: Plan, env: Env)
    ensures ValidEnv(env) && WellFormed(p) && Eval(Optimize(p), env) != Eval(p, env)
  {
    var c := Condition({"b"}, (id, v: Values) => "b" in v && v["b"] == "1");
    var y, z: Record := Row(1, map["b" := "1"]), Row(1, map["b" := "2"]);
    var left, right := Scan("l", {"a"}), Scan("r", {"b"});
    env := Env(map["l" := [Row(1, map["a" := "0"])], "r" := [y, z]], rows => SortRows(rows));
    forall rows ensures SortedById(env.sort(rows)) && multiset(env.sort(rows)) == multiset(rows) {
      SortRowsCorrect(rows);
    }
    p := Filter(c, Join(HashJoin, left, right));
    TrimPair(y, z, {"b"});
    LastCanDisagree(c, y, z);
    ChangedByPush(c, left, right, env, z.id);
  }

  lemma {:induction false} ChangedByPush(c: Condition, left: Plan, right: Plan, env: Env, id: int)
    requires ValidEnv(env) && WellFormed(Join(HashJoin, left, right)) && left.Scan? && right.Scan?
    requires !AppliesTo(c, left) && AppliesTo(c, right)
    requires |Eval(left, env)| == 1 && Eval(left, env)[0].id == id && !LastDecides(Test(c), Eval(right, env), id)
    ensures var p := Filter(c, Join(HashJoin, left, right)); Eval(Optimize(p), env) != Eval(p, env)
  {
    var join := Join(HashJoin, left, right);
    HashPushRightPreservesIff(c, left, right, env);
    assert Optimize(Filter(c, right)) == Filter(c, right);
    assert Optimize(PushInto(c, join)) == PushInto(c, join);
  }

  lemma {:induction false} TrimPair(y: Record, z: Record, columns: set<Column>)
    requires y.value.Keys <= columns && z.value.Keys <= columns
    ensures Trim([y, z], columns) == [y, z]
  {
    assert Restrict(y.value, columns) == y.value && Restrict(z.value, columns) == z.value;
    assert Trim([y], columns) == [y];
    assert [y, z][..1] == [y];
    assert Trim([y, z], columns) == [y] + [z];
  }

  lemma {:induction false} TableOfPair(y: Record, z: Record)
    requires y.id == z.id
    ensures Table([y, z]) == map[z.id := z.value]
  {
    assert Table([y]) == map[y.id := y.value];
    assert [y, z][..1] == [y];
    assert Table([y, z]) == Table([y])[z.id := z.value];
  }
}
