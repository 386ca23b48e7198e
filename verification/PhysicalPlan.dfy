/**
 The planner's own data structure: plan nodes linked by pointers, with the push-down performed by
 relinking them. Each node carries, as ghost state, the plan it stands for and the nodes below it.
 */
module PhysicalPlan {
  import opened PlanModel

  datatype Operator =
    | ScanOp(table: string)
    | FilterOp(condition: Condition)
    | JoinOp(joinType: JoinType)
    | UnaryOp(unary: seq<Record> -> seq<Record>)
    | BinaryOp(binary: (seq<Record>, seq<Record>) -> seq<Record>)

  /** The plan of a node from those of its children. */
  ghost function OverOne(op: Operator, columns: set<Column>, p: Plan): Plan
    requires op.FilterOp? || op.UnaryOp?
  {
    if op.FilterOp? then Filter(op.condition, p) else Unary(op.unary, columns, p)
  }

  ghost function OverTwo(op: Operator, columns: set<Column>, p: Plan, q: Plan): Plan
    requires op.JoinOp? || op.BinaryOp?
  {
    if op.JoinOp? then Join(op.joinType, p, q) else Binary(op.binary, columns, p, q)
  }

  class PlanNode {
    var op: Operator
    var columns: set<Column>
    var leftChild: PlanNode?
    var rightChild: PlanNode?
    var input: PlanNode?
    ghost var plan: Plan
    ghost var nodes: set<PlanNode>

    ghost predicate OneChild()
      reads this, nodes
    {
      && leftChild == null && rightChild == null && input != null
      && input in nodes && input.nodes == nodes - {this} && this in nodes
    }

    ghost predicate TwoChildren()
      reads this, nodes
    {
      && input == null && leftChild != null && rightChild != null
      && leftChild in nodes && rightChild in nodes && this in nodes
      && leftChild.nodes !! rightChild.nodes && this !in leftChild.nodes + rightChild.nodes
      && nodes == {this} + leftChild.nodes + rightChild.nodes
    }

    /** The node and everything below it form a tree that stands for `plan`. */
    ghost predicate Valid()
      reads this, nodes
      decreases nodes
    {
      && this in nodes
      && columns == Columns(plan)
      && if op.ScanOp? then
           leftChild == null && rightChild == null && input == null && nodes == {this} &&
           plan == Scan(op.table, columns)
         else if op.FilterOp? || op.UnaryOp? then
           OneChild() && input.Valid() && plan == OverOne(op, columns, input.plan)
         else
           TwoChildren() && leftChild.Valid() && rightChild.Valid() &&
           plan == OverTwo(op, columns, leftChild.plan, rightChild.plan)
    }

    /** A sequential or an index scan; both return the table's rows. */
    constructor Scanning(table: string, tableColumns: set<Column>)
      ensures Valid() && plan == Scan(table, tableColumns) && nodes == {this}
    {
      op, columns := ScanOp(table), tableColumns;
      leftChild, rightChild, input := null, null, null;
      plan, nodes := Scan(table, tableColumns), {this};
    }

    /** A projection, sort, limit, aggregate or distinct node. */
    constructor Processing(inputPlan: PlanNode, unary: seq<Record> -> seq<Record>, newColumns: set<Column>)
      requires inputPlan.Valid()
      ensures Valid() && plan == Unary(unary, newColumns, inputPlan.plan)
      ensures nodes == {this} + inputPlan.nodes && this !in inputPlan.nodes
    {
      op, columns := UnaryOp(unary), newColumns;
      leftChild, rightChild, input := null, null, inputPlan;
      plan, nodes := Unary(unary, newColumns, inputPlan.plan), {this} + inputPlan.nodes;
    }

    /** A union, intersection or difference node. */
    constructor Combining(leftPlan: PlanNode, rightPlan: PlanNode,
                          binary: (seq<Record>, seq<Record>) -> seq<Record>, newColumns: set<Column>)
      requires leftPlan.Valid() && rightPlan.Valid() && leftPlan.nodes !! rightPlan.nodes
      ensures Valid() && plan == Binary(binary, newColumns, leftPlan.plan, rightPlan.plan)
      ensures nodes == {this} + leftPlan.nodes + rightPlan.nodes
    {
      op, columns := BinaryOp(binary), newColumns;
      leftChild, rightChild, input := leftPlan, rightPlan, null;
      plan := Binary(binary, newColumns, leftPlan.plan, rightPlan.plan);
      nodes := {this} + leftPlan.nodes + rightPlan.nodes;
    }

    constructor Filtering(inputPlan: PlanNode, condition: Condition)
      requires inputPlan.Valid()
      ensures Valid() && plan == Filter(condition, inputPlan.plan)
      ensures nodes == {this} + inputPlan.nodes && this !in inputPlan.nodes
      ensures op == FilterOp(condition) && columns == inputPlan.columns
    {
      op, columns := FilterOp(condition), inputPlan.columns;
      leftChild, rightChild, input := null, null, inputPlan;
      plan, nodes := Filter(condition, inputPlan.plan), {this} + inputPlan.nodes;
    }

    constructor Joining(leftPlan: PlanNode, rightPlan: PlanNode, joinType: JoinType)
      requires leftPlan.Valid() && rightPlan.Valid() && leftPlan.nodes !! rightPlan.nodes
      ensures Valid() && plan == Join(joinType, leftPlan.plan, rightPlan.plan)
      ensures nodes == {this} + leftPlan.nodes + rightPlan.nodes
    {
      op, columns := JoinOp(joinType), leftPlan.columns + rightPlan.columns;
      leftChild, rightChild, input := leftPlan, rightPlan, null;
      plan, nodes := Join(joinType, leftPlan.plan, rightPlan.plan), {this} + leftPlan.nodes + rightPlan.nodes;
    }

    /** Recomputes the ghost state of a node whose child changed. */
    ghost method RefreshOne()
      requires op.FilterOp? || op.UnaryOp?
      requires leftChild == null && rightChild == null && input != null
      requires input.Valid() && this !in input.nodes && columns == Columns(OverOne(op, columns, input.plan))
      modifies this`plan, this`nodes
      ensures Valid() && plan == OverOne(op, columns, input.plan) && nodes == {this} + input.nodes
    {
      nodes := {this} + input.nodes;
      plan := OverOne(op, columns, input.plan);
      assert input.Valid();
    }

    ghost method RefreshTwo()
      requires op.JoinOp? || op.BinaryOp?
      requires input == null && leftChild != null && rightChild != null
      requires leftChild.Valid() && rightChild.Valid() && leftChild.nodes !! rightChild.nodes
      requires this !in leftChild.nodes && this !in rightChild.nodes
      requires columns == Columns(OverTwo(op, columns, leftChild.plan, rightChild.plan))
      modifies this`plan, this`nodes
      ensures Valid() && plan == OverTwo(op, columns, leftChild.plan, rightChild.plan)
      ensures nodes == {this} + leftChild.nodes + rightChild.nodes
    {
      nodes := {this} + leftChild.nodes + rightChild.nodes;
      plan := OverTwo(op, columns, leftChild.plan, rightChild.plan);
      assert leftChild.Valid() && rightChild.Valid();
    }

    method CanPushFilter(condition: Condition) returns (applies: bool)
      requires Valid()
      ensures applies <==> AppliesTo(condition, plan)
    {
      applies := condition.uses <= columns;
    }

    /** A join node gets a filter between itself and its left child. */
    method FilterLeft(condition: Condition)
      requires Valid() && op.JoinOp?
      modifies this
      ensures Valid() && fresh(nodes - old(nodes)) && columns == old(columns)
      ensures plan == Join(old(op).joinType, Filter(condition, old(leftChild.plan)), old(rightChild.plan))
    {
      var newFilterNode := new PlanNode.Filtering(leftChild, condition);
      leftChild := newFilterNode;
      RefreshTwo();
    }

    method FilterRight(condition: Condition)
      requires Valid() && op.JoinOp?
      modifies this
      ensures Valid() && fresh(nodes - old(nodes)) && columns == old(columns)
      ensures plan == Join(old(op).joinType, old(leftChild.plan), Filter(condition, old(rightChild.plan)))
    {
      var newFilterNode := new PlanNode.Filtering(rightChild, condition);
      rightChild := newFilterNode;
      RefreshTwo();
    }

    /** Gives the join below a filter a copy of the filter on the first side the filter applies to. */
    method PushIntoJoin(condition: Condition)
      requires Valid() && op.JoinOp?
      modifies this
      ensures Valid() && fresh(nodes - old(nodes)) && columns == old(columns)
      ensures plan == PushInto(condition, old(plan))
    {
      var toLeft := leftChild.CanPushFilter(condition);
      if toLeft {
        FilterLeft(condition);
      } else {
        var toRight := rightChild.CanPushFilter(condition);
        if toRight {
          FilterRight(condition);
        }
      }
    }

    method PushDownFilter()
      requires Valid() && op.FilterOp?
      modifies nodes
      ensures Valid() && fresh(nodes - old(nodes)) && op == old(op)
      ensures plan == Filter(op.condition, PushInto(op.condition, old(input.plan)))
    {
      if input.op.JoinOp? {
        input.PushIntoJoin(op.condition);
        RefreshOne();
      }
    }

    /** Pushes filters down in the whole tree below this node, in place. */
    method OptimizePlan()
      requires Valid()
      modifies nodes
      ensures Valid() && fresh(nodes - old(nodes))
      ensures plan == Optimize(old(plan))
      decreases Binaries(plan), Chain(plan)
    {
      if op.FilterOp? {
        PushDownFilter();
        OptimizeInput();
      } else if op.UnaryOp? {
        OptimizeInput();
      } else if leftChild != null {
        OptimizeColumns(leftChild.plan);
        OptimizeColumns(rightChild.plan);
        OptimizeBoth(leftChild, rightChild);
        RefreshTwo();
      }
    }

    method OptimizeInput()
      requires Valid() && (op.FilterOp? || op.UnaryOp?)
      modifies nodes
      ensures Valid() && fresh(nodes - old(nodes))
      ensures plan == OverOne(old(op), old(columns), Optimize(old(input.plan)))
      decreases Binaries(plan), Chain(plan), 0
    {
      OptimizeColumns(input.plan);
      input.OptimizePlan();
      RefreshOne();
    }

    static method OptimizeBoth(left: PlanNode, right: PlanNode)
      requires left.Valid() && right.Valid() && left.nodes !! right.nodes
      modifies left.nodes, right.nodes
      ensures left.Valid() && right.Valid() && left.nodes !! right.nodes
      ensures left.plan == Optimize(old(left.plan)) && right.plan == Optimize(old(right.plan))
      ensures fresh(left.nodes - old(left.nodes)) && fresh(right.nodes - old(right.nodes))
      decreases 1 + Binaries(left.plan) + Binaries(right.plan), 0, 0
    {
      left.OptimizePlan();
      assert right.Valid();
      right.OptimizePlan();
      assert left.Valid();
    }
  }
}
