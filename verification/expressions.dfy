/** The comparison leaves of a WHERE clause, as the planner sees them. */
module Expressions {

  /** 1 for "=", 2 for "<>", 0 for every other comparison. */
  type CompareClass = c: int | 0 <= c <= 2

  datatype Variable = Variable(table: string, name: string)

  /** An `expression_info` object; `id` stands for its address, which is how the planner identifies it. */
  datatype Expression = Expression(id: nat, equal: CompareClass, oper: nat, variables: seq<Variable>)

  ghost function Ids(es: seq<Expression>): set<nat> {
    set e | e in es :: e.id
  }

  /** No two positions hold the same object. */
  ghost predicate DistinctIds(es: seq<Expression>) {
    forall i, j :: 0 <= i < j < |es| ==> es[i].id != es[j].id
  }
}
