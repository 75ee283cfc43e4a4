/**
  The expression trees the LQuery interpreter evaluates: value nodes (column references,
  literals, binary value operations) and predicate nodes (comparisons of two values, and
  boolean combinators over sub-predicates).
*/
module Ast {

  datatype ValueOperator = Plus | Minus | Times | Divide | Negate

  /** The enumerator's integer value, as the "value operator <n>" error reports it (declaration order). */
  function ValueOperatorCode(op: ValueOperator): (code: nat)
    ensures code < 5
  {
    match op
    case Plus => 0
    case Minus => 1
    case Times => 2
    case Divide => 3
    case Negate => 4
  }

  /** Comparisons; Other(code) stands for any further enumerator, which the interpreter rejects. */
  datatype PredicateFromValueOperator = Greater | Lesser | Equal | Other(code: int)

  function PredicateOperatorCode(op: PredicateFromValueOperator): int
  {
    match op
    case Greater => 0
    case Lesser => 1
    case Equal => 2
    case Other(code) => code
  }

  datatype PredicateOperator = And | Or | Not

  /**
    A value node. Every operation node carries the fixed maximum arity of two operands.
    StringLiteral is a node kind that has no case in the evaluator.
  */
  datatype ValueNode =
    | ColumnReference(columnRefId: int)
    | Literal(literal: int)
    | StringLiteral(text: string)
    | ValueOperation(what: ValueOperator, lhs: ValueNode, rhs: ValueNode)

  datatype PredicateNode =
    | PredicateFromValueOperation(what: PredicateFromValueOperator, lhs: ValueNode, rhs: ValueNode)
    | PredicateOperation(combinator: PredicateOperator, operands: seq<PredicateNode>)

  /** The number of nodes of a value tree. */
  function Size(node: ValueNode): (n: nat)
    ensures n >= 1
  {
    match node
    case ValueOperation(_, lhs, rhs) => 1 + Size(lhs) + Size(rhs)
    case _ => 1
  }

  /** Every column reference the evaluator follows names one of the n mapped columns. */
  predicate RefsBelow(node: ValueNode, n: nat)
  {
    match node
    case ColumnReference(id) => 0 <= id < n
    case ValueOperation(_, lhs, rhs) => RefsBelow(lhs, n) && RefsBelow(rhs, n)
    case _ => true
  }

  /** The same for a predicate; a boolean combinator is rejected before its operands are looked at. */
  predicate PredicateRefsBelow(p: PredicateNode, n: nat)
  {
    match p
    case PredicateFromValueOperation(_, lhs, rhs) => RefsBelow(lhs, n) && RefsBelow(rhs, n)
    case PredicateOperation(_, _) => true
  }

  /** The tree mentions column reference id. */
  predicate References(node: ValueNode, id: int)
  {
    match node
    case ColumnReference(ref) => ref == id
    case ValueOperation(_, lhs, rhs) => References(lhs, id) || References(rhs, id)
    case _ => false
  }
}
