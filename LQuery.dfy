/**
  The LQuery interpreter (Interpreter.cpp): operands are int64 scalars or arrays, binary
  operators are applied row by row with scalars broadcast to every row, comparisons give one
  byte per row, and every unsupported combination aborts the evaluation with an error.
*/
module LQuery {
  import opened Wrappers
  import opened Columnar
  import Ast

  /** One byte of a mask buffer (`unsigned char`). */
  type Byte = x: int | 0 <= x < 256

  // ---------------------------------------------------------------------------
  // Operands
  // ---------------------------------------------------------------------------

  /** An operand: an int64 scalar (a literal) or an array of values of one element type. */
  datatype Field = IntScalar(scalar: int) | Array(elemType: DataType, data: seq<Value>)

  /** The element type an operand supplies to an operator. */
  function ElemType(f: Field): DataType
  {
    if f.IntScalar? then Int64 else f.elemType
  }

  /** Every element of an array operand has the array's element type. */
  ghost predicate WellTypedField(f: Field)
  {
    f.Array? ==> forall i :: 0 <= i < |f.data| ==> TypeOf(f.data[i]) == f.elemType
  }

  /** The operand has a value for each of the first count rows. */
  predicate Covers(f: Field, count: nat)
  {
    f.Array? ==> count <= |f.data|
  }

  /** The operand's value at a row: an array's element there, or the scalar itself at every row. */
  function GetValue(src: Field, index: nat): (v: Value)
    requires Covers(src, index + 1)
    ensures WellTypedField(src) ==> TypeOf(v) == ElemType(src)
  {
    match src
    case IntScalar(x) => IntValue(x)
    case Array(_, data) => data[index]
  }

  // ---------------------------------------------------------------------------
  // Operators on element values
  // ---------------------------------------------------------------------------

  function Plus(lhs: Value, rhs: Value): (r: Result<Value, Error>)
    ensures r.Ok? <==> TypeOf(lhs) == TypeOf(rhs)
    ensures r.Err? ==> r.error == NotSupportedOperandTypes(TypeOf(lhs), TypeOf(rhs))
    ensures r.Ok? ==> TypeOf(r.value) == TypeOf(lhs)
  {
    match (lhs, rhs)
    case (IntValue(x), IntValue(y)) => Ok(IntValue(x + y))
    case (StrValue(x), StrValue(y)) => Ok(StrValue(x + y))
    case _ => Err(NotSupportedOperandTypes(TypeOf(lhs), TypeOf(rhs)))
  }

  /** `-`, `*` and `/` exist only for arithmetic types: two strings cannot reach them. */
  function Minus(lhs: Value, rhs: Value): (r: Result<Value, Error>)
    requires !(lhs.StrValue? && rhs.StrValue?)
    ensures r.Ok? <==> TypeOf(lhs) == TypeOf(rhs)
    ensures r.Err? ==> r.error == NotSupportedOperandTypes(TypeOf(lhs), TypeOf(rhs))
    ensures r.Ok? ==> r.value.IntValue?
  {
    match (lhs, rhs)
    case (IntValue(x), IntValue(y)) => Ok(IntValue(x - y))
    case _ => Err(NotSupportedOperandTypes(TypeOf(lhs), TypeOf(rhs)))
  }

  function Times(lhs: Value, rhs: Value): (r: Result<Value, Error>)
    requires !(lhs.StrValue? && rhs.StrValue?)
    ensures r.Ok? <==> TypeOf(lhs) == TypeOf(rhs)
    ensures r.Err? ==> r.error == NotSupportedOperandTypes(TypeOf(lhs), TypeOf(rhs))
    ensures r.Ok? ==> r.value.IntValue?
  {
    match (lhs, rhs)
    case (IntValue(x), IntValue(y)) => Ok(IntValue(x * y))
    case _ => Err(NotSupportedOperandTypes(TypeOf(lhs), TypeOf(rhs)))
  }

  function Abs(x: int): nat
  {
    if x < 0 then -x else x
  }

  /**
    The quotient of int64 division, which truncates toward zero: the remainder is smaller than
    the divisor in magnitude and is zero or has the dividend's sign.
  */
  ghost predicate TruncatedQuotient(x: int, y: int, q: int)
  {
    var rem := x - q * y;
    Abs(rem) < Abs(y) && (rem == 0 || (rem < 0 <==> x < 0))
  }

  function TruncDiv(x: int, y: int): (q: int)
    requires y != 0
    ensures TruncatedQuotient(x, y, q)
  {
    var m := Abs(x) / Abs(y);
    TruncDivMagnitude(x, y, m);
    if (x < 0) == (y < 0) then m else -m
  }

  lemma TruncDivMagnitude(x: int, y: int, q: int)
    requires y != 0 && q == Abs(x) / Abs(y)
    ensures TruncatedQuotient(x, y, if (x < 0) == (y < 0) then q else -q)
  {
    var m := Abs(x) % Abs(y);
    var p := q * Abs(y);
    DivMod(Abs(x), Abs(y), q, m, p);
    var q' := if (x < 0) == (y < 0) then q else -q;
    var qy := q' * y;
    MulSign(q', Abs(y), y);
    assert qy == (if x < 0 then -p else p);
    RemainderSign(x, y, qy, p, m);
  }

  lemma MulSign(a: int, b: int, y: int)
    requires b >= 0 && (y == b || y == -b)
    ensures a * y == if y == b then a * b else -(a * b)
  {
  }

  lemma DivMod(a: nat, b: nat, q: int, m: int, p: int)
    requires b > 0 && q == a / b && m == a % b && p == q * b
    ensures a == p + m && 0 <= m < b
  {
  }

  lemma RemainderSign(x: int, y: int, qy: int, p: int, m: int)
    requires y != 0 && Abs(x) == p + m && 0 <= m < Abs(y)
    requires qy == (if x < 0 then -p else p)
    ensures Abs(x - qy) < Abs(y) && (x - qy == 0 || (x - qy < 0 <==> x < 0))
  {
  }

  /** Division by zero is undefined for int64 and is excluded. */
  function Divide(lhs: Value, rhs: Value): (r: Result<Value, Error>)
    requires !(lhs.StrValue? && rhs.StrValue?)
    requires lhs.IntValue? && rhs.IntValue? ==> rhs.i != 0
    ensures r.Ok? <==> TypeOf(lhs) == TypeOf(rhs)
    ensures r.Err? ==> r.error == NotSupportedOperandTypes(TypeOf(lhs), TypeOf(rhs))
    ensures r.Ok? ==> r.value.IntValue? && TruncatedQuotient(lhs.i, rhs.i, r.value.i)
  {
    match (lhs, rhs)
    case (IntValue(x), IntValue(y)) => Ok(IntValue(TruncDiv(x, y)))
    case _ => Err(NotSupportedOperandTypes(TypeOf(lhs), TypeOf(rhs)))
  }

  /** Unary minus, defined for arithmetic operands only. */
  function Negate(operand: Value): (r: Result<Value, Error>)
    ensures r.Ok? <==> TypeOf(operand) == Int64
    ensures r.Err? ==> r.error == NegateNotSupported(TypeOf(operand))
    ensures r.Ok? ==> r.value.IntValue?
  {
    match operand
    case IntValue(x) => Ok(IntValue(-x))
    case StrValue(_) => Err(NegateNotSupported(Utf8))
  }

  /** `lhs > rhs`, in the element order of the common type. */
  function GreaterThan(lhs: Value, rhs: Value): (r: Result<bool, Error>)
    ensures r.Ok? <==> TypeOf(lhs) == TypeOf(rhs)
    ensures r.Err? ==> r.error == NotSupportedOperandTypes(TypeOf(lhs), TypeOf(rhs))
    ensures r.Ok? ==> (r.value <==> Less(rhs, lhs))
  {
    match (lhs, rhs)
    case (IntValue(x), IntValue(y)) => Ok(x > y)
    case (StrValue(x), StrValue(y)) => Ok(StrLess(y, x))
    case _ => Err(NotSupportedOperandTypes(TypeOf(lhs), TypeOf(rhs)))
  }

  function LessThan(lhs: Value, rhs: Value): (r: Result<bool, Error>)
    ensures r.Ok? <==> TypeOf(lhs) == TypeOf(rhs)
    ensures r.Err? ==> r.error == NotSupportedOperandTypes(TypeOf(lhs), TypeOf(rhs))
    ensures r.Ok? ==> (r.value <==> Less(lhs, rhs))
  {
    match (lhs, rhs)
    case (IntValue(x), IntValue(y)) => Ok(x < y)
    case (StrValue(x), StrValue(y)) => Ok(StrLess(x, y))
    case _ => Err(NotSupportedOperandTypes(TypeOf(lhs), TypeOf(rhs)))
  }

  function EqualTo(lhs: Value, rhs: Value): (r: Result<bool, Error>)
    ensures r.Ok? <==> TypeOf(lhs) == TypeOf(rhs)
    ensures r.Err? ==> r.error == NotSupportedOperandTypes(TypeOf(lhs), TypeOf(rhs))
    ensures r.Ok? ==> (r.value <==> lhs == rhs)
  {
    match (lhs, rhs)
    case (IntValue(x), IntValue(y)) => Ok(x == y)
    case (StrValue(x), StrValue(y)) => Ok(x == y)
    case _ => Err(NotSupportedOperandTypes(TypeOf(lhs), TypeOf(rhs)))
  }

  /** On two values of one type exactly one of the three comparisons holds. */
  lemma ComparisonTrichotomy(lhs: Value, rhs: Value)
    requires TypeOf(lhs) == TypeOf(rhs)
    ensures GreaterThan(lhs, rhs).value || LessThan(lhs, rhs).value || EqualTo(lhs, rhs).value
    ensures !(GreaterThan(lhs, rhs).value && LessThan(lhs, rhs).value)
    ensures !(GreaterThan(lhs, rhs).value && EqualTo(lhs, rhs).value)
    ensures !(LessThan(lhs, rhs).value && EqualTo(lhs, rhs).value)
  {
    LessTotal(lhs, rhs);
    LessIrreflexive(lhs);
    if Less(lhs, rhs) && Less(rhs, lhs) {
      LessTransitive(lhs, rhs, lhs);
    }
  }

  // ---------------------------------------------------------------------------
  // The elementwise kernel
  // ---------------------------------------------------------------------------

  /**
    `exec<Operation>(lhs, rhs, count)`: the operator applied to the values of row i of both
    operands, for every row below count, in row order; the first row whose operator call fails
    aborts the whole computation with that row's error.
  */
  function Exec<T>(op: (Value, Value) -> Result<T, Error>, lhs: Field, rhs: Field, count: nat): (r: Result<seq<T>, Error>)
    requires Covers(lhs, count) && Covers(rhs, count)
    ensures r.Ok? <==> forall i :: 0 <= i < count ==> op(GetValue(lhs, i), GetValue(rhs, i)).Ok?
    ensures r.Ok? ==> |r.value| == count
    ensures r.Ok? ==> forall i :: 0 <= i < count ==> op(GetValue(lhs, i), GetValue(rhs, i)) == Ok(r.value[i])
    ensures r.Err? ==> exists i :: 0 <= i < count && op(GetValue(lhs, i), GetValue(rhs, i)) == Err(r.error)
                                    && forall j :: 0 <= j < i ==> op(GetValue(lhs, j), GetValue(rhs, j)).Ok?
    decreases count
  {
    if count == 0 then Ok([])
    else Append(Exec(op, lhs, rhs, count - 1), op(GetValue(lhs, count - 1), GetValue(rhs, count - 1)))
  }

  /** One more row: the rows so far and this row's result, or the first error. */
  function Append<T>(prefix: Result<seq<T>, Error>, last: Result<T, Error>): Result<seq<T>, Error>
  {
    match prefix
    case Err(e) => Err(e)
    case Ok(values) =>
      match last
      case Err(e) => Err(e)
      case Ok(v) => Ok(values + [v])
  }

  /** Once row i fails after every earlier row succeeded, every longer run fails with row i's error. */
  lemma {:induction false} ExecFirstError<T>(op: (Value, Value) -> Result<T, Error>, lhs: Field, rhs: Field, i: nat, count: nat)
    requires i < count && Covers(lhs, count) && Covers(rhs, count)
    requires Exec(op, lhs, rhs, i).Ok? && op(GetValue(lhs, i), GetValue(rhs, i)).Err?
    ensures Exec(op, lhs, rhs, count) == Err(op(GetValue(lhs, i), GetValue(rhs, i)).error)
    decreases count
  {
    if count - 1 > i {
      ExecFirstError(op, lhs, rhs, i, count - 1);
    }
  }

  /** Whatever their shape, operands that supply the same row values give the same result. */
  lemma {:induction false} ExecAgree<T>(op: (Value, Value) -> Result<T, Error>, lhs: Field, rhs: Field, lhs': Field, rhs': Field, count: nat)
    requires Covers(lhs, count) && Covers(rhs, count) && Covers(lhs', count) && Covers(rhs', count)
    requires forall i :: 0 <= i < count ==> GetValue(lhs, i) == GetValue(lhs', i) && GetValue(rhs, i) == GetValue(rhs', i)
    ensures Exec(op, lhs, rhs, count) == Exec(op, lhs', rhs', count)
    decreases count
  {
    if count > 0 {
      ExecAgree(op, lhs, rhs, lhs', rhs', count - 1);
      assert GetValue(lhs, count - 1) == GetValue(lhs', count - 1);
      assert GetValue(rhs, count - 1) == GetValue(rhs', count - 1);
    }
  }

  /** The array that repeats x on each of count rows. */
  function Repeated(x: int, count: nat): (f: Field)
    ensures f.Array? && f.elemType == Int64 && Covers(f, count)
  {
    Array(Int64, seq(count, _ => IntValue(x)))
  }

  /** Broadcasting: a scalar operand behaves as the array repeating it on every row, on either side. */
  lemma ExecBroadcast<T>(op: (Value, Value) -> Result<T, Error>, x: int, other: Field, count: nat)
    requires Covers(other, count)
    ensures Exec(op, IntScalar(x), other, count) == Exec(op, Repeated(x, count), other, count)
    ensures Exec(op, other, IntScalar(x), count) == Exec(op, other, Repeated(x, count), count)
  {
    ExecAgree(op, IntScalar(x), other, Repeated(x, count), other, count);
    ExecAgree(op, other, IntScalar(x), other, Repeated(x, count), count);
  }

  /**
    The loop of `exec<Operation>`: allocate count elements and fill them row by row. The
    operator's failure on a row ends the loop with that error.
  */
  method ExecKernel<T(0)>(op: (Value, Value) -> Result<T, Error>, lhs: Field, rhs: Field, count: nat)
    returns (r: Result<seq<T>, Error>)
    requires Covers(lhs, count) && Covers(rhs, count)
    ensures r == Exec(op, lhs, rhs, count)
  {
    var ret := new T[count];
    for i := 0 to count
      invariant Exec(op, lhs, rhs, i) == Ok(ret[..i])
    {
      var v := op(GetValue(lhs, i), GetValue(rhs, i));
      if v.Err? {
        ExecFirstError(op, lhs, rhs, i, count);
        return Err(v.error);
      }
      ret[i] := v.value;
      assert ret[..i + 1] == ret[..i] + [v.value];
    }
    assert ret[..] == ret[..count];
    return Ok(ret[..]);
  }

  /** A comparison's bool result stored as an `unsigned char` mask byte; an error passes through. */
  function StoreBool(b: Result<bool, Error>): (r: Result<Byte, Error>)
    ensures r.Ok? <==> b.Ok?
    ensures r.Err? ==> r.error == b.error
    ensures r.Ok? ==> (r.value == 0 || r.value == 1) && (r.value == 1 <==> b.value)
  {
    match b
    case Ok(x) => Ok(if x then 1 else 0)
    case Err(e) => Err(e)
  }

  function GreaterThanByte(lhs: Value, rhs: Value): Result<Byte, Error>
  {
    StoreBool(GreaterThan(lhs, rhs))
  }

  function LessThanByte(lhs: Value, rhs: Value): Result<Byte, Error>
  {
    StoreBool(LessThan(lhs, rhs))
  }

  function EqualToByte(lhs: Value, rhs: Value): Result<Byte, Error>
  {
    StoreBool(EqualTo(lhs, rhs))
  }

  /** The relation a comparison predicate tests, on values of one type. */
  ghost predicate Holds(what: Ast.PredicateFromValueOperator, lhs: Value, rhs: Value)
    requires !what.Other?
  {
    && TypeOf(lhs) == TypeOf(rhs)
    && match what
       case Greater => Less(rhs, lhs)
       case Lesser => Less(lhs, rhs)
       case Equal => lhs == rhs
  }

  // ---------------------------------------------------------------------------
  // The interpreter
  // ---------------------------------------------------------------------------

  /** The table's columns in the order the mapping lists them. */
  function Mapped(table: Table, mapping: seq<int>): (columns: seq<Column>)
    requires forall i :: 0 <= i < |mapping| ==> 0 <= mapping[i] < |table.columns|
    ensures |columns| == |mapping|
  {
    seq(|mapping|, i requires 0 <= i < |mapping| => table.columns[mapping[i]])
  }

  /**
    An interpreter bound to a table and to the columns that column reference ids 0, 1, ...
    stand for.
  */
  datatype Interpreter = Interpreter(table: Table, columns: seq<Column>)
  {
    /** Every mapped column has a row for each row of the table and holds values of its type. */
    ghost predicate Consistent()
    {
      forall i :: 0 <= i < |columns| ==> Length(columns[i]) == NumRows(table) && WellTyped(columns[i])
    }

    /** A column as an operand: its only chunk's value buffer, used in place. */
    function FieldFromColumn(column: Column): (r: Result<Field, Error>)
      ensures r.Err? <==> |column.chunks| != 1
      ensures r.Err? ==> r.error == ChunkedArraysNotImplemented
      ensures r.Ok? ==> r.value.Array? && r.value.elemType == column.field.dataType
      ensures r.Ok? ==> |r.value.data| == Length(column)
                        && forall i :: 0 <= i < Length(column) ==> r.value.data[i] == Flatten(column.chunks)[i].value
      ensures r.Ok? && WellTyped(column) ==> WellTypedField(r.value)
    {
      if |column.chunks| != 1 then Err(ChunkedArraysNotImplemented)
      else
        FlattenSingle(column.chunks[0]);
        assert column.chunks == [column.chunks[0]];
        Ok(Array(column.field.dataType, RawValues(column.chunks[0])))
    }

    /** Both operands of a node, the left one evaluated first; the first failure is the result. */
    function EvaluateOperands(lhs: Ast.ValueNode, rhs: Ast.ValueNode): (r: Result<(Field, Field), Error>)
      requires Consistent() && Ast.RefsBelow(lhs, |columns|) && Ast.RefsBelow(rhs, |columns|)
      ensures r.Ok? <==> EvaluateValue(lhs).Ok? && EvaluateValue(rhs).Ok?
      ensures r.Ok? ==> r.value == (EvaluateValue(lhs).value, EvaluateValue(rhs).value)
      ensures r.Err? ==> r.error == if EvaluateValue(lhs).Err? then EvaluateValue(lhs).error else EvaluateValue(rhs).error
      decreases Ast.Size(lhs) + Ast.Size(rhs), 0
    {
      match EvaluateValue(lhs)
      case Err(e) => Err(e)
      case Ok(l) =>
        match EvaluateValue(rhs)
        case Err(e) => Err(e)
        case Ok(rv) => Ok((l, rv))
    }

    /**
      Evaluate a value node: a column reference gives its column's buffer, an integer literal
      its scalar, and Plus the rowwise sum of its operands over the table's rows. Every other
      operator and node kind is not implemented.
    */
    function EvaluateValue(value: Ast.ValueNode): (r: Result<Field, Error>)
      requires Consistent() && Ast.RefsBelow(value, |columns|)
      ensures value.ColumnReference? ==> r == FieldFromColumn(columns[value.columnRefId])
      ensures value.Literal? ==> r == Ok(IntScalar(value.literal))
      ensures r.Ok? ==> Covers(r.value, NumRows(table)) && WellTypedField(r.value)
      ensures r.Ok? && r.value.Array? && !value.ColumnReference? ==> |r.value.data| == NumRows(table)
      ensures r.Ok? && value.ValueOperation? ==>
                && value.what == Ast.Plus
                && EvaluateOperands(value.lhs, value.rhs).Ok?
                && var (lhs, rhs) := EvaluateOperands(value.lhs, value.rhs).value;
                   && r.value.Array? && r.value.elemType == ElemType(lhs)
                   && forall i :: 0 <= i < NumRows(table) ==> Plus(GetValue(lhs, i), GetValue(rhs, i)) == Ok(r.value.data[i])
      ensures value.ValueOperation? && value.what == Ast.Plus ==>
                (r.Ok? <==> && EvaluateOperands(value.lhs, value.rhs).Ok?
                            && var (lhs, rhs) := EvaluateOperands(value.lhs, value.rhs).value;
                               forall i :: 0 <= i < NumRows(table) ==> TypeOf(GetValue(lhs, i)) == TypeOf(GetValue(rhs, i)))
      decreases Ast.Size(value), 1
    {
      match value
      case ColumnReference(id) => FieldFromColumn(columns[id])
      case Literal(x) => Ok(IntScalar(x))
      case StringLiteral(_) => Err(ValueNodeNotImplemented)
      case ValueOperation(what, lhs, rhs) =>
        match EvaluateOperands(lhs, rhs)
        case Err(e) => Err(e)
        case Ok((lv, rv)) =>
          if what == Ast.Plus then
            match Exec(Plus, lv, rv, NumRows(table))
            case Err(e) => Err(e)
            case Ok(values) => Ok(Array(ElemType(lv), values))
          else Err(ValueOperatorNotImplemented(Ast.ValueOperatorCode(what)))
    }

    /**
      Evaluate a predicate to a mask of one byte per table row; only the comparisons
      Greater, Lesser and Equal are implemented.
    */
    function Evaluate(p: Ast.PredicateNode): (r: Result<seq<Byte>, Error>)
      requires Consistent() && Ast.PredicateRefsBelow(p, |columns|)
      ensures r.Ok? <==>
                && p.PredicateFromValueOperation? && !p.what.Other?
                && EvaluateOperands(p.lhs, p.rhs).Ok?
                && var (lhs, rhs) := EvaluateOperands(p.lhs, p.rhs).value;
                   forall i :: 0 <= i < NumRows(table) ==> TypeOf(GetValue(lhs, i)) == TypeOf(GetValue(rhs, i))
      ensures r.Ok? ==>
                && |r.value| == NumRows(table)
                && var (lhs, rhs) := EvaluateOperands(p.lhs, p.rhs).value;
                   forall i :: 0 <= i < NumRows(table) ==>
                     && (r.value[i] == 0 || r.value[i] == 1)
                     && (r.value[i] == 1 <==> Holds(p.what, GetValue(lhs, i), GetValue(rhs, i)))
    {
      match p
      case PredicateOperation(_, _) => Err(PredicateOperationNotImplemented)
      case PredicateFromValueOperation(what, lhs, rhs) =>
        match EvaluateOperands(lhs, rhs)
        case Err(e) => Err(e)
        case Ok((lv, rv)) =>
          match what
          case Greater => Exec(GreaterThanByte, lv, rv, NumRows(table))
          case Lesser => Exec(LessThanByte, lv, rv, NumRows(table))
          case Equal => Exec(EqualToByte, lv, rv, NumRows(table))
          case Other(_) => Err(PredicateOperatorNotImplemented(Ast.PredicateOperatorCode(what)))
    }
  }

  /** The constructor: the mapped columns, pushed in mapping order. */
  method MakeInterpreter(table: Table, mapping: seq<int>) returns (interp: Interpreter)
    requires forall i :: 0 <= i < |mapping| ==> 0 <= mapping[i] < |table.columns|
    ensures interp.table == table && |interp.columns| == |mapping|
    ensures forall i :: 0 <= i < |mapping| ==> interp.columns[i] == table.columns[mapping[i]]
    ensures Valid(table) ==> interp.Consistent()
  {
    var columns: seq<Column> := [];
    for i := 0 to |mapping|
      invariant |columns| == i
      invariant forall m :: 0 <= m < i ==> columns[m] == table.columns[mapping[m]]
    {
      columns := columns + [table.columns[mapping[i]]];
    }
    interp := Interpreter(table, columns);
  }

  /** Evaluate a predicate over a table whose column reference ids are resolved through mapping. */
  method Execute(table: Table, query: Ast.PredicateNode, mapping: seq<int>) returns (r: Result<seq<Byte>, Error>)
    requires Valid(table) && forall i :: 0 <= i < |mapping| ==> 0 <= mapping[i] < |table.columns|
    requires Ast.PredicateRefsBelow(query, |mapping|)
    ensures Interpreter(table, Mapped(table, mapping)).Consistent()
    ensures r == Interpreter(table, Mapped(table, mapping)).Evaluate(query)
    ensures r.Ok? ==> |r.value| == NumRows(table) && forall i :: 0 <= i < |r.value| ==> r.value[i] <= 1
  {
    var interp := MakeInterpreter(table, mapping);
    assert interp == Interpreter(table, Mapped(table, mapping));
    r := interp.Evaluate(query);
  }

  // ---------------------------------------------------------------------------
  // Properties of the evaluator
  // ---------------------------------------------------------------------------

  /** Operators and node kinds outside the implemented subset fail with their own errors. */
  lemma NotImplementedErrors(interp: Interpreter, what: Ast.ValueOperator, lhs: Ast.ValueNode, rhs: Ast.ValueNode, code: int, text: string)
    requires interp.Consistent() && Ast.RefsBelow(lhs, |interp.columns|) && Ast.RefsBelow(rhs, |interp.columns|)
    requires interp.EvaluateOperands(lhs, rhs).Ok?
    ensures what != Ast.Plus ==>
              interp.EvaluateValue(Ast.ValueOperation(what, lhs, rhs)) == Err(ValueOperatorNotImplemented(Ast.ValueOperatorCode(what)))
    ensures interp.EvaluateValue(Ast.StringLiteral(text)) == Err(ValueNodeNotImplemented)
    ensures interp.Evaluate(Ast.PredicateFromValueOperation(Ast.Other(code), lhs, rhs)) == Err(PredicateOperatorNotImplemented(code))
    ensures forall c, operands :: interp.Evaluate(Ast.PredicateOperation(c, operands)) == Err(PredicateOperationNotImplemented)
  {
  }

  /** A tree that mentions a column stored in several chunks (or none) cannot be evaluated. */
  lemma {:induction false} MultiChunkReferenceFails(interp: Interpreter, value: Ast.ValueNode, id: int)
    requires interp.Consistent() && Ast.RefsBelow(value, |interp.columns|)
    requires Ast.References(value, id) && 0 <= id < |interp.columns| && |interp.columns[id].chunks| != 1
    ensures interp.EvaluateValue(value).Err?
  {
    if value.ValueOperation? {
      if Ast.References(value.lhs, id) {
        MultiChunkReferenceFails(interp, value.lhs, id);
      } else {
        MultiChunkReferenceFails(interp, value.rhs, id);
      }
    }
  }

  lemma MultiChunkPredicateFails(interp: Interpreter, p: Ast.PredicateNode, id: int)
    requires interp.Consistent() && Ast.PredicateRefsBelow(p, |interp.columns|) && p.PredicateFromValueOperation?
    requires Ast.References(p.lhs, id) || Ast.References(p.rhs, id)
    requires 0 <= id < |interp.columns| && |interp.columns[id].chunks| != 1
    ensures interp.Evaluate(p).Err?
  {
    if Ast.References(p.lhs, id) {
      MultiChunkReferenceFails(interp, p.lhs, id);
    } else {
      MultiChunkReferenceFails(interp, p.rhs, id);
    }
  }

  /**
    Adding an integer literal to a string column is a type mismatch. The check is made on each
    row, so it fails exactly when the table has a row; with none the result is an empty array.
  */
  lemma StringColumnPlusIntLiteral(interp: Interpreter, id: int, x: int)
    requires interp.Consistent() && 0 <= id < |interp.columns|
    requires |interp.columns[id].chunks| == 1 && interp.columns[id].field.dataType == Utf8
    ensures var value := Ast.ValueOperation(Ast.Plus, Ast.ColumnReference(id), Ast.Literal(x));
            assert Ast.RefsBelow(value.rhs, |interp.columns|);
            interp.EvaluateValue(value) ==
              if NumRows(interp.table) == 0 then Ok(Array(Utf8, []))
              else Err(NotSupportedOperandTypes(Utf8, Int64))
  {
    var column := interp.FieldFromColumn(interp.columns[id]).value;
    var n := NumRows(interp.table);
    if n > 0 {
      assert Exec(Plus, column, IntScalar(x), 0) == Ok([]);
      ExecFirstError(Plus, column, IntScalar(x), 0, n);
    }
  }

  /** The table with one int64 column x = [1, 2, 3]. */
  function ExampleTable(): (t: Table)
    ensures Valid(t) && NumRows(t) == 3
  {
    Table([FieldDesc("x", Int64)], [IntColumn("x", [1, 2, 3])])
  }

  /** `x + 10` over x = [1, 2, 3] is [11, 12, 13]. */
  lemma PlusLiteralExample()
    ensures Interpreter(ExampleTable(), ExampleTable().columns).Consistent()
    ensures Interpreter(ExampleTable(), ExampleTable().columns)
              .EvaluateValue(Ast.ValueOperation(Ast.Plus, Ast.ColumnReference(0), Ast.Literal(10)))
            == Ok(Array(Int64, [IntValue(11), IntValue(12), IntValue(13)]))
  {
    var interp := Interpreter(ExampleTable(), ExampleTable().columns);
    var r := interp.EvaluateValue(Ast.ValueOperation(Ast.Plus, Ast.ColumnReference(0), Ast.Literal(10)));
    var column := interp.FieldFromColumn(interp.columns[0]).value;
    assert column.data == [IntValue(1), IntValue(2), IntValue(3)];
    assert r.Ok?;
    assert r.value.data == [IntValue(11), IntValue(12), IntValue(13)];
  }

  /** `x > 2` over x = [1, 2, 3] is the mask [0, 0, 1]. */
  lemma GreaterLiteralExample()
    ensures Interpreter(ExampleTable(), ExampleTable().columns).Consistent()
    ensures Interpreter(ExampleTable(), ExampleTable().columns)
              .Evaluate(Ast.PredicateFromValueOperation(Ast.Greater, Ast.ColumnReference(0), Ast.Literal(2)))
            == Ok([0, 0, 1])
  {
    var interp := Interpreter(ExampleTable(), ExampleTable().columns);
    var r := interp.Evaluate(Ast.PredicateFromValueOperation(Ast.Greater, Ast.ColumnReference(0), Ast.Literal(2)));
    var column := interp.FieldFromColumn(interp.columns[0]).value;
    assert column.data == [IntValue(1), IntValue(2), IntValue(3)];
    assert r.Ok?;
    assert r.value == [0, 0, 1];
  }
}
