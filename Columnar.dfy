/**
  The typed column store the sort engine and the interpreter work on: values, the order on them,
  chunked nullable columns, tables, and the errors both components raise.
*/
module Columnar {
  import opened Wrappers

  /** The logical element types a column can hold (64-bit integers and UTF-8 strings). */
  datatype DataType = Int64 | Utf8

  datatype Value = IntValue(i: int) | StrValue(s: string)

  function TypeOf(v: Value): DataType
  {
    match v
    case IntValue(_) => Int64
    case StrValue(_) => Utf8
  }

  /** The zero value of a type: what a builder leaves behind a null slot. */
  function DefaultValue(t: DataType): (v: Value)
    ensures TypeOf(v) == t
  {
    match t
    case Int64 => IntValue(0)
    case Utf8 => StrValue("")
  }

  // ---------------------------------------------------------------------------
  // The order on values (`lhs < rhs` of the element type)
  // ---------------------------------------------------------------------------

  /** Lexicographic order of strings, character by character; a proper prefix comes first. */
  predicate StrLess(a: string, b: string)
  {
    if |a| == 0 then |b| > 0
    else |b| > 0 && (a[0] < b[0] || (a[0] == b[0] && StrLess(a[1..], b[1..])))
  }

  lemma {:induction false} StrLessIrreflexive(a: string)
    ensures !StrLess(a, a)
  {
    if |a| > 0 {
      StrLessIrreflexive(a[1..]);
    }
  }

  lemma {:induction false} StrLessTransitive(a: string, b: string, c: string)
    requires StrLess(a, b) && StrLess(b, c)
    ensures StrLess(a, c)
  {
    if |a| > 0 && a[0] == b[0] && b[0] == c[0] {
      StrLessTransitive(a[1..], b[1..], c[1..]);
    }
  }

  lemma {:induction false} StrLessTotal(a: string, b: string)
    ensures a == b || StrLess(a, b) || StrLess(b, a)
  {
    if |a| > 0 && |b| > 0 && a[0] == b[0] {
      StrLessTotal(a[1..], b[1..]);
      if a[1..] == b[1..] {
        assert a == [a[0]] + a[1..] && b == [b[0]] + b[1..];
      }
    }
  }

  /**
    The element order: integers numerically, strings lexicographically. A column holds one type,
    so an integer is never compared with a string; placing all integers first only makes the
    order total.
  */
  predicate Less(a: Value, b: Value)
  {
    match (a, b)
    case (IntValue(x), IntValue(y)) => x < y
    case (StrValue(x), StrValue(y)) => StrLess(x, y)
    case (IntValue(_), StrValue(_)) => true
    case (StrValue(_), IntValue(_)) => false
  }

  lemma LessIrreflexive(a: Value)
    ensures !Less(a, a)
  {
    if a.StrValue? {
      StrLessIrreflexive(a.s);
    }
  }

  lemma LessTransitive(a: Value, b: Value, c: Value)
    requires Less(a, b) && Less(b, c)
    ensures Less(a, c)
  {
    if a.StrValue? && b.StrValue? && c.StrValue? {
      StrLessTransitive(a.s, b.s, c.s);
    }
  }

  lemma LessTotal(a: Value, b: Value)
    ensures a == b || Less(a, b) || Less(b, a)
  {
    if a.StrValue? && b.StrValue? {
      StrLessTotal(a.s, b.s);
    }
  }

  // ---------------------------------------------------------------------------
  // Arrays, chunks, columns, tables
  // ---------------------------------------------------------------------------

  /** One row of an array: the entry of its value buffer and its validity bit. */
  datatype Slot = Slot(value: Value, valid: bool)

  /** A contiguous array (one chunk of a column). */
  type Chunk = seq<Slot>

  /** What a row means to a reader: a value, or null. */
  type Cell = Option<Value>

  function CellOf(s: Slot): (c: Cell)
    ensures c.Some? <==> s.valid
    ensures c.Some? ==> c.value == s.value
  {
    if s.valid then Some(s.value) else None
  }

  function Cells(chunk: Chunk): (cs: seq<Cell>)
    ensures |cs| == |chunk|
    ensures forall i :: 0 <= i < |chunk| ==> cs[i] == CellOf(chunk[i])
  {
    seq(|chunk|, i requires 0 <= i < |chunk| => CellOf(chunk[i]))
  }

  /** The raw value buffer of a chunk, nulls included. */
  function RawValues(chunk: Chunk): (vs: seq<Value>)
    ensures |vs| == |chunk|
    ensures forall i :: 0 <= i < |chunk| ==> vs[i] == chunk[i].value
  {
    seq(|chunk|, i requires 0 <= i < |chunk| => chunk[i].value)
  }

  /** The name and logical type of a column. */
  datatype FieldDesc = FieldDesc(name: string, dataType: DataType)

  /** A column: its field and its chunks, whose concatenation is the column's rows. */
  datatype Column = Column(field: FieldDesc, chunks: seq<Chunk>)

  function Flatten(chunks: seq<Chunk>): seq<Slot>
  {
    if chunks == [] then [] else chunks[0] + Flatten(chunks[1..])
  }

  lemma FlattenSingle(chunk: Chunk)
    ensures Flatten([chunk]) == chunk
  {
    assert [chunk][1..] == [];
  }

  function Length(column: Column): nat
  {
    |Flatten(column.chunks)|
  }

  /** The rows of a column as optional values (`toVector<std::optional<T>>`). */
  function ColumnCells(column: Column): (cs: seq<Cell>)
    ensures |cs| == Length(column)
  {
    Cells(Flatten(column.chunks))
  }

  /**
    The chunk, and the offset inside it, that holds a row of a chunked column
    (what `ChunkAccessor::locate` answers).
  */
  function Locate(chunks: seq<Chunk>, index: nat): (r: (nat, nat))
    requires index < |Flatten(chunks)|
    ensures r.0 < |chunks| && r.1 < |chunks[r.0]|
    ensures chunks[r.0][r.1] == Flatten(chunks)[index]
    decreases |chunks|
  {
    if index < |chunks[0]| then (0, index)
    else
      var (c, offset) := Locate(chunks[1..], index - |chunks[0]|);
      (c + 1, offset)
  }

  /** The number of null rows (`null_count()`). */
  function NullCount(cells: seq<Cell>): nat
  {
    if cells == [] then 0
    else (if cells[0].None? then 1 else 0) + NullCount(cells[1..])
  }

  lemma {:induction false} NullCountZero(cells: seq<Cell>)
    ensures NullCount(cells) == 0 <==> forall i :: 0 <= i < |cells| ==> cells[i].Some?
  {
    if cells != [] {
      NullCountZero(cells[1..]);
      if NullCount(cells) == 0 {
        forall i | 0 <= i < |cells| ensures cells[i].Some? {
          if i > 0 { assert cells[i] == cells[1..][i - 1]; }
        }
      } else if cells[0].Some? {
        var i :| 0 <= i < |cells[1..]| && cells[1..][i].None?;
        assert cells[i + 1].None?;
      }
    }
  }

  /** Every slot of the column, null or not, holds a value of the column's type. */
  ghost predicate WellTyped(column: Column)
  {
    forall i :: 0 <= i < Length(column) ==> TypeOf(Flatten(column.chunks)[i].value) == column.field.dataType
  }

  /** A single-chunk int64 column without nulls. */
  function IntColumn(name: string, values: seq<int>): (c: Column)
    ensures c.field == FieldDesc(name, Int64) && |c.chunks| == 1 && Length(c) == |values|
    ensures forall i :: 0 <= i < |values| ==> Flatten(c.chunks)[i] == Slot(IntValue(values[i]), true)
    ensures WellTyped(c)
  {
    var chunk := seq(|values|, i requires 0 <= i < |values| => Slot(IntValue(values[i]), true));
    FlattenSingle(chunk);
    Column(FieldDesc(name, Int64), [chunk])
  }

  /** A table: its schema and one column per schema entry. */
  datatype Table = Table(schema: seq<FieldDesc>, columns: seq<Column>)

  /** The row count `arrow::Table::Make` records: the first column's length, or 0 without columns. */
  function NumRows(table: Table): nat
  {
    if |table.columns| == 0 then 0 else Length(table.columns[0])
  }

  /** The table invariant: every column has the schema's field and the table's row count. */
  ghost predicate Valid(table: Table)
  {
    && |table.schema| == |table.columns|
    && forall i :: 0 <= i < |table.columns| ==>
         && table.columns[i].field == table.schema[i]
         && Length(table.columns[i]) == NumRows(table)
         && WellTyped(table.columns[i])
  }

  // ---------------------------------------------------------------------------
  // Errors (each is an exception that aborts the whole call)
  // ---------------------------------------------------------------------------

  datatype Error =
    | NoColumnToSortBy                                            // "no column to sort by"
    | ChunkedArraysNotImplemented                                 // "not implemented: processing of chunked arrays"
    | NotSupportedOperandTypes(lhs: DataType, rhs: DataType)      // "not supported operand types: <lhs> and <rhs>"
    | NegateNotSupported(operand: DataType)                       // "negate does not support operand of type: <t>"
    | ValueOperatorNotImplemented(valueOperator: int)             // "not implemented: value operator <n>"
    | ValueNodeNotImplemented                                     // "not implemented: value node of type <t>"
    | PredicateOperatorNotImplemented(predicateOperator: int)     // "not implemented: predicate operator <n>"
    | PredicateOperationNotImplemented                            // "not implemented: PredicateOperation"
}
