# Sort engine and LQuery interpreter of the Dataframes native library, in Dafny

This project models the two computational components of the Dataframes columnar engine and
proves what they promise.

**The sort/permutation engine** (`Sort.cpp`). `sortPermutation` takes a list of sort
keys. Each key is a column, an order (ascending or descending) and a null position (before
or after the values). An empty list is an error. Otherwise the engine starts from the
identity index vector, sized to the first key's column. It walks the keys from the last to
the first and stable-sorts the index vector in place once per key, comparing rows through a
key's values and its null rules. Permuting a column or table detects the identity
permutation and returns the input itself. Any other permutation builds new single-chunk
arrays in which row k is input row `indices[k]`, nulls included. `sortTable` composes the
two.

**The LQuery interpreter** (`LQuery/Interpreter.cpp`). It evaluates expression trees over a
table. Value nodes are column references (resolved through a column mapping), integer
literals and binary value operations. Predicate nodes are comparisons of two values and
boolean combinators. An operand (`Field`) is an int64 scalar or an array of int64 or string
values. An operator is applied row by row over the table's rows, and a scalar operand stands
for the same value on every row. Comparisons give a mask of one byte per row (1 or 0). An
operator whose operand types differ fails on the first row it meets. So do unimplemented
operators, multi-chunk columns and boolean combinators.

Modules:

- `Wrappers`: `Option` (nulls) and `Result` (the exceptions, as values).
- `Columnar`: values and their order, Arrow-style slots, chunks, columns and tables, and the
  error kinds. `Locate` answers which chunk and offset hold a row.
- `Comparators`: `compareRawValues` / `compareValues`, proved to be a strict weak order.
- `Sort`: the stable in-place sort of an index `array<int>` and `sortPermutation`. The result
  is proved to be a permutation, sorted lexicographically with ties kept in input order, and
  unique.
- `Permute`: `isPermuteId`, `permuteInnerToArray`, `permuteInner`, `permuteToArray`,
  `permute` and `sortTable`.
- `Ast`: value and predicate nodes.
- `LQuery`: operands, the operator structs, the `exec<Operation>` kernel (a loop method
  proved equal to a recursive specification), and the interpreter itself.

Adding an integer literal to a string column fails only when the table has a row, because
the type check runs inside the per-row loop (`Interpreter.cpp:114-117`). With no rows the
result is an empty array of the left operand's type (`LQuery.StringColumnPlusIntLiteral`).

## Model

| member | source | states |
|---|---|---|
| Columnar.LessIrreflexive | native_libs/src/Sort.cpp:106-112 | no value is below itself in the element order `<` |
| Columnar.LessTransitive | native_libs/src/Sort.cpp:106-112 | the element order is transitive (strings lexicographic, ints numeric) |
| Columnar.LessTotal | native_libs/src/Sort.cpp:106-112 | any two distinct values are ordered one way or the other |
| Columnar.Locate | native_libs/src/Sort.cpp:44 | the (chunk, offset) returned for a row holds exactly that row of the concatenated chunks |
| Columnar.NullCountZero | native_libs/src/Sort.cpp:37 | `null_count() == 0` exactly when every row is valid, which is what licenses the non-nullable branch |
| Comparators.NullRules | native_libs/src/Sort.cpp:119-128 | null vs null is not less; a value precedes null iff the position is After; null precedes a value iff it is Before |
| Comparators.DescendingFlipsOnlyValues | native_libs/src/Sort.cpp:106-128 | Descending swaps the comparison of two values and leaves every comparison with a null unchanged |
| Comparators.NonNullableAgrees | native_libs/src/Sort.cpp:132-135 | on non-null values the nullable comparator is the raw one |
| Comparators.CompareValuesIrreflexive | native_libs/src/Sort.cpp:114-136 | the comparator never says a row sorts before itself |
| Comparators.CompareValuesTransitive | native_libs/src/Sort.cpp:114-136 | the comparator is transitive |
| Comparators.CompareValuesSplit | native_libs/src/Sort.cpp:114-136 | incomparability is transitive, so the comparator is a strict weak order as `std::stable_sort` requires |
| Sort.IndexLess | native_libs/src/Sort.cpp:140-145 | the comparator lambda of `std::stable_sort`: it only relates two distinct rows of the key column, and never both ways |
| Sort.InsertAt | native_libs/src/Sort.cpp:141-146 | one insertion step in place: the prefix becomes the functional insertion of the next index and the rest of the array is unchanged |
| Sort.StableSort | native_libs/src/Sort.cpp:141-146 | the in-place sort leaves the index array equal to the stable sort of its old contents |
| Sort.StableSortedPermutes | native_libs/src/Sort.cpp:141-146 | a sort pass only reorders the indices (same multiset) |
| Sort.StrictlySortedTiesKeepOrder | native_libs/src/Sort.cpp:141-146 | in a list sorted by the lexicographic order, rows that tie on every key are in input order |
| Sort.StableSortedRefines | native_libs/src/Sort.cpp:174-178 | a stable pass by key k over a list sorted by the later keys yields a list sorted by k first, then the later keys |
| Sort.RowLessTransitive | native_libs/src/Sort.cpp:174-178 | the lexicographic row order of the keys is transitive |
| Sort.RowLessIrreflexive | native_libs/src/Sort.cpp:174-178 | the lexicographic row order is irreflexive |
| Sort.SortPermutationBy | native_libs/src/Sort.cpp:149-165 | one pass stable-sorts the index array by one key column with its order and null position |
| Sort.PassRefines | native_libs/src/Sort.cpp:174-178 | each pass keeps a permutation and extends the sorted order by one more significant key |
| Sort.LexicographicOrder | native_libs/src/Sort.cpp:174-178 | a lexicographically sorted result is ordered by the first key, and rows tied on all keys keep input order |
| Sort.SortPermutation | native_libs/src/Sort.cpp:167-181 | error "no column to sort by" iff there are no keys; otherwise a permutation of [0, n) for n the first key's length, sorted lexicographically by all keys, ordered by the first key, ties in input order |
| Sort.SortedUnique | native_libs/src/Sort.cpp:167-181 | two index lists of the same rows that are both strictly sorted by the keys are equal, so the result is determined |
| Sort.NullBlock | native_libs/src/Sort.cpp:119-128 | under the first key all nulls come before all values (Before) or after them (After), whatever the order |
| Sort.MultiKeyExample | native_libs/src/Sort.cpp:167-181 | rows (1,2), (1,1), (0,5) sorted by both columns ascending are rows 2, 1, 0 |
| Permute.IsPermuteId | native_libs/src/Sort.cpp:88-94 | true exactly when `indices[i] == i` at every position, the empty vector included |
| Permute.IdentityPermuted | native_libs/src/Sort.cpp:196-197 | permuting by the identity of the input's length gives the input back, so the fast path is invisible |
| Permute.PermutationKeepsRows | native_libs/src/Sort.cpp:42-55 | permuting rows by a permutation loses no row and duplicates none (same multiset) |
| Permute.PermutedSameRows | native_libs/src/Sort.cpp:42-55 | index vectors holding the same indices select the same rows in some order |
| Permute.PermuteInnerToArray | native_libs/src/Sort.cpp:29-59 | output row k is input row `indices[k]`, null iff that row is null, with the column's type, in both the nullable and the non-nullable branch |
| Permute.PermuteInnerColumn | native_libs/src/Sort.cpp:76-79 | a new single-chunk column with the same field and the permuted rows |
| Permute.PermuteInnerTable | native_libs/src/Sort.cpp:81-86 | every column permuted independently, fields and schema kept; a valid table stays valid |
| Permute.PermuteToArray | native_libs/src/Sort.cpp:186-192 | the existing chunk exactly when the permutation is the identity and there is one chunk, otherwise the permuted array; either way the permuted rows |
| Permute.PermuteColumn | native_libs/src/Sort.cpp:194-200 | the identity returns the input column itself; any other permutation gives the permuted column |
| Permute.PermuteTable | native_libs/src/Sort.cpp:202-208 | the identity returns the input table itself; any other permutation gives every column permuted under the original schema |
| Permute.SortTable | native_libs/src/Sort.cpp:210-214 | error iff there are no keys; otherwise a valid table: the input itself when the sort permutation is the identity, else every column permuted by it; with a first key of the table's row count, always the columns permuted by the sort permutation |
| LQuery.GetValue | native_libs/src/LQuery/Interpreter.cpp:38-47 | an array operand gives its element at the row, a scalar the same value at every row, of the operand's element type |
| LQuery.ExecBroadcast | native_libs/src/LQuery/Interpreter.cpp:38-47 | broadcasting: a scalar operand on either side gives the same result as the array repeating it on every row |
| LQuery.Plus | native_libs/src/LQuery/Interpreter.cpp:49-78 | defined iff both operand types are equal, with a result of that type; otherwise "not supported operand types" naming both |
| LQuery.Minus | native_libs/src/LQuery/Interpreter.cpp:79-82 | defined iff both operands are int64, with an int64 result; otherwise the operand-type error |
| LQuery.Times | native_libs/src/LQuery/Interpreter.cpp:83-86 | defined iff both operands are int64, with an int64 result; otherwise the operand-type error |
| LQuery.TruncDiv | native_libs/src/LQuery/Interpreter.cpp:87-90 | int64 division truncates toward zero: the remainder is smaller than the divisor and zero or of the dividend's sign |
| LQuery.Divide | native_libs/src/LQuery/Interpreter.cpp:87-90 | defined iff both operands are int64, giving the truncated quotient; otherwise the operand-type error |
| LQuery.Negate | native_libs/src/LQuery/Interpreter.cpp:91-101 | defined iff the operand is int64; a string fails with "negate does not support operand of type" |
| LQuery.GreaterThan | native_libs/src/LQuery/Interpreter.cpp:62-65 | defined iff the types are equal, and then true iff rhs is below lhs in the element order |
| LQuery.LessThan | native_libs/src/LQuery/Interpreter.cpp:66-69 | defined iff the types are equal, and then true iff lhs is below rhs in the element order |
| LQuery.EqualTo | native_libs/src/LQuery/Interpreter.cpp:70-73 | defined iff the types are equal, and then true iff the values are equal |
| LQuery.ComparisonTrichotomy | native_libs/src/LQuery/Interpreter.cpp:62-73 | on values of one type exactly one of `>`, `<`, `==` holds |
| LQuery.StoreBool | native_libs/src/LQuery/Interpreter.cpp:107-108 | a comparison's bool is stored as the byte 1 when true and 0 when false; an error passes through |
| LQuery.Exec | native_libs/src/LQuery/Interpreter.cpp:104-120 | success iff the operator succeeds on every row below count; then count results with result i the operator on row i; otherwise the error of the first failing row |
| LQuery.ExecFirstError | native_libs/src/LQuery/Interpreter.cpp:114-117 | a failing row after successful ones decides the kernel's error however many rows follow |
| LQuery.ExecAgree | native_libs/src/LQuery/Interpreter.cpp:104-120 | the kernel depends only on the row values its operands supply, not on their shape |
| LQuery.ExecKernel | native_libs/src/LQuery/Interpreter.cpp:104-120 | the allocate-and-fill loop returns exactly the kernel's specified result, stopping at the first failing row |
| LQuery.MakeInterpreter | native_libs/src/LQuery/Interpreter.cpp:124-129 | column i of the interpreter is the table column `mapping[i]`; over a valid table every mapped column has the table's row count |
| LQuery.Interpreter.FieldFromColumn | native_libs/src/LQuery/Interpreter.cpp:136-149 | "processing of chunked arrays" error iff the column does not have exactly one chunk; otherwise an array of the column's type holding every slot's raw value, nulls included (strings as strings, see Left out) |
| LQuery.Interpreter.EvaluateOperands | native_libs/src/LQuery/Interpreter.cpp:152-160 | both operands evaluated, left first; success iff both succeed, and the left operand's error wins |
| LQuery.Interpreter.EvaluateValue | native_libs/src/LQuery/Interpreter.cpp:162-185 | a column reference gives `fieldFromColumn` of the mapped column `columns[id]`, and an integer literal gives its scalar; a Plus node succeeds iff both operands evaluate and agree in type on every row, and then row i is the sum of the operands' row i, typed by the left operand; a successful result covers the table's rows with well-typed values; every other operation node fails |
| LQuery.Interpreter.Evaluate | native_libs/src/LQuery/Interpreter.cpp:187-213 | success iff the node is a Greater/Lesser/Equal comparison whose operands evaluate and agree in type on every row; the mask then has one byte per row, 1 exactly where the relation holds, 0 elsewhere |
| LQuery.Execute | native_libs/src/LQuery/Interpreter.cpp:218-222 | the mask of the predicate evaluated by an interpreter over the mapped columns: one 0/1 byte per table row on success |
| LQuery.NotImplementedErrors | native_libs/src/LQuery/Interpreter.cpp:162-213 | value operators other than Plus, unhandled value nodes, other comparison operators and every boolean combinator fail with their "not implemented" errors |
| LQuery.MultiChunkReferenceFails | native_libs/src/LQuery/Interpreter.cpp:136-140 | any value tree that references a column stored in several chunks fails to evaluate |
| LQuery.MultiChunkPredicateFails | native_libs/src/LQuery/Interpreter.cpp:187-198 | so does a comparison with such a reference in either operand |
| LQuery.StringColumnPlusIntLiteral | native_libs/src/LQuery/Interpreter.cpp:104-117 | string column + int literal fails with the operand-type error (Utf8, Int64) iff the table has a row; with none it is an empty string array |
| LQuery.PlusLiteralExample | native_libs/src/LQuery/Interpreter.cpp:162-185 | `x + 10` over x = [1, 2, 3] is [11, 12, 13] |
| LQuery.GreaterLiteralExample | native_libs/src/LQuery/Interpreter.cpp:187-198 | `x > 2` over x = [1, 2, 3] is the mask [0, 0, 1] |

## Left out

- `XLSX.cpp` is not part of this model: it is spreadsheet file I/O through a foreign library.
- Floating point: `double` columns, `Literal<double>` and `ArrayOperand<double>` are not modelled. Element types are int64 and UTF-8 strings. Strings are ordered character by character, which is the byte order of UTF-8 data.
- Object identity and buffer ownership (`shared_ptr`, wrapping vs copying a buffer) are not observable on values. "Returns the input" is modelled as returning an equal value, and `fieldFromColumn`'s wrapping as using the chunk's raw values.
- The compile-time dispatch (`dispatch`, `visitType`, template specialisation) is an ordinary match. The unreachable "invalid value" and "sort internal error" throws have no counterpart. The no-branch-in-inner-loop performance property is not modelled.
- `std::stable_sort` is replaced by a stable in-place insertion sort with the same comparator. Its result is proved unique (`Sort.SortedUnique`), so any stable sort gives the same permutation.
- `std::reverse` of the key list followed by a forward loop is modelled as a loop walking the keys from last to first.
- `toVector`, `iotaVector`, `ChunkAccessor` and `TypeDescription` live in `Core/ArrowUtilities.h`, which is not part of this model. They are modelled by `ColumnCells`, `Range`, `Locate` and `DataType`.
- Sort.SortPermutation: requires that no key column is shorter than the first key (`Conformable`). A shorter key column is read out of bounds in the source, which is undefined behaviour. Longer key columns are allowed; only their first rows are read.
- Permute.SortTable: requires a valid table with at least as many rows as the first key. With fewer rows, a non-identity permutation indexes the table's columns out of bounds, which is undefined behaviour.
- Permute.PermuteInnerToArray: a null row's hidden value buffer entry is not promised; only its cell (null) is.
- LQuery.Plus: int64 overflow is not modelled; integers are unbounded. The same holds for Minus, Times, Negate and Divide (`INT64_MIN / -1`).
- LQuery.Plus: string operands are modelled as the intended concatenation, on operands that hold their strings (see the `LQuery.Interpreter.FieldFromColumn` line).
- LQuery.Minus, LQuery.Times, LQuery.Divide: require that not both operands are strings, because these templates cannot be instantiated for strings. The same is true in the source when only the left operand is a string: the mismatched-type overload calls `exec(lhs, lhs)` on the left operand twice. The model treats `(string, int64)` as the operand-type error instead. Divide also requires a non-zero int64 divisor (division by zero is undefined behaviour). These operators are never called by the evaluator.
- LQuery.Interpreter.FieldFromColumn: a Utf8 column is modelled as an operand holding its strings. The source wraps the string array's second Arrow buffer (the offsets) as `std::string` elements, which works only for primitive arrays, and `getValue` copies such an element before any operator runs. `LQuery.StringColumnPlusIntLiteral` and every comparison or addition on string columns rest on this assumption.
- LQuery.Interpreter.EvaluateValue: requires every column reference to name a mapped column (`columns[id]` out of range is undefined behaviour), and that the mapped columns have the table's row count (the kernel reads `num_rows()` rows of each operand).
- LQuery.MakeInterpreter: requires every mapping entry to name a column of the table.
- `AST.h` is not part of this model. The integer codes in "not implemented: value operator <n>" assume the declaration order Plus, Minus, Times, Divide, Negate. Predicate operators beyond Greater, Lesser and Equal are represented by `Other(code)`. A value node with no evaluator case is represented by `StringLiteral`. A unary Negate node whose second operand is absent is not modelled; every operation node has two operands.
- Exact error texts (`typeid(...).name()`) are replaced by error kinds carrying the operand types or codes.
