/**
  Applying a row permutation to a column or a table (Sort.cpp): the identity is detected and
  returns the input itself; any other permutation builds a new single-chunk array whose row k
  is the input's row indices[k], nulls included. `sortTable` composes this with the sort permutation.
*/
module Permute {
  import opened Wrappers
  import opened Columnar
  import opened Sort

  /** indices[i] == i for every position: the identity permutation, the empty vector included. */
  predicate IsIdentity(indices: seq<int>)
  {
    forall i :: 0 <= i < |indices| ==> indices[i] == i
  }

  method IsPermuteId(indices: seq<int>) returns (b: bool)
    ensures b <==> IsIdentity(indices)
  {
    for i := 0 to |indices|
      invariant forall j :: 0 <= j < i ==> indices[j] == j
    {
      if indices[i] != i {
        return false;
      }
    }
    return true;
  }

  /** Every index names a row of an n-row input. */
  predicate InRange(indices: seq<int>, n: nat)
  {
    forall k :: 0 <= k < |indices| ==> 0 <= indices[k] < n
  }

  /** The rows of xs in the order that indices gives. */
  function Permuted<T>(xs: seq<T>, indices: seq<int>): (r: seq<T>)
    requires InRange(indices, |xs|)
    ensures |r| == |indices|
  {
    seq(|indices|, k requires 0 <= k < |indices| => xs[indices[k]])
  }

  /** The identity fast path is invisible: permuting by the identity gives the input back. */
  lemma IdentityPermuted<T>(xs: seq<T>, indices: seq<int>)
    requires IsIdentity(indices) && |indices| == |xs|
    ensures InRange(indices, |xs|) && Permuted(xs, indices) == xs
  {
  }

  lemma PermutedAppend<T>(xs: seq<T>, a: seq<int>, b: seq<int>)
    requires InRange(a, |xs|) && InRange(b, |xs|)
    ensures InRange(a + b, |xs|) && Permuted(xs, a + b) == Permuted(xs, a) + Permuted(xs, b)
  {
  }

  /** q without its element at position j. */
  function Without(q: seq<int>, j: nat): (r: seq<int>)
    requires j < |q|
    ensures |r| == |q| - 1 && multiset(r) == multiset(q) - multiset{q[j]}
  {
    assert q == q[..j] + [q[j]] + q[j + 1..];
    q[..j] + q[j + 1..]
  }

  /** Removing the index at position j removes exactly the row it selects. */
  lemma PermutedRemove<T>(xs: seq<T>, q: seq<int>, j: nat)
    requires InRange(q, |xs|) && j < |q|
    ensures InRange(Without(q, j), |xs|)
    ensures multiset(Permuted(xs, q)) == multiset(Permuted(xs, Without(q, j))) + multiset{xs[q[j]]}
  {
    assert q == q[..j] + [q[j]] + q[j + 1..];
    PermutedAppend(xs, q[..j], [q[j]]);
    PermutedAppend(xs, q[..j] + [q[j]], q[j + 1..]);
    PermutedAppend(xs, q[..j], q[j + 1..]);
  }

  /** Index vectors holding the same indices select the same rows, in some order. */
  lemma {:induction false} PermutedSameRows<T>(xs: seq<T>, p: seq<int>, q: seq<int>)
    requires InRange(p, |xs|) && InRange(q, |xs|) && multiset(p) == multiset(q)
    ensures multiset(Permuted(xs, p)) == multiset(Permuted(xs, q))
    decreases |p|
  {
    assert |p| == |multiset(p)| == |q|;
    if p != [] {
      assert p[0] in multiset(q);
      var j :| 0 <= j < |q| && q[j] == p[0];
      PermutedRemove(xs, p, 0);
      PermutedRemove(xs, q, j);
      PermutedSameRows(xs, Without(p, 0), Without(q, j));
    }
  }

  /** A permutation of the rows loses no row and duplicates none. */
  lemma PermutationKeepsRows<T>(xs: seq<T>, p: seq<int>)
    requires IsPermutation(p, |xs|)
    ensures InRange(p, |xs|) && multiset(Permuted(xs, p)) == multiset(xs)
  {
    MultisetBounded(Range(|xs|), p, |xs|);
    IdentityPermuted(xs, Range(|xs|));
    PermutedSameRows(xs, p, Range(|xs|));
  }

  // ---------------------------------------------------------------------------
  // Columns
  // ---------------------------------------------------------------------------

  /** The slots of a chunk all hold values of type t. */
  ghost predicate ChunkOfType(chunk: Chunk, t: DataType)
  {
    forall k :: 0 <= k < |chunk| ==> TypeOf(chunk[k].value) == t
  }

  /**
    Build a new array by appending, for each index, the input row it names, or a null when that
    row is null. A column without nulls takes the branch that appends values only.
  */
  method PermuteInnerToArray(column: Column, indices: seq<int>) returns (chunk: Chunk)
    requires InRange(indices, Length(column))
    ensures Cells(chunk) == Permuted(ColumnCells(column), indices)
    ensures WellTyped(column) ==> ChunkOfType(chunk, column.field.dataType)
  {
    ghost var cells := ColumnCells(column);
    var nullable := NullCount(ColumnCells(column)) != 0;
    NullCountZero(cells);
    var b: seq<Slot> := [];
    for k := 0 to |indices|
      invariant |b| == k
      invariant forall m :: 0 <= m < k ==> CellOf(b[m]) == cells[indices[m]]
      invariant WellTyped(column) ==> ChunkOfType(b, column.field.dataType)
    {
      var (c, offset) := Locate(column.chunks, indices[k]);
      var slot := column.chunks[c][offset];
      if nullable {
        if slot.valid {
          b := b + [Slot(slot.value, true)];
        } else {
          b := b + [Slot(DefaultValue(column.field.dataType), false)];
        }
      } else {
        b := b + [Slot(slot.value, true)];
      }
    }
    chunk := b;
  }

  /** A new column with the same field and the permuted rows as its only chunk. */
  method PermuteInnerColumn(column: Column, indices: seq<int>) returns (r: Column)
    requires InRange(indices, Length(column))
    ensures r.field == column.field && |r.chunks| == 1 && Length(r) == |indices|
    ensures ColumnCells(r) == Permuted(ColumnCells(column), indices)
    ensures WellTyped(column) ==> WellTyped(r)
  {
    var chunk := PermuteInnerToArray(column, indices);
    FlattenSingle(chunk);
    r := Column(column.field, [chunk]);
  }

  /**
    The array of a permuted column: the column's own chunk when the permutation is the identity
    and the column has a single chunk, otherwise a newly built array.
  */
  method PermuteToArray(column: Column, indices: seq<int>) returns (chunk: Chunk)
    requires (IsIdentity(indices) && |column.chunks| == 1) || InRange(indices, Length(column))
    ensures IsIdentity(indices) && |column.chunks| == 1 ==> chunk == column.chunks[0]
    ensures !(IsIdentity(indices) && |column.chunks| == 1) ==>
              Cells(chunk) == Permuted(ColumnCells(column), indices)
    ensures |indices| == Length(column) && InRange(indices, Length(column)) ==>
              Cells(chunk) == Permuted(ColumnCells(column), indices)
  {
    var id := IsPermuteId(indices);
    if id && |column.chunks| == 1 {
      FlattenSingle(column.chunks[0]);
      assert column.chunks == [column.chunks[0]];
      if |indices| == Length(column) {
        IdentityPermuted(ColumnCells(column), indices);
      }
      return column.chunks[0];
    }
    chunk := PermuteInnerToArray(column, indices);
  }

  /** The permuted column; the identity returns the input column itself. */
  method PermuteColumn(column: Column, indices: seq<int>) returns (r: Column)
    requires IsIdentity(indices) || InRange(indices, Length(column))
    ensures IsIdentity(indices) ==> r == column
    ensures !IsIdentity(indices) ==>
              r.field == column.field && |r.chunks| == 1 && ColumnCells(r) == Permuted(ColumnCells(column), indices)
    ensures |indices| == Length(column) && InRange(indices, Length(column)) ==>
              ColumnCells(r) == Permuted(ColumnCells(column), indices)
  {
    var id := IsPermuteId(indices);
    if id {
      if |indices| == Length(column) {
        IdentityPermuted(ColumnCells(column), indices);
      }
      return column;
    }
    r := PermuteInnerColumn(column, indices);
  }

  // ---------------------------------------------------------------------------
  // Tables
  // ---------------------------------------------------------------------------

  /** Every column of the table has a row for every index. */
  ghost predicate InRangeOfTable(indices: seq<int>, table: Table)
  {
    forall i :: 0 <= i < |table.columns| ==> InRange(indices, Length(table.columns[i]))
  }

  /** result is table with every column's rows reordered by indices, fields and schema kept. */
  ghost predicate PermutedBy(table: Table, result: Table, indices: seq<int>)
  {
    && result.schema == table.schema
    && |result.columns| == |table.columns|
    && forall i :: 0 <= i < |table.columns| ==>
         && result.columns[i].field == table.columns[i].field
         && InRange(indices, Length(table.columns[i]))
         && ColumnCells(result.columns[i]) == Permuted(ColumnCells(table.columns[i]), indices)
  }

  /** Permute every column independently and rebuild the table on the original schema. */
  method PermuteInnerTable(table: Table, indices: seq<int>) returns (r: Table)
    requires InRangeOfTable(indices, table)
    ensures PermutedBy(table, r, indices)
    ensures forall i :: 0 <= i < |r.columns| ==> |r.columns[i].chunks| == 1 && Length(r.columns[i]) == |indices|
    ensures Valid(table) ==> Valid(r)
  {
    var newColumns: seq<Column> := [];
    for i := 0 to |table.columns|
      invariant |newColumns| == i
      invariant forall m :: 0 <= m < i ==>
                  && newColumns[m].field == table.columns[m].field
                  && |newColumns[m].chunks| == 1 && Length(newColumns[m]) == |indices|
                  && ColumnCells(newColumns[m]) == Permuted(ColumnCells(table.columns[m]), indices)
                  && (WellTyped(table.columns[m]) ==> WellTyped(newColumns[m]))
    {
      var column := PermuteInnerColumn(table.columns[i], indices);
      newColumns := newColumns + [column];
    }
    r := Table(table.schema, newColumns);
  }

  /** The permuted table; the identity returns the input table itself. */
  method PermuteTable(table: Table, indices: seq<int>) returns (r: Table)
    requires IsIdentity(indices) || InRangeOfTable(indices, table)
    ensures IsIdentity(indices) ==> r == table
    ensures !IsIdentity(indices) ==> PermutedBy(table, r, indices)
    ensures Valid(table) && |indices| == NumRows(table) && InRangeOfTable(indices, table) ==>
              PermutedBy(table, r, indices)
    ensures Valid(table) && InRangeOfTable(indices, table) ==> Valid(r)
  {
    var id := IsPermuteId(indices);
    if id {
      if Valid(table) && |indices| == NumRows(table) {
        forall i | 0 <= i < |table.columns|
          ensures Permuted(ColumnCells(table.columns[i]), indices) == ColumnCells(table.columns[i])
        {
          IdentityPermuted(ColumnCells(table.columns[i]), indices);
        }
      }
      return table;
    }
    r := PermuteInnerTable(table, indices);
  }

  // ---------------------------------------------------------------------------
  // sortTable
  // ---------------------------------------------------------------------------

  /** p is the permutation that sorts the rows by the keys. */
  ghost predicate IsSortPermutation(sortBy: seq<SortBy>, p: seq<int>)
  {
    |sortBy| > 0 && IsPermutation(p, Length(sortBy[0].column)) && StrictlySorted(KeysOf(sortBy), p)
  }

  /**
    Sort a table by keys whose first column has at most the table's row count. When it has
    fewer rows, a non-identity sort permutation keeps only that many rows, and an identity
    one returns the whole table.
  */
  method SortTable(table: Table, sortBy: seq<SortBy>) returns (r: Result<Table, Error>)
    requires Valid(table) && Conformable(sortBy)
    requires |sortBy| > 0 ==> Length(sortBy[0].column) <= NumRows(table)
    ensures r.Err? <==> |sortBy| == 0
    ensures r.Err? ==> r.error == NoColumnToSortBy
    ensures r.Ok? ==> Valid(r.value)
    ensures r.Ok? ==> exists p :: IsSortPermutation(sortBy, p) &&
                        if IsIdentity(p) then r.value == table else PermutedBy(table, r.value, p)
    ensures r.Ok? && Length(sortBy[0].column) == NumRows(table) ==>
              exists p :: IsSortPermutation(sortBy, p) && PermutedBy(table, r.value, p)
  {
    var permutation := SortPermutation(sortBy);
    if permutation.Err? {
      return Err(permutation.error);
    }
    var p := permutation.value;
    var n := Length(sortBy[0].column);
    MultisetBounded(Range(n), p, n);
    var sorted := PermuteTable(table, p);
    assert IsSortPermutation(sortBy, p);
    r := Ok(sorted);
  }
}
