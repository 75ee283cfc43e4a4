/**
  The sort permutation of Sort.cpp: start from the identity, then stable-sort the index vector
  once per key, least significant key first. The result is a permutation of the rows ordered
  lexicographically by the keys, rows that tie on every key keeping their input order.
*/
module Sort {
  import opened Wrappers
  import opened Columnar
  import opened Comparators

  /** One sort key: a column, its order and its null position. */
  datatype SortBy = SortBy(column: Column, order: SortOrder, nulls: NullPosition)

  /** A key as one sort pass sees it: the column copied into a dense vector of optional values. */
  datatype Key = Key(values: seq<Cell>, order: SortOrder, nulls: NullPosition)

  function KeyOf(s: SortBy): (k: Key)
    ensures |k.values| == Length(s.column)
  {
    Key(ColumnCells(s.column), s.order, s.nulls)
  }

  function KeysOf(sortBy: seq<SortBy>): (keys: seq<Key>)
    ensures |keys| == |sortBy|
    ensures forall i :: 0 <= i < |sortBy| ==> keys[i] == KeyOf(sortBy[i])
  {
    seq(|sortBy|, i requires 0 <= i < |sortBy| => KeyOf(sortBy[i]))
  }

  /**
    No key column is shorter than the first, so every row index below the first key's
    length is valid for every key; rows of a longer column beyond it are never read.
  */
  predicate Conformable(sortBy: seq<SortBy>)
  {
    forall i :: 0 <= i < |sortBy| ==> Length(sortBy[i].column) >= Length(sortBy[0].column)
  }

  /** Every key has at least n rows. */
  ghost predicate KeysOver(keys: seq<Key>, n: nat)
  {
    forall i :: 0 <= i < |keys| ==> |keys[i].values| >= n
  }

  /** Every element of s is a row index below n. */
  ghost predicate Bounded(s: seq<int>, n: nat)
  {
    forall i :: 0 <= i < |s| ==> 0 <= s[i] < n
  }

  function Range(n: nat): (r: seq<int>)
    ensures |r| == n && forall i :: 0 <= i < n ==> r[i] == i
  {
    seq(n, i => i)
  }

  /** p reorders the rows 0 .. n-1: every row exactly once. */
  ghost predicate IsPermutation(p: seq<int>, n: nat)
  {
    |p| == n && multiset(p) == multiset(Range(n))
  }

  // ---------------------------------------------------------------------------
  // The order a sort pass uses and the order the whole sort produces
  // ---------------------------------------------------------------------------

  /** Row a sorts before row b under one key (the lambda given to `std::stable_sort`). */
  predicate IndexLess(k: Key, a: int, b: int): (r: bool)
    ensures r ==> 0 <= a < |k.values| && 0 <= b < |k.values| && a != b
    ensures r ==> !CompareValues(k.order, k.nulls, k.values[b], k.values[a])
  {
    && 0 <= a < |k.values| && 0 <= b < |k.values|
    && (CompareValuesIrreflexive(k.order, k.nulls, k.values[a]);
        CompareValues(k.order, k.nulls, k.values[a], k.values[b]) &&
        (AsymmetricValues(k, a, b); true))
  }

  lemma AsymmetricValues(k: Key, a: int, b: int)
    requires 0 <= a < |k.values| && 0 <= b < |k.values| && CompareValues(k.order, k.nulls, k.values[a], k.values[b])
    ensures !CompareValues(k.order, k.nulls, k.values[b], k.values[a])
  {
    if CompareValues(k.order, k.nulls, k.values[b], k.values[a]) {
      CompareValuesTransitive(k.order, k.nulls, k.values[a], k.values[b], k.values[a]);
      CompareValuesIrreflexive(k.order, k.nulls, k.values[a]);
    }
  }

  /**
    The lexicographic order on rows: by the first key, ties by the next key, and so on;
    rows that tie on every key compare by row index, that is by input order.
  */
  predicate RowLess(keys: seq<Key>, a: int, b: int)
  {
    if keys == [] then a < b
    else IndexLess(keys[0], a, b) || (!IndexLess(keys[0], b, a) && RowLess(keys[1..], a, b))
  }

  /** Rows a and b tie on every key. */
  predicate Tied(keys: seq<Key>, a: int, b: int)
  {
    forall i :: 0 <= i < |keys| ==> !IndexLess(keys[i], a, b) && !IndexLess(keys[i], b, a)
  }

  /** s lists rows in strictly increasing lexicographic order. */
  ghost predicate StrictlySorted(keys: seq<Key>, s: seq<int>)
  {
    forall p, q :: 0 <= p < q < |s| ==> RowLess(keys, s[p], s[q])
  }

  lemma {:induction false} RowLessIrreflexive(keys: seq<Key>, a: int)
    ensures !RowLess(keys, a, a)
  {
    if keys != [] {
      if 0 <= a < |keys[0].values| {
        CompareValuesIrreflexive(keys[0].order, keys[0].nulls, keys[0].values[a]);
      }
      RowLessIrreflexive(keys[1..], a);
    }
  }

  lemma {:induction false} RowLessTransitive(keys: seq<Key>, n: nat, a: int, b: int, c: int)
    requires KeysOver(keys, n) && 0 <= a < n && 0 <= b < n && 0 <= c < n
    requires RowLess(keys, a, b) && RowLess(keys, b, c)
    ensures RowLess(keys, a, c)
  {
    if keys != [] {
      var k := keys[0];
      var x, y, z := k.values[a], k.values[b], k.values[c];
      if IndexLess(k, a, b) {
        if IndexLess(k, b, c) {
          CompareValuesTransitive(k.order, k.nulls, x, y, z);
        } else {
          CompareValuesSplit(k.order, k.nulls, x, z, y);
        }
      } else if IndexLess(k, b, c) {
        CompareValuesSplit(k.order, k.nulls, y, x, z);
      } else {
        assert KeysOver(keys[1..], n);
        RowLessTransitive(keys[1..], n, a, b, c);
        if IndexLess(k, c, a) {
          CompareValuesSplit(k.order, k.nulls, z, y, x);
        }
      }
    }
  }

  /** In a lexicographically sorted list, no later row sorts before an earlier one on the first key. */
  lemma SortedByFirstKey(keys: seq<Key>, s: seq<int>, p: int, q: int)
    requires |keys| > 0 && StrictlySorted(keys, s) && 0 <= p < q < |s|
    ensures !IndexLess(keys[0], s[q], s[p])
  {
    assert RowLess(keys, s[p], s[q]);
  }

  /**
    The lexicographic meaning of RowLess: when two rows tie on the first m keys, key m decides,
    and when they tie on all keys, input order decides.
  */
  lemma {:induction false} RowLessTiedPrefix(keys: seq<Key>, m: nat, a: int, b: int)
    requires m <= |keys| && RowLess(keys, a, b) && Tied(keys[..m], a, b)
    ensures m < |keys| ==> !IndexLess(keys[m], b, a)
    ensures m == |keys| ==> a < b
  {
    if m > 0 {
      assert !IndexLess(keys[0], a, b) && !IndexLess(keys[0], b, a) by {
        assert keys[..m][0] == keys[0];
      }
      var rest := keys[1..];
      var tied := rest[..m - 1];
      assert Tied(tied, a, b) by {
        forall i | 0 <= i < m - 1
          ensures !IndexLess(tied[i], a, b) && !IndexLess(tied[i], b, a)
        {
          assert tied[i] == keys[..m][i + 1];
        }
      }
      RowLessTiedPrefix(rest, m - 1, a, b);
    }
  }

  /** Stability: rows that tie on every key stay in input order. */
  lemma StrictlySortedTiesKeepOrder(keys: seq<Key>, s: seq<int>, p: int, q: int)
    requires StrictlySorted(keys, s) && 0 <= p < q < |s| && Tied(keys, s[p], s[q])
    ensures s[p] < s[q]
  {
    assert keys[..|keys|] == keys;
    RowLessTiedPrefix(keys, |keys|, s[p], s[q]);
  }

  // ---------------------------------------------------------------------------
  // A stable sort of the index vector by one key, as a function and in place
  // ---------------------------------------------------------------------------

  /** t with x inserted after every element that x does not sort before. */
  function Inserted(k: Key, t: seq<int>, x: int): (r: seq<int>)
    ensures |r| == |t| + 1
  {
    if t == [] then [x]
    else if IndexLess(k, x, t[|t| - 1]) then
      Inserted(k, t[..|t| - 1], x) + [t[|t| - 1]]
    else t + [x]
  }

  /** The stable insertion sort of s by key k. */
  function StableSorted(k: Key, s: seq<int>): (r: seq<int>)
    ensures |r| == |s|
  {
    if s == [] then []
    else Inserted(k, StableSorted(k, s[..|s| - 1]), s[|s| - 1])
  }

  lemma {:induction false} InsertedPermutes(k: Key, t: seq<int>, x: int)
    ensures multiset(Inserted(k, t, x)) == multiset(t) + multiset{x}
    decreases |t|
  {
    if t != [] && IndexLess(k, x, t[|t| - 1]) {
      InsertedPermutes(k, t[..|t| - 1], x);
      assert t == t[..|t| - 1] + [t[|t| - 1]];
    }
  }

  /** The stable sort only reorders: the rows it returns are its input's. */
  lemma {:induction false} StableSortedPermutes(k: Key, s: seq<int>)
    ensures multiset(StableSorted(k, s)) == multiset(s)
  {
    if s != [] {
      StableSortedPermutes(k, s[..|s| - 1]);
      InsertedPermutes(k, StableSorted(k, s[..|s| - 1]), s[|s| - 1]);
      assert s == s[..|s| - 1] + [s[|s| - 1]];
    }
  }

  lemma MultisetBounded(s: seq<int>, t: seq<int>, n: nat)
    requires multiset(s) == multiset(t) && Bounded(s, n)
    ensures Bounded(t, n)
  {
    forall i | 0 <= i < |t| ensures 0 <= t[i] < n {
      assert t[i] in multiset(t);
      var j :| 0 <= j < |s| && s[j] == t[i];
    }
  }

  /**
    Inserting x into a list sorted by (k, then rest) keeps it sorted, provided x comes after
    every element of the list under rest alone.
  */
  lemma {:induction false} InsertedSorted(k: Key, rest: seq<Key>, n: nat, t: seq<int>, x: int)
    requires KeysOver([k] + rest, n) && Bounded(t, n) && 0 <= x < n
    requires StrictlySorted([k] + rest, t)
    requires forall y :: y in t ==> RowLess(rest, y, x)
    ensures StrictlySorted([k] + rest, Inserted(k, t, x))
    decreases |t|
  {
    var keys := [k] + rest;
    assert keys[0] == k && keys[1..] == rest;
    if t != [] {
      var front, last := t[..|t| - 1], t[|t| - 1];
      if IndexLess(k, x, last) {
        InsertedSorted(k, rest, n, front, x);
        var u := Inserted(k, front, x);
        InsertedPermutes(k, front, x);
        assert Inserted(k, t, x) == u + [last];
        forall i | 0 <= i < |u| ensures RowLess(keys, u[i], last) {
          assert u[i] in multiset(u);
          if u[i] != x {
            var j :| 0 <= j < |front| && front[j] == u[i];
            assert RowLess(keys, t[j], t[|t| - 1]);
          }
        }
      } else {
        assert RowLess(keys, last, x);
        forall i | 0 <= i < |t| ensures RowLess(keys, t[i], x) {
          if i < |t| - 1 {
            RowLessTransitive(keys, n, t[i], last, x);
          }
        }
      }
    }
  }

  /**
    The composition step: a stable sort by k of a list already sorted by rest yields the list
    sorted by k first and rest after.
  */
  lemma {:induction false} StableSortedRefines(k: Key, rest: seq<Key>, n: nat, s: seq<int>)
    requires KeysOver([k] + rest, n) && Bounded(s, n)
    requires StrictlySorted(rest, s)
    ensures StrictlySorted([k] + rest, StableSorted(k, s))
  {
    if s != [] {
      var front, x := s[..|s| - 1], s[|s| - 1];
      StableSortedRefines(k, rest, n, front);
      var t := StableSorted(k, front);
      StableSortedPermutes(k, front);
      MultisetBounded(front, t, n);
      forall y | y in t ensures RowLess(rest, y, x) {
        assert y in multiset(t);
        var j :| 0 <= j < |front| && front[j] == y;
        assert RowLess(rest, s[j], s[|s| - 1]);
      }
      InsertedSorted(k, rest, n, t, x);
    }
  }

  /** Inserted places x at the position where everything after it is an element x sorts before. */
  lemma {:induction false} InsertedAt(k: Key, t: seq<int>, x: int, j: nat)
    requires j <= |t| && (j == 0 || !IndexLess(k, x, t[j - 1]))
    requires forall m :: j <= m < |t| ==> IndexLess(k, x, t[m])
    ensures Inserted(k, t, x) == t[..j] + [x] + t[j..]
    decreases |t|
  {
    if j < |t| {
      var front, last := t[..|t| - 1], t[|t| - 1];
      assert IndexLess(k, x, last);
      assert Inserted(k, t, x) == Inserted(k, front, x) + [last];
      assert forall m :: j <= m < |front| ==> front[m] == t[m];
      InsertedAt(k, front, x, j);
      assert front[..j] == t[..j] && t[j..] == front[j..] + [last];
    } else {
      assert t[..j] == t && t[j..] == [];
    }
  }

  /**
    One step of the insertion sort: the sorted prefix indices[..i] receives indices[i], which
    moves left past every element it sorts before.
  */
  method InsertAt(indices: array<int>, i: int, k: Key)
    requires 0 <= i < indices.Length
    modifies indices
    ensures indices[..i + 1] == Inserted(k, old(indices[..i]), old(indices[i]))
    ensures indices[i + 1..] == old(indices[i + 1..])
  {
    var x := indices[i];
    ghost var sorted := indices[..i];
    var j := i;
    while j > 0 && IndexLess(k, x, indices[j - 1])
      invariant 0 <= j <= i
      invariant forall m :: 0 <= m < j ==> indices[m] == sorted[m]
      invariant forall m :: j < m <= i ==> indices[m] == sorted[m - 1]
      invariant forall m :: i < m < indices.Length ==> indices[m] == old(indices[m])
      invariant forall m :: j <= m < i ==> IndexLess(k, x, sorted[m])
    {
      indices[j] := indices[j - 1];
      j := j - 1;
    }
    indices[j] := x;
    ghost var expected := sorted[..j] + [x] + sorted[j..];
    forall m | 0 <= m <= i
      ensures indices[m] == expected[m]
    {
      if m < j {
        assert expected[m] == sorted[m];
      } else if m > j {
        assert expected[m] == sorted[m - 1];
      }
    }
    assert indices[..i + 1] == expected;
    assert indices[i + 1..] == old(indices[i + 1..]);
    InsertedAt(k, sorted, x, j);
  }

  /** A stable in-place insertion sort of the index vector, comparing rows through the key. */
  method StableSort(indices: array<int>, k: Key)
    modifies indices
    ensures indices[..] == StableSorted(k, old(indices[..]))
  {
    ghost var input := indices[..];
    var i := 0;
    while i < indices.Length
      invariant 0 <= i <= indices.Length
      invariant indices[..i] == StableSorted(k, input[..i])
      invariant indices[i..] == input[i..]
    {
      InsertAt(indices, i, k);
      assert input[..i + 1][..i] == input[..i];
      i := i + 1;
    }
    assert indices[..] == indices[..indices.Length];
    assert input == input[..indices.Length];
  }

  // ---------------------------------------------------------------------------
  // sortPermutation
  // ---------------------------------------------------------------------------

  /** One pass: stable-sort the index vector by one key column (the four-argument overload). */
  method SortPermutationBy(indices: array<int>, sortBy: SortBy)
    modifies indices
    ensures indices[..] == StableSorted(KeyOf(sortBy), old(indices[..]))
  {
    var valuesAsVector := ColumnCells(sortBy.column);
    StableSort(indices, Key(valuesAsVector, sortBy.order, sortBy.nulls));
  }

  /** One pass keeps the index vector a permutation and extends its order by one more significant key. */
  lemma PassRefines(keys: seq<Key>, j: nat, n: nat, before: seq<int>)
    requires j < |keys| && KeysOver(keys, n)
    requires IsPermutation(before, n) && StrictlySorted(keys[j + 1..], before)
    ensures IsPermutation(StableSorted(keys[j], before), n)
    ensures StrictlySorted(keys[j..], StableSorted(keys[j], before))
  {
    assert keys[j..] == [keys[j]] + keys[j + 1..];
    assert KeysOver([keys[j]] + keys[j + 1..], n);
    MultisetBounded(Range(n), before, n);
    StableSortedRefines(keys[j], keys[j + 1..], n, before);
    StableSortedPermutes(keys[j], before);
  }

  /** What a lexicographically sorted list promises: the first key is in order, and ties keep input order. */
  lemma LexicographicOrder(keys: seq<Key>, s: seq<int>)
    requires |keys| > 0 && StrictlySorted(keys, s)
    ensures forall p, q :: 0 <= p < q < |s| ==> !IndexLess(keys[0], s[q], s[p])
    ensures forall p, q :: 0 <= p < q < |s| && Tied(keys, s[p], s[q]) ==> s[p] < s[q]
  {
    forall p, q | 0 <= p < q < |s| ensures !IndexLess(keys[0], s[q], s[p]) {
      SortedByFirstKey(keys, s, p, q);
    }
    forall p, q | 0 <= p < q < |s| && Tied(keys, s[p], s[q]) ensures s[p] < s[q] {
      StrictlySortedTiesKeepOrder(keys, s, p, q);
    }
  }

  /** The multi-key sort permutation. An empty key list is an error. */
  method SortPermutation(sortBy: seq<SortBy>) returns (r: Result<seq<int>, Error>)
    requires Conformable(sortBy)
    ensures r.Err? <==> |sortBy| == 0
    ensures r.Err? ==> r.error == NoColumnToSortBy
    ensures r.Ok? ==> IsPermutation(r.value, Length(sortBy[0].column))
    ensures r.Ok? ==> StrictlySorted(KeysOf(sortBy), r.value)
    ensures r.Ok? ==> forall p, q :: 0 <= p < q < |r.value| ==> !IndexLess(KeyOf(sortBy[0]), r.value[q], r.value[p])
    ensures r.Ok? ==> forall p, q :: 0 <= p < q < |r.value| && Tied(KeysOf(sortBy), r.value[p], r.value[q]) ==>
                        r.value[p] < r.value[q]
  {
    if |sortBy| == 0 {
      return Err(NoColumnToSortBy);
    }
    var n := Length(sortBy[0].column);
    var indices := new int[n](i => i);
    ghost var keys := KeysOf(sortBy);
    forall i | 0 <= i < |keys|
      ensures |keys[i].values| >= n
    {
      assert keys[i] == KeyOf(sortBy[i]);
      assert Length(sortBy[i].column) >= n;
    }
    assert indices[..] == Range(n);
    // The keys are visited from the last to the first (`std::reverse`, then a forward loop).
    var j := |sortBy|;
    while j > 0
      invariant 0 <= j <= |sortBy|
      invariant IsPermutation(indices[..], n)
      invariant StrictlySorted(keys[j..], indices[..])
    {
      j := j - 1;
      ghost var before := indices[..];
      SortPermutationBy(indices, sortBy[j]);
      PassRefines(keys, j, n, before);
    }
    LexicographicOrder(keys, indices[..]);
    r := Ok(indices[..]);
  }

  // ---------------------------------------------------------------------------
  // Consequences: the result is unique, nulls form one block, a worked example
  // ---------------------------------------------------------------------------

  lemma TailSorted(keys: seq<Key>, s: seq<int>)
    requires s != [] && StrictlySorted(keys, s)
    ensures StrictlySorted(keys, s[1..])
  {
    forall p, q | 0 <= p < q < |s| - 1 ensures RowLess(keys, s[1..][p], s[1..][q]) {
      assert s[1..][p] == s[p + 1] && s[1..][q] == s[q + 1];
    }
  }

  /** The first element of a strictly sorted list is the least of its rows. */
  lemma SortedHeads(keys: seq<Key>, n: nat, s: seq<int>, t: seq<int>)
    requires KeysOver(keys, n) && Bounded(s, n) && Bounded(t, n) && s != [] && t != []
    requires multiset(s) == multiset(t)
    requires StrictlySorted(keys, s) && StrictlySorted(keys, t)
    ensures s[0] == t[0]
  {
    if s[0] != t[0] {
      assert t[0] in multiset(s);
      var i :| 0 <= i < |s| && s[i] == t[0];
      assert s[0] in multiset(t);
      var j :| 0 <= j < |t| && t[j] == s[0];
      assert RowLess(keys, s[0], s[i]) && RowLess(keys, t[0], t[j]);
      RowLessTransitive(keys, n, s[0], t[0], s[0]);
      RowLessIrreflexive(keys, s[0]);
    }
  }

  /** Two lists of the same rows, both strictly sorted by the same keys, are equal. */
  lemma {:induction false} SortedUnique(keys: seq<Key>, n: nat, s: seq<int>, t: seq<int>)
    requires KeysOver(keys, n) && Bounded(s, n)
    requires multiset(s) == multiset(t)
    requires StrictlySorted(keys, s) && StrictlySorted(keys, t)
    ensures s == t
    decreases |s|
  {
    assert |s| == |multiset(s)| == |t|;
    if s != [] {
      MultisetBounded(s, t, n);
      SortedHeads(keys, n, s, t);
      assert s == [s[0]] + s[1..] && t == [t[0]] + t[1..];
      assert multiset(s) == multiset{s[0]} + multiset(s[1..]);
      assert multiset(t) == multiset{t[0]} + multiset(t[1..]);
      assert multiset(s[1..]) == multiset(s) - multiset{s[0]} == multiset(t) - multiset{t[0]} == multiset(t[1..]);
      TailSorted(keys, s);
      TailSorted(keys, t);
      SortedUnique(keys, n, s[1..], t[1..]);
    }
  }

  /**
    Null placement under the first key: with Before no null follows a value, with After no value
    follows a null, whatever the sort order.
  */
  lemma NullBlock(keys: seq<Key>, s: seq<int>, p: int, q: int)
    requires |keys| > 0 && StrictlySorted(keys, s) && Bounded(s, |keys[0].values|) && 0 <= p < q < |s|
    ensures keys[0].nulls == Before ==> !(keys[0].values[s[p]].Some? && keys[0].values[s[q]].None?)
    ensures keys[0].nulls == After ==> !(keys[0].values[s[p]].None? && keys[0].values[s[q]].Some?)
  {
    SortedByFirstKey(keys, s, p, q);
  }

  /** Rows (A=1,B=2), (A=1,B=1), (A=0,B=5) sorted by A then B, both ascending: rows 2, 1, 0. */
  lemma MultiKeyExample(p: seq<int>)
    requires IsPermutation(p, 3)
    requires StrictlySorted(KeysOf([SortBy(IntColumn("A", [1, 1, 0]), Ascending, After),
                                    SortBy(IntColumn("B", [2, 1, 5]), Ascending, After)]), p)
    ensures p == [2, 1, 0]
  {
    var keys := KeysOf([SortBy(IntColumn("A", [1, 1, 0]), Ascending, After),
                        SortBy(IntColumn("B", [2, 1, 5]), Ascending, After)]);
    var a := IntColumn("A", [1, 1, 0]);
    var b := IntColumn("B", [2, 1, 5]);
    FlattenSingle(a.chunks[0]);
    FlattenSingle(b.chunks[0]);
    assert keys[0].values == [Some(IntValue(1)), Some(IntValue(1)), Some(IntValue(0))];
    assert keys[1].values == [Some(IntValue(2)), Some(IntValue(1)), Some(IntValue(5))];
    assert KeysOver(keys, 3);
    var expected := [2, 1, 0];
    assert StrictlySorted(keys, expected) by {
      assert RowLess(keys, 2, 1) && RowLess(keys, 2, 0);
      assert keys[1..][0] == keys[1];
      assert RowLess(keys, 1, 0);
    }
    assert multiset(expected) == multiset(Range(3)) by {
      assert Range(3) == [0, 1, 2];
    }
    MultisetBounded(Range(3), p, 3);
    SortedUnique(keys, 3, p, expected);
  }
}
