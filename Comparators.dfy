/**
  The row comparator of one sort pass: `compareRawValues` and `compareValues` in Sort.cpp.
  It is a strict weak order on optional values; nulls form one class whose place is decided by
  the null position alone, whatever the sort order.
*/
module Comparators {
  import opened Wrappers
  import opened Columnar

  datatype SortOrder = Ascending | Descending

  datatype NullPosition = Before | After

  /** `lhs < rhs` when ascending, `lhs > rhs` when descending. */
  predicate CompareRawValues(order: SortOrder, lhs: Value, rhs: Value)
  {
    if order == Ascending then Less(lhs, rhs) else Less(rhs, lhs)
  }

  /** The comparator on the optional values of a nullable column ("lhs sorts before rhs"). */
  predicate CompareValues(order: SortOrder, nulls: NullPosition, lhs: Cell, rhs: Cell)
  {
    match (lhs, rhs)
    case (Some(l), Some(r)) => CompareRawValues(order, l, r)
    case (None, None) => false
    case (Some(_), None) => nulls == After
    case (None, Some(_)) => nulls == Before
  }

  /** The null rules: null never precedes null, and a value's place against null is the null position's. */
  lemma NullRules(order: SortOrder, nulls: NullPosition, v: Value)
    ensures !CompareValues(order, nulls, None, None)
    ensures CompareValues(order, nulls, Some(v), None) <==> nulls == After
    ensures CompareValues(order, nulls, None, Some(v)) <==> nulls == Before
  {
  }

  /** Descending flips the comparison of two values and nothing else. */
  lemma DescendingFlipsOnlyValues(nulls: NullPosition, lhs: Cell, rhs: Cell)
    ensures lhs.Some? && rhs.Some? ==>
      CompareValues(Descending, nulls, lhs, rhs) == CompareValues(Ascending, nulls, rhs, lhs)
    ensures !(lhs.Some? && rhs.Some?) ==>
      CompareValues(Descending, nulls, lhs, rhs) == CompareValues(Ascending, nulls, lhs, rhs)
  {
  }

  /** On a column without nulls the nullable comparator is the raw one. */
  lemma NonNullableAgrees(order: SortOrder, nulls: NullPosition, lhs: Value, rhs: Value)
    ensures CompareValues(order, nulls, Some(lhs), Some(rhs)) == CompareRawValues(order, lhs, rhs)
  {
  }

  lemma {:induction false} CompareValuesIrreflexive(order: SortOrder, nulls: NullPosition, x: Cell)
    ensures !CompareValues(order, nulls, x, x)
  {
    if x.Some? {
      LessIrreflexive(x.value);
    }
  }

  lemma {:induction false} CompareValuesTransitive(order: SortOrder, nulls: NullPosition, x: Cell, y: Cell, z: Cell)
    requires CompareValues(order, nulls, x, y) && CompareValues(order, nulls, y, z)
    ensures CompareValues(order, nulls, x, z)
  {
    if x.Some? && y.Some? && z.Some? {
      if order == Ascending {
        LessTransitive(x.value, y.value, z.value);
      } else {
        LessTransitive(z.value, y.value, x.value);
      }
    }
  }

  /**
    Incomparability is transitive, stated in its usual form: whenever x sorts before z,
    every y sorts after x or before z.
  */
  lemma {:induction false} CompareValuesSplit(order: SortOrder, nulls: NullPosition, x: Cell, y: Cell, z: Cell)
    requires CompareValues(order, nulls, x, z)
    ensures CompareValues(order, nulls, x, y) || CompareValues(order, nulls, y, z)
  {
    if x.Some? && y.Some? && z.Some? {
      var a, b, c := x.value, y.value, z.value;
      if order == Ascending {
        LessTotal(a, b);
        if Less(b, a) { LessTransitive(b, a, c); }
      } else {
        LessTotal(b, c);
        if Less(b, c) { LessTransitive(b, c, a); }
      }
    }
  }
}
