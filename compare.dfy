/**
 * Compare (src/main/java/com/readytalk/revori/imp/Compare.java): the
 * orderings the storage engine sorts keys, tables and interval bounds by.
 *
 * A key is an integer here, ordered by the column comparator `Order`.
 * `Undefined` and `Dummy` are the two sentinel objects: `Undefined` stands
 * for a missing bound (below everything as a low bound, above everything as
 * a high bound) and `Dummy` sorts below every key.  Both throw when asked to
 * compare themselves, so the comparator may only see them when the engine
 * has handled them first; `Defined` says when that is the case.
 *
 * The bound types of an interval (`Interval.BoundType` in
 * src/com/readytalk/oss/dbms/imp/Interval.java) live here because the
 * bound comparisons take them.
 */
module Compare {
  import opened Wire

  datatype Value = Undefined | Dummy | Item(key: int)

  /** `Interval.BoundType`. */
  datatype BoundType = Inclusive | Exclusive

  /** `BoundType.opposite`: the other bound type. */
  function Opposite(b: BoundType): (r: BoundType)
    ensures r != b
  {
    match b
    case Inclusive => Exclusive
    case Exclusive => Inclusive
  }

  /** The column comparator on ordinary keys; only its sign matters to the engine. */
  function Order(a: int, b: int): (r: int)
    ensures r < 0 <==> a < b
    ensures r > 0 <==> a > b
  {
    if a < b then -1 else if a > b then 1 else 0
  }

  /** The comparator is never handed a sentinel that would throw. */
  predicate Defined(left: Value, right: Value)
  {
    left == right || left == Dummy || right == Dummy || (left != Undefined && right != Undefined)
  }

  /** `compare(left, right, comparator)`: identity first, then `Dummy`, then the comparator. */
  function CompareValues(left: Value, right: Value): (r: int)
    requires Defined(left, right)
    ensures r == 0 <==> left == right
    ensures left == Dummy && right != Dummy ==> r < 0
    ensures right == Dummy && left != Dummy ==> r > 0
    ensures left.Item? && right.Item? ==> (r < 0 <==> left.key < right.key)
  {
    if left == right then 0
    else if left == Dummy then -1
    else if right == Dummy then 1
    else Order(left.key, right.key)
  }

  /** `equal(left, right, comparator)`: the comparator finds no difference. */
  function EqualByComparator(left: int, right: int): (r: bool)
    ensures r <==> left == right
  {
    Order(left, right) == 0
  }

  /**
   * `compare(left, leftHigh, right, rightHigh)`: `Undefined` is the bottom
   * of the order where it stands for a low bound and the top where it
   * stands for a high bound.
   */
  function CompareBounds(left: Value, leftHigh: bool, right: Value, rightHigh: bool): (r: int)
    ensures left == Undefined && right != Undefined ==> (r > 0 <==> leftHigh) && r != 0
    ensures right == Undefined && left != Undefined ==> (r < 0 <==> rightHigh) && r != 0
  {
    if left == Undefined then
      if right == Undefined then
        if leftHigh then (if rightHigh then 0 else 1)
        else if rightHigh then -1
        else 0
      else if leftHigh then 1
      else -1
    else if right == Undefined then
      if rightHigh then -1 else 1
    else CompareValues(left, right)
  }

  /** `compare(left, right, rightHigh)`: only the right-hand side may be a missing bound. */
  function CompareToBound(left: Value, right: Value, rightHigh: bool): (r: int)
    requires right == Undefined || Defined(left, right)
    ensures right == Undefined ==> r == (if rightHigh then -1 else 1)
    ensures r == 0 <==> left == right && right != Undefined
  {
    if right == Undefined then
      if rightHigh then -1 else 1
    else CompareValues(left, right)
  }

  /**
   * `compare(left, right, rightBoundType, rightHigh)`: a value equal to an
   * exclusive bound lies outside it, above a high bound and below a low one.
   */
  function CompareToBoundType(left: Value, right: Value, rightBoundType: BoundType, rightHigh: bool): (r: int)
    requires right == Undefined || Defined(left, right)
    ensures r == 0 ==> rightBoundType.Inclusive?
    ensures r == 0 ==> left == right
    ensures left == right && right != Undefined && rightBoundType == Exclusive ==> r == (if rightHigh then 1 else -1)
  {
    var difference := CompareToBound(left, right, rightHigh);
    if difference == 0 then
      if rightBoundType == Exclusive then
        if rightHigh then 1 else -1
      else 0
    else difference
  }

  // ---------------------------------------------------------------------
  // A reference order for bounds: every bound is a point on a line where
  // the missing low bound comes first, then `Dummy`, then the keys in
  // order, then the missing high bound.

  datatype Position = Position(tier: int, at: int)

  function Place(v: Value, high: bool): Position
  {
    match v
    case Undefined => if high then Position(3, 0) else Position(0, 0)
    case Dummy => Position(1, 0)
    case Item(k) => Position(2, k)
  }

  predicate Below(p: Position, q: Position)
  {
    p.tier < q.tier || (p.tier == q.tier && p.at < q.at)
  }

  function Sign(p: Position, q: Position): int
  {
    if Below(p, q) then -1 else if p == q then 0 else 1
  }

  /** The bound comparison is exactly the order of the places on that line. */
  lemma BoundsByPlace(left: Value, leftHigh: bool, right: Value, rightHigh: bool)
    ensures CompareBounds(left, leftHigh, right, rightHigh) == Sign(Place(left, leftHigh), Place(right, rightHigh))
  {
  }

  /** The comparison of two values is antisymmetric. */
  lemma Antisymmetric(left: Value, right: Value)
    requires Defined(left, right)
    ensures CompareValues(left, right) == -CompareValues(right, left)
  {
  }

  /** A key satisfies a low bound: it lies above it, or on it when the bound is inclusive. */
  predicate AboveLow(bound: Value, boundType: BoundType, x: int)
  {
    var p := Place(bound, false);
    Below(p, Position(2, x)) || (p == Position(2, x) && boundType == Inclusive)
  }

  /** A key satisfies a high bound. */
  predicate BelowHigh(bound: Value, boundType: BoundType, x: int)
  {
    var p := Place(bound, true);
    Below(Position(2, x), p) || (p == Position(2, x) && boundType == Inclusive)
  }

  /**
   * The test the iterators apply to a key: against a low bound it passes
   * when the comparison is not negative, against a high bound when it is
   * not positive.
   */
  lemma KeyAgainstBounds(x: int, bound: Value, boundType: BoundType)
    ensures CompareToBoundType(Item(x), bound, boundType, false) >= 0 <==> AboveLow(bound, boundType, x)
    ensures CompareToBoundType(Item(x), bound, boundType, true) <= 0 <==> BelowHigh(bound, boundType, x)
  {
  }

  // ---------------------------------------------------------------------
  // `validate` and `TableComparator`.

  datatype Checked<T> = Passed(value: T) | ClassCastException

  /** `validate(value, type)`: `null` passes, an instance passes, anything else throws. */
  function Validate<T>(value: Option<T>, isInstance: T -> bool): (r: Checked<Option<T>>)
    ensures r.Passed? <==> value.None? || isInstance(value.value)
    ensures r.Passed? ==> r.value == value
  {
    match value
    case None => Passed(None)
    case Some(v) => if isInstance(v) then Passed(value) else ClassCastException
  }

  /** A table, identified by the position `Table.compareTo` sorts it into. */
  datatype Table = Table(rank: int)

  /** The table that holds the indexes. */
  const IndexTable: Table := Table(0)

  /** `TableComparator`: the index table comes before every other table. */
  function CompareTables(a: Table, b: Table): (r: int)
    ensures r == 0 <==> a == b
    ensures a == IndexTable && b != IndexTable ==> r < 0
    ensures b == IndexTable && a != IndexTable ==> r > 0
  {
    if a == b then 0
    else if a == IndexTable then (if b == IndexTable then 0 else -1)
    else if b == IndexTable then 1
    else Order(a.rank, b.rank)
  }

  /** `TableComparator` is a total order: antisymmetric and transitive. */
  lemma TablesTotallyOrdered(a: Table, b: Table, c: Table)
    ensures CompareTables(a, b) == -CompareTables(b, a)
    ensures CompareTables(a, b) < 0 && CompareTables(b, c) < 0 ==> CompareTables(a, c) < 0
  {
  }
}
