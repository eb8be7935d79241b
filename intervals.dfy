/**
 * Interval (src/com/readytalk/oss/dbms/imp/Interval.java) and the
 * comparison of two intervals in Compare
 * (src/main/java/com/readytalk/revori/imp/Compare.java).
 *
 * An interval is two bounds, each a value and a bound type; the keys it
 * holds are given by `Contains`, the meaning the iterators give it through
 * `CompareToBoundType` (see `Compare.KeyAgainstBounds`).
 */
module Intervals {
  import opened Compare

  datatype Interval = Interval(low: Value, lowBoundType: BoundType, high: Value, highBoundType: BoundType)

  /** `Interval.Unbounded`: both bounds missing. */
  const Unbounded: Interval := Interval(Undefined, Inclusive, Undefined, Inclusive)

  /** The keys an interval holds. */
  predicate Contains(iv: Interval, x: int)
  {
    AboveLow(iv.low, iv.lowBoundType, x) && BelowHigh(iv.high, iv.highBoundType, x)
  }

  /** An interval whose low bound does not pass its high bound. */
  predicate Proper(iv: Interval)
  {
    var lo, hi := Place(iv.low, false), Place(iv.high, true);
    Below(lo, hi) || (lo == hi && iv.lowBoundType == Inclusive && iv.highBoundType == Inclusive)
  }

  lemma UnboundedHoldsEverything(x: int)
    ensures Contains(Unbounded, x) && Proper(Unbounded)
  {
  }

  /** `intersection`: the greater low and the lesser high; a tie is exclusive if either side is. */
  function Intersection(left: Interval, right: Interval): (r: Interval)
    ensures !Below(Place(r.low, false), Place(left.low, false)) && !Below(Place(r.low, false), Place(right.low, false))
    ensures !Below(Place(left.high, true), Place(r.high, true)) && !Below(Place(right.high, true), Place(r.high, true))
  {
    BoundsByPlace(left.low, false, right.low, false);
    BoundsByPlace(left.high, true, right.high, true);
    var lowDifference := CompareBounds(left.low, false, right.low, false);
    var highDifference := CompareBounds(left.high, true, right.high, true);
    Interval(
      if lowDifference > 0 then left.low else if lowDifference < 0 then right.low else left.low,
      if lowDifference > 0 then left.lowBoundType
      else if lowDifference < 0 then right.lowBoundType
      else if left.lowBoundType == Exclusive || right.lowBoundType == Exclusive then Exclusive
      else Inclusive,
      if highDifference > 0 then right.high else if highDifference < 0 then left.high else left.high,
      if highDifference > 0 then right.highBoundType
      else if highDifference < 0 then left.highBoundType
      else if left.highBoundType == Exclusive || right.highBoundType == Exclusive then Exclusive
      else Inclusive)
  }

  /**
   * `union` with the tie at the high end decided by the high bound types:
   * the lesser low and the greater high; a tie is inclusive if either side is.
   */
  function Union(left: Interval, right: Interval): (r: Interval)
    ensures !Below(Place(left.low, false), Place(r.low, false)) && !Below(Place(right.low, false), Place(r.low, false))
    ensures !Below(Place(r.high, true), Place(left.high, true)) && !Below(Place(r.high, true), Place(right.high, true))
  {
    BoundsByPlace(left.low, false, right.low, false);
    BoundsByPlace(left.high, true, right.high, true);
    var lowDifference := CompareBounds(left.low, false, right.low, false);
    var highDifference := CompareBounds(left.high, true, right.high, true);
    Interval(
      if lowDifference > 0 then right.low else if lowDifference < 0 then left.low else left.low,
      if lowDifference > 0 then right.lowBoundType
      else if lowDifference < 0 then left.lowBoundType
      else if left.lowBoundType == Inclusive || right.lowBoundType == Inclusive then Inclusive
      else Exclusive,
      if highDifference > 0 then left.high else if highDifference < 0 then right.high else left.high,
      if highDifference > 0 then left.highBoundType
      else if highDifference < 0 then right.highBoundType
      else if left.highBoundType == Inclusive || right.highBoundType == Inclusive then Inclusive
      else Exclusive)
  }

  /** `union` as written: on a tie at the high end the bound type comes from the low bound types. */
  function UnionAsWritten(left: Interval, right: Interval): (r: Interval)
    ensures CompareBounds(left.high, true, right.high, true) != 0 ==> r == Union(left, right)
  {
    var u := Union(left, right);
    if CompareBounds(left.high, true, right.high, true) == 0 then
      u.(highBoundType := if left.lowBoundType == Inclusive || right.lowBoundType == Inclusive then Inclusive else Exclusive)
    else u
  }

  /**
   * `compare(Interval, Interval)` as written: 0 and ±1 for intervals that
   * overlap or touch, ±2 for intervals apart, the sign saying which lies
   * higher.  When the high ends differ, an inclusive low bound on either
   * side is enough for ±1.
   */
  function CompareIntervalsAsWritten(left: Interval, right: Interval): (r: int)
    ensures -2 <= r <= 2
    ensures r > 0 ==> !Below(Place(left.high, true), Place(right.high, true))
    ensures r < 0 ==> !Below(Place(right.high, true), Place(left.high, true))
    ensures r == 0 ==> Place(left.high, true) == Place(right.high, true)
    ensures r == 0 ==> (left.highBoundType == Inclusive <==> right.highBoundType == Inclusive)
  {
    BoundsByPlace(left.high, true, right.high, true);
    var leftHighRightHigh := CompareBounds(left.high, true, right.high, true);
    if leftHighRightHigh > 0 then
      var leftLowRightHigh := CompareBounds(left.low, false, right.high, true);
      if leftLowRightHigh < 0 || left.lowBoundType == Inclusive || right.lowBoundType == Inclusive then 1 else 2
    else if leftHighRightHigh < 0 then
      var rightLowLeftHigh := CompareBounds(right.low, false, left.high, true);
      if rightLowLeftHigh < 0 || right.lowBoundType == Inclusive || left.lowBoundType == Inclusive then -1 else -2
    else if left.highBoundType == Inclusive then
      if right.highBoundType == Inclusive then 0 else 1
    else if right.highBoundType == Inclusive then -1
    else 0
  }

  /**
   * `compare(Interval, Interval)` with ±1 only where the higher interval's
   * low bound lies below the lower one's high bound, or meets it where
   * either bound is inclusive.
   */
  function CompareIntervals(left: Interval, right: Interval): (r: int)
    ensures -2 <= r <= 2
    ensures r > 0 ==> !Below(Place(left.high, true), Place(right.high, true))
    ensures r < 0 ==> !Below(Place(right.high, true), Place(left.high, true))
    ensures r == 0 ==> Place(left.high, true) == Place(right.high, true)
    ensures r == 0 ==> (left.highBoundType == Inclusive <==> right.highBoundType == Inclusive)
  {
    BoundsByPlace(left.high, true, right.high, true);
    var leftHighRightHigh := CompareBounds(left.high, true, right.high, true);
    if leftHighRightHigh > 0 then
      var leftLowRightHigh := CompareBounds(left.low, false, right.high, true);
      if leftLowRightHigh < 0 || (leftLowRightHigh == 0 && (left.lowBoundType == Inclusive || right.highBoundType == Inclusive))
      then 1 else 2
    else if leftHighRightHigh < 0 then
      var rightLowLeftHigh := CompareBounds(right.low, false, left.high, true);
      if rightLowLeftHigh < 0 || (rightLowLeftHigh == 0 && (right.lowBoundType == Inclusive || left.highBoundType == Inclusive))
      then -1 else -2
    else if left.highBoundType == Inclusive then
      if right.highBoundType == Inclusive then 0 else 1
    else if right.highBoundType == Inclusive then -1
    else 0
  }

  // ---------------------------------------------------------------------
  // What the operations mean for the keys.

  /** A key lies in the intersection exactly when it lies in both intervals. */
  lemma IntersectionContains(left: Interval, right: Interval, x: int)
    ensures Contains(Intersection(left, right), x) <==> Contains(left, x) && Contains(right, x)
  {
    BoundsByPlace(left.low, false, right.low, false);
    BoundsByPlace(left.high, true, right.high, true);
  }

  /** Every key of either interval lies in their union. */
  lemma UnionContainsOperands(left: Interval, right: Interval, x: int)
    requires Contains(left, x) || Contains(right, x)
    ensures Contains(Union(left, right), x)
  {
    BoundsByPlace(left.low, false, right.low, false);
    BoundsByPlace(left.high, true, right.high, true);
  }

  /** Where two intervals are found apart, every key of the higher lies above every key of the lower. */
  lemma ApartIntervals(left: Interval, right: Interval, x: int, y: int)
    requires Contains(left, x) && Contains(right, y)
    ensures CompareIntervals(left, right) == 2 ==> y < x
    ensures CompareIntervals(left, right) == -2 ==> x < y
  {
    BoundsByPlace(left.high, true, right.high, true);
    BoundsByPlace(left.low, false, right.high, true);
    BoundsByPlace(right.low, false, left.high, true);
  }

  /**
   * Where two proper intervals are found to overlap or touch, their union
   * holds no key that neither of them holds, so merging them is exact.
   */
  lemma UnionWithinOperands(left: Interval, right: Interval, x: int)
    requires Proper(left) && Proper(right)
    requires -1 <= CompareIntervals(left, right) <= 1
    requires Contains(Union(left, right), x)
    ensures Contains(left, x) || Contains(right, x)
  {
    BoundsByPlace(left.low, false, right.low, false);
    BoundsByPlace(left.high, true, right.high, true);
    BoundsByPlace(left.low, false, right.high, true);
    BoundsByPlace(right.low, false, left.high, true);
  }

  /** The union of two proper intervals is proper. */
  lemma UnionProper(left: Interval, right: Interval)
    requires Proper(left) && Proper(right)
    ensures Proper(Union(left, right))
  {
    BoundsByPlace(left.low, false, right.low, false);
    BoundsByPlace(left.high, true, right.high, true);
  }

  // ---------------------------------------------------------------------
  // The two discrepancies of the code as written.

  /** `union` as written drops a shared inclusive high end when both low bounds are exclusive. */
  lemma UnionAsWrittenDropsHighEnd()
    ensures var left, right := Interval(Item(1), Exclusive, Item(5), Inclusive), Interval(Item(2), Exclusive, Item(5), Inclusive);
      Contains(left, 5) && Contains(right, 5) &&
      !Contains(UnionAsWritten(left, right), 5) && Contains(Union(left, right), 5)
  {
  }

  /**
   * `compare(Interval, Interval)` as written finds [5, 6] and [1, 2] to
   * overlap, so their union, which holds 3, would stand for both.
   */
  lemma CompareAsWrittenMergesApart()
    ensures var left, right := Interval(Item(5), Inclusive, Item(6), Inclusive), Interval(Item(1), Inclusive, Item(2), Inclusive);
      CompareIntervalsAsWritten(left, right) == 1 &&
      Contains(Union(left, right), 3) && !Contains(left, 3) && !Contains(right, 3) &&
      CompareIntervals(left, right) == 2
  {
  }
}
