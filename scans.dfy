/**
 * The interval-list scans (src/com/readytalk/oss/dbms/imp/UnionScan.java,
 * IntersectionScan.java and NegationScan.java in the same directory) and
 * the `IntervalScan` leaves they combine
 * (src/com/readytalk/revori/imp/IntervalScan.java).
 *
 * A scan describes the keys an index walk must visit.  Its three flags say
 * whether it narrows the walk (`isUseful`), pins both ends (`isSpecific`)
 * or depends on a value not known yet (`isUnknown`); its evaluation is a
 * list of intervals.  The combining scans evaluate their operands first
 * and walk the lists they get; the methods below take those lists.
 */
module Scans {
  import opened Wire
  import opened Compare
  import opened Intervals

  datatype Scan =
    | IntervalScan(bounds: Interval)
    | UnknownScan
    | UnionScan(left: Scan, right: Scan)
    | IntersectionScan(left: Scan, right: Scan)
    | NegationScan(operand: Scan)

  /** The empty scan `IntervalScan.Empty`: both bounds are `Dummy`. */
  const Empty: Interval := Interval(Dummy, Inclusive, Dummy, Inclusive)

  predicate IsUseful(s: Scan)
  {
    match s
    case IntervalScan(b) => b.low != Undefined || b.high != Undefined
    case UnknownScan => false
    case UnionScan(l, r) => IsUseful(l) && IsUseful(r)
    case IntersectionScan(l, r) => IsUseful(l) || IsUseful(r)
    case NegationScan(o) => IsSpecific(s)
  }

  predicate IsSpecific(s: Scan)
  {
    match s
    case IntervalScan(b) => b.low != Undefined && b.high != Undefined
    case UnknownScan => false
    case UnionScan(l, r) => IsSpecific(l) && IsSpecific(r)
    case IntersectionScan(l, r) => IsSpecific(l) || IsSpecific(r)
    case NegationScan(o) => !(IsUnknown(o) || IsSpecific(o))
  }

  predicate IsUnknown(s: Scan)
  {
    match s
    case IntervalScan(_) => false
    case UnknownScan => true
    case UnionScan(l, r) => IsUnknown(l) || IsUnknown(r)
    case IntersectionScan(l, r) => IsUnknown(l) && IsUnknown(r)
    case NegationScan(o) => IsUnknown(o)
  }

  /** The flags are consistent: a specific scan is useful, and an unknown one is not specific. */
  lemma {:induction false} FlagsConsistent(s: Scan)
    ensures IsSpecific(s) ==> IsUseful(s)
    ensures IsUnknown(s) ==> !IsSpecific(s)
  {
    match s
    case IntervalScan(_) =>
    case UnknownScan =>
    case UnionScan(l, r) =>
      FlagsConsistent(l);
      FlagsConsistent(r);
    case IntersectionScan(l, r) =>
      FlagsConsistent(l);
      FlagsConsistent(r);
    case NegationScan(o) =>
      FlagsConsistent(o);
  }

  // ---------------------------------------------------------------------
  // The keys a list of intervals holds.

  ghost predicate InSome(ivs: seq<Interval>, x: int)
  {
    exists k :: 0 <= k < |ivs| && Contains(ivs[k], x)
  }

  lemma InSomeAppend(a: seq<Interval>, b: seq<Interval>, x: int)
    ensures InSome(a + b, x) <==> InSome(a, x) || InSome(b, x)
  {
    if InSome(a + b, x) {
      var k :| 0 <= k < |a + b| && Contains((a + b)[k], x);
      if k >= |a| {
        assert b[k - |a|] == (a + b)[k];
      }
    }
    if InSome(a, x) {
      var k :| 0 <= k < |a| && Contains(a[k], x);
      assert (a + b)[k] == a[k];
    }
    if InSome(b, x) {
      var k :| 0 <= k < |b| && Contains(b[k], x);
      assert (a + b)[|a| + k] == b[k];
    }
  }

  lemma InSomeOne(iv: Interval, x: int)
    ensures InSome([iv], x) <==> Contains(iv, x)
  {
    if Contains(iv, x) {
      assert [iv][0] == iv;
    }
  }

  lemma InSomeTwo(a: Interval, b: Interval, x: int)
    ensures InSome([a, b], x) <==> Contains(a, x) || Contains(b, x)
  {
    assert [a, b] == [a] + [b];
    InSomeAppend([a], [b], x);
    InSomeOne(a, x);
    InSomeOne(b, x);
  }

  /** Growing a prefix by one interval adds that interval's keys. */
  lemma InSomePrefix(s: seq<Interval>, n: nat, x: int)
    requires n < |s|
    ensures InSome(s[..n + 1], x) <==> InSome(s[..n], x) || Contains(s[n], x)
  {
    assert s[..n + 1] == s[..n] + [s[n]];
    InSomeAppend(s[..n], [s[n]], x);
    InSomeOne(s[n], x);
  }

  ghost predicate AllProper(ivs: seq<Interval>)
  {
    forall k :: 0 <= k < |ivs| ==> Proper(ivs[k])
  }

  lemma AllProperAppend(a: seq<Interval>, b: seq<Interval>)
    ensures AllProper(a + b) <==> AllProper(a) && AllProper(b)
  {
    if AllProper(a + b) {
      forall k | 0 <= k < |a|
        ensures Proper(a[k])
      {
        assert (a + b)[k] == a[k];
      }
      forall k | 0 <= k < |b|
        ensures Proper(b[k])
      {
        assert (a + b)[|a| + k] == b[k];
      }
    }
    if AllProper(a) && AllProper(b) {
      forall k | 0 <= k < |a + b|
        ensures Proper((a + b)[k])
      {
        if k >= |a| {
          assert (a + b)[k] == b[k - |a|];
        }
      }
    }
  }

  // ---------------------------------------------------------------------
  // `UnionScan.evaluate`.

  /** What one step of the union walk appends for the pair `l`, `r`. */
  predicate UnionPiece(l: Interval, r: Interval, added: seq<Interval>)
  {
    added == [l, r] || added == [r, l] || (added == [Union(l, r)] && -1 <= CompareIntervals(l, r) <= 1)
  }

  lemma UnionPieceKeys(l: Interval, r: Interval, added: seq<Interval>, x: int)
    requires UnionPiece(l, r, added)
    ensures Contains(l, x) || Contains(r, x) ==> InSome(added, x)
    ensures Proper(l) && Proper(r) && InSome(added, x) ==> Contains(l, x) || Contains(r, x)
  {
    InSomeTwo(l, r, x);
    InSomeTwo(r, l, x);
    InSomeOne(Union(l, r), x);
    if added == [Union(l, r)] {
      if Contains(l, x) || Contains(r, x) {
        UnionContainsOperands(l, r, x);
      }
      if Proper(l) && Proper(r) && Contains(Union(l, r), x) {
        UnionWithinOperands(l, r, x);
      }
    }
  }

  /** What one step of the union walk appends from proper intervals is proper. */
  lemma UnionPieceProper(l: Interval, r: Interval, added: seq<Interval>)
    requires UnionPiece(l, r, added) && Proper(l) && Proper(r)
    ensures AllProper(added)
  {
    if added == [Union(l, r)] {
      UnionProper(l, r);
    }
  }

  /** A step of the union walk keeps the result's keys those of the prefixes walked so far. */
  lemma UnionStepKeys(lefts: seq<Interval>, rights: seq<Interval>, i0: nat, j0: nat, i: nat, j: nat,
                      before: seq<Interval>, added: seq<Interval>, proper: bool)
    requires 1 <= i <= |lefts| && 1 <= j <= |rights| && i - 1 <= i0 <= i && j - 1 <= j0 <= j
    requires UnionPiece(lefts[i - 1], rights[j - 1], added)
    requires proper ==> AllProper(lefts) && AllProper(rights)
    requires forall x :: InSome(lefts[..i0], x) || InSome(rights[..j0], x) ==> InSome(before, x)
    requires proper ==> forall x :: InSome(before, x) ==> InSome(lefts[..i0], x) || InSome(rights[..j0], x)
    ensures forall x :: InSome(lefts[..i], x) || InSome(rights[..j], x) ==> InSome(before + added, x)
    ensures proper ==> forall x :: InSome(before + added, x) ==> InSome(lefts[..i], x) || InSome(rights[..j], x)
  {
    forall x
      ensures InSome(lefts[..i], x) || InSome(rights[..j], x) ==> InSome(before + added, x)
      ensures proper && InSome(before + added, x) ==> InSome(lefts[..i], x) || InSome(rights[..j], x)
    {
      InSomePrefix(lefts, i - 1, x);
      InSomePrefix(rights, j - 1, x);
      InSomeAppend(before, added, x);
      UnionPieceKeys(lefts[i - 1], rights[j - 1], added, x);
    }
  }

  /**
   * `UnionScan.evaluate`: walks both lists, appending pairs found apart in
   * ascending order and the union of pairs found to overlap, then the rest
   * of whichever list is longer.  Every key of either list is in the
   * result, and when the intervals are proper no other key is.
   */
  method UnionEvaluate(lefts: seq<Interval>, rights: seq<Interval>) returns (result: seq<Interval>)
    ensures forall x :: InSome(lefts, x) || InSome(rights, x) ==> InSome(result, x)
    ensures AllProper(lefts) && AllProper(rights) ==>
      forall x :: InSome(result, x) ==> InSome(lefts, x) || InSome(rights, x)
    ensures AllProper(lefts) && AllProper(rights) ==> AllProper(result)
    ensures lefts == [] ==> result == rights
    ensures rights == [] ==> result == lefts
  {
    ghost var proper := AllProper(lefts) && AllProper(rights);
    result := [];
    var i, j := 0, 0;
    var d := 0;
    var leftItem, rightItem := Unbounded, Unbounded;
    while i < |lefts| && j < |rights|
      invariant 0 <= i <= |lefts| && 0 <= j <= |rights|
      invariant i == 0 || j == 0 ==> i == 0 && j == 0 && d == 0 && result == []
      invariant i > 0 ==> leftItem == lefts[i - 1] && rightItem == rights[j - 1]
      invariant forall x :: InSome(lefts[..i], x) || InSome(rights[..j], x) ==> InSome(result, x)
      invariant proper ==> forall x :: InSome(result, x) ==> InSome(lefts[..i], x) || InSome(rights[..j], x)
      invariant proper ==> AllProper(result)
      decreases |lefts| - i + |rights| - j
    {
      ghost var i0, j0, before := i, j, result;
      if d < 0 {
        leftItem := lefts[i];
        i := i + 1;
      } else if d > 0 {
        rightItem := rights[j];
        j := j + 1;
      } else {
        leftItem := lefts[i];
        rightItem := rights[j];
        i, j := i + 1, j + 1;
      }
      d := CompareIntervals(leftItem, rightItem);
      var added;
      if d < -1 {
        added := [leftItem, rightItem];
      } else if d > 1 {
        added := [rightItem, leftItem];
      } else {
        added := [Union(leftItem, rightItem)];
      }
      result := result + added;
      if proper {
        UnionPieceProper(leftItem, rightItem, added);
        AllProperAppend(before, added);
      }
      UnionStepKeys(lefts, rights, i0, j0, i, j, before, added, proper);
    }
    result := UnionRest(lefts, rights, i, j, result, proper);
  }

  /** The end of `UnionScan.evaluate`: once one list is used up, the rest of the other is appended as it is. */
  method UnionRest(lefts: seq<Interval>, rights: seq<Interval>, i0: nat, j0: nat, start: seq<Interval>, ghost proper: bool)
    returns (result: seq<Interval>)
    requires i0 <= |lefts| && j0 <= |rights| && (i0 == |lefts| || j0 == |rights|)
    requires forall x :: InSome(lefts[..i0], x) || InSome(rights[..j0], x) ==> InSome(start, x)
    requires proper ==> forall x :: InSome(start, x) ==> InSome(lefts[..i0], x) || InSome(rights[..j0], x)
    requires rights == [] ==> start == lefts[..i0]
    requires lefts == [] ==> start == [] && j0 == 0
    requires proper ==> AllProper(start) && AllProper(lefts) && AllProper(rights)
    ensures forall x :: InSome(lefts, x) || InSome(rights, x) ==> InSome(result, x)
    ensures proper ==> forall x :: InSome(result, x) ==> InSome(lefts, x) || InSome(rights, x)
    ensures proper ==> AllProper(result)
    ensures lefts == [] ==> result == rights
    ensures rights == [] ==> result == lefts
  {
    result := AppendRest(lefts, i0, start);
    result := AppendRest(rights, j0, result);
    assert lefts == lefts[..i0] + lefts[i0..];
    assert rights == rights[..j0] + rights[j0..];
    forall x
      ensures InSome(lefts, x) || InSome(rights, x) ==> InSome(result, x)
      ensures proper && InSome(result, x) ==> InSome(lefts, x) || InSome(rights, x)
    {
      InSomeAppend(start + lefts[i0..], rights[j0..], x);
      InSomeAppend(start, lefts[i0..], x);
      InSomeAppend(lefts[..i0], lefts[i0..], x);
      InSomeAppend(rights[..j0], rights[j0..], x);
    }
    if proper {
      AllProperAppend(lefts[..i0], lefts[i0..]);
      AllProperAppend(rights[..j0], rights[j0..]);
      AllProperAppend(start, lefts[i0..]);
      AllProperAppend(start + lefts[i0..], rights[j0..]);
    }
  }

  /** One of the two closing loops: the rest of `items`, from `k` on, appended in order. */
  method AppendRest(items: seq<Interval>, k: nat, start: seq<Interval>) returns (result: seq<Interval>)
    requires k <= |items|
    ensures result == start + items[k..]
  {
    result := start;
    var i := k;
    while i < |items|
      invariant k <= i <= |items|
      invariant result == start + items[k..i]
    {
      result := result + [items[i]];
      assert items[k..i + 1] == items[k..i] + [items[i]];
      i := i + 1;
    }
  }

  /**
   * `UnionScan.evaluate` as written: the same walk, comparing with the
   * program's `Compare.compare` and uniting with its `Interval.union`.
   */
  function UnionWalkAsWritten(lefts: seq<Interval>, rights: seq<Interval>, i: nat, j: nat,
                              leftItem: Interval, rightItem: Interval, d: int): seq<Interval>
    requires i <= |lefts| && j <= |rights|
    decreases |lefts| - i + |rights| - j
  {
    if !(i < |lefts| && j < |rights|) then lefts[i..] + rights[j..]
    else
      var l := if d > 0 then leftItem else lefts[i];
      var r := if d < 0 then rightItem else rights[j];
      var i', j' := if d > 0 then i else i + 1, if d < 0 then j else j + 1;
      var d' := CompareIntervalsAsWritten(l, r);
      (if d' < -1 then [l, r] else if d' > 1 then [r, l] else [UnionAsWritten(l, r)])
      + UnionWalkAsWritten(lefts, rights, i', j', l, r, d')
  }

  function UnionAsWrittenScan(lefts: seq<Interval>, rights: seq<Interval>): (r: seq<Interval>)
    ensures lefts == [] ==> r == rights
    ensures rights == [] ==> r == lefts
  {
    UnionWalkAsWritten(lefts, rights, 0, 0, Unbounded, Unbounded, 0)
  }

  /**
   * As written, [5, 6] united with [1, 2] gives [1, 6]: the comparison
   * calls the two apart intervals overlapping, and their union covers 3,
   * a key of neither.
   */
  lemma UnionAsWrittenSpansGap()
    ensures var lefts := [Interval(Item(5), Inclusive, Item(6), Inclusive)];
      var rights := [Interval(Item(1), Inclusive, Item(2), Inclusive)];
      Sorted(lefts) && Sorted(rights) &&
      !InSome(lefts, 3) && !InSome(rights, 3) && InSome(UnionAsWrittenScan(lefts, rights), 3)
  {
    var lefts := [Interval(Item(5), Inclusive, Item(6), Inclusive)];
    var rights := [Interval(Item(1), Inclusive, Item(2), Inclusive)];
    var r := UnionAsWrittenScan(lefts, rights);
    assert r == [Interval(Item(1), Inclusive, Item(6), Inclusive)];
    InSomeOne(r[0], 3);
    InSomeOne(lefts[0], 3);
    InSomeOne(rights[0], 3);
  }

  /** As written, (1, 5] united with (2, 5] gives (1, 5), which loses 5. */
  lemma UnionAsWrittenDropsKey()
    ensures var lefts := [Interval(Item(1), Exclusive, Item(5), Inclusive)];
      var rights := [Interval(Item(2), Exclusive, Item(5), Inclusive)];
      Sorted(lefts) && Sorted(rights) &&
      InSome(lefts, 5) && InSome(rights, 5) && !InSome(UnionAsWrittenScan(lefts, rights), 5)
  {
    var lefts := [Interval(Item(1), Exclusive, Item(5), Inclusive)];
    var rights := [Interval(Item(2), Exclusive, Item(5), Inclusive)];
    var r := UnionAsWrittenScan(lefts, rights);
    assert r == [Interval(Item(1), Exclusive, Item(5), Exclusive)];
    InSomeOne(r[0], 5);
    InSomeOne(lefts[0], 5);
    InSomeOne(rights[0], 5);
  }

  // ---------------------------------------------------------------------
  // Sorted lists: what a scan over an index produces when every interval
  // is proper and lies wholly below the next.

  /** Every key of `b` lies above every key of `a`, and no key between them belongs to either. */
  predicate Apart(a: Interval, b: Interval)
  {
    var hi, lo := Place(a.high, true), Place(b.low, false);
    Below(hi, lo) || (hi == lo && !(a.highBoundType == Inclusive && b.lowBoundType == Inclusive))
  }

  ghost predicate Sorted(ivs: seq<Interval>)
  {
    AllProper(ivs) && forall p, q :: 0 <= p < q < |ivs| ==> Apart(ivs[p], ivs[q])
  }

  /** A key of the lower interval lies below the low bound of the higher one and within its high bound. */
  lemma ApartKeys(a: Interval, b: Interval, x: int)
    requires Apart(a, b) && Proper(b) && Contains(a, x)
    ensures !AboveLow(b.low, b.lowBoundType, x) && BelowHigh(b.high, b.highBoundType, x)
  {
  }

  /** Low bounds ascend along a sorted list. */
  lemma LowsAscend(a: Interval, b: Interval, x: int)
    requires Apart(a, b) && Proper(a) && !AboveLow(a.low, a.lowBoundType, x)
    ensures !AboveLow(b.low, b.lowBoundType, x)
  {
  }

  /**
   * An interval whose high end does not pass that of `r` shares no key
   * with an interval lying above `r`.
   */
  lemma BelowNext(l: Interval, r: Interval, next: Interval, y: int)
    requires CompareIntervals(l, r) <= 0 && Apart(r, next) && Contains(next, y)
    ensures !Contains(l, y)
  {
    BoundsByPlace(l.high, true, r.high, true);
  }

  lemma AboveNext(l: Interval, r: Interval, next: Interval, y: int)
    requires CompareIntervals(l, r) >= 0 && Apart(l, next) && Contains(next, y)
    ensures !Contains(r, y)
  {
    BoundsByPlace(l.high, true, r.high, true);
  }

  // ---------------------------------------------------------------------
  // `NegationScan.evaluate`.

  /** The gap before the first interval: from the missing low bound up to its low bound, flipped. */
  function Leading(first: Interval): Interval
  {
    Interval(Undefined, Inclusive, first.low, Opposite(first.lowBoundType))
  }

  /** The gap between two neighbours: both bounds flipped. */
  function Between(previous: Interval, next: Interval): Interval
  {
    Interval(previous.high, Opposite(previous.highBoundType), next.low, Opposite(next.lowBoundType))
  }

  /** The gap after the last interval, up to the missing high bound. */
  function Trailing(last: Interval): Interval
  {
    Interval(last.high, Opposite(last.highBoundType), Undefined, Inclusive)
  }

  /** The leading gap, where it is emitted, holds exactly the keys below the first low bound. */
  lemma LeadingKeys(first: Interval, x: int)
    ensures (first.low != Undefined && Contains(Leading(first), x)) <==> !AboveLow(first.low, first.lowBoundType, x)
  {
  }

  /** The keys below the low bound of `ivs[n]` and in none of `ivs[..n]` are those of the gaps so far. */
  lemma NegationStep(ivs: seq<Interval>, n: nat, x: int)
    requires Sorted(ivs) && 1 <= n < |ivs|
    ensures ((!AboveLow(ivs[n - 1].low, ivs[n - 1].lowBoundType, x) && !InSome(ivs[..n - 1], x))
             || Contains(Between(ivs[n - 1], ivs[n]), x))
      <==> (!AboveLow(ivs[n].low, ivs[n].lowBoundType, x) && !InSome(ivs[..n], x))
  {
    var p, c := ivs[n - 1], ivs[n];
    assert Apart(p, c) && Proper(p) && Proper(c);
    InSomePrefix(ivs, n - 1, x);
    if InSome(ivs[..n - 1], x) {
      var k :| 0 <= k < n - 1 && Contains(ivs[..n - 1][k], x);
      assert ivs[..n - 1][k] == ivs[k];
      ApartKeys(ivs[k], p, x);
      ApartKeys(ivs[k], c, x);
    }
    if !AboveLow(p.low, p.lowBoundType, x) {
      LowsAscend(p, c, x);
    }
  }

  /** With the trailing gap, the gaps hold exactly the keys in none of the intervals. */
  lemma NegationEnd(ivs: seq<Interval>, x: int)
    requires Sorted(ivs) && |ivs| >= 1
    ensures ((!AboveLow(ivs[|ivs| - 1].low, ivs[|ivs| - 1].lowBoundType, x) && !InSome(ivs[..|ivs| - 1], x))
             || (ivs[|ivs| - 1].high != Undefined && Contains(Trailing(ivs[|ivs| - 1]), x)))
      <==> !InSome(ivs, x)
  {
    var n := |ivs| - 1;
    var last := ivs[n];
    InSomePrefix(ivs, n, x);
    assert ivs[..n + 1] == ivs;
    if InSome(ivs[..n], x) {
      var k :| 0 <= k < n && Contains(ivs[..n][k], x);
      assert ivs[..n][k] == ivs[k];
      ApartKeys(ivs[k], last, x);
    }
  }

  /** The gaps around a single interval: below it unless its low bound is missing, above it unless its high bound is. */
  function SoleGaps(iv: Interval): seq<Interval>
  {
    (if iv.low != Undefined then [Leading(iv)] else []) + (if iv.high != Undefined then [Trailing(iv)] else [])
  }

  /** The gaps around a proper interval form a sorted list. */
  lemma SoleGapsSorted(iv: Interval)
    requires Proper(iv)
    ensures Sorted(SoleGaps(iv))
  {
    var gaps := SoleGaps(iv);
    if iv.low != Undefined && iv.high != Undefined {
      assert gaps == [Leading(iv), Trailing(iv)];
      assert Apart(Leading(iv), Trailing(iv));
    }
  }

  /**
   * `NegationScan.evaluate`: the gaps of the operand's intervals.  An empty
   * operand gives the unbounded interval; otherwise the result is the gap
   * below the first interval (unless its low bound is missing), the gap
   * between each pair of neighbours and the gap above the last (unless its
   * high bound is missing).  For a sorted operand the result holds exactly
   * the keys the operand does not.
   */
  method NegationEvaluate(operand: seq<Interval>) returns (result: seq<Interval>)
    ensures operand == [] ==> result == [Unbounded]
    ensures Sorted(operand) ==> forall x :: InSome(result, x) <==> !InSome(operand, x)
    ensures |operand| == 1 ==> result == SoleGaps(operand[0])
  {
    result := [];
    var previous: Option<Interval> := None;
    for n := 0 to |operand|
      invariant previous == if n == 0 then None else Some(operand[n - 1])
      invariant n == 0 ==> result == []
      invariant n == 1 ==> result == if operand[0].low != Undefined then [Leading(operand[0])] else []
      invariant n > 0 && Sorted(operand) ==> forall x :: InSome(result, x) <==>
        !AboveLow(operand[n - 1].low, operand[n - 1].lowBoundType, x) && !InSome(operand[..n - 1], x)
    {
      var i := operand[n];
      ghost var before := result;
      if previous == None {
        if i.low != Undefined {
          result := [Leading(i)];
        }
        forall x | Sorted(operand)
          ensures InSome(result, x) <==> !AboveLow(i.low, i.lowBoundType, x) && !InSome(operand[..0], x)
        {
          LeadingKeys(i, x);
          InSomeOne(Leading(i), x);
        }
      } else {
        result := result + [Between(previous.value, i)];
        forall x | Sorted(operand)
          ensures InSome(result, x) <==> !AboveLow(i.low, i.lowBoundType, x) && !InSome(operand[..n], x)
        {
          InSomeAppend(before, [Between(previous.value, i)], x);
          InSomeOne(Between(previous.value, i), x);
          NegationStep(operand, n, x);
        }
      }
      previous := Some(i);
    }
    if previous == None {
      result := [Unbounded];
      forall x
        ensures InSome(result, x)
      {
        InSomeOne(Unbounded, x);
      }
    } else if previous.value.high != Undefined {
      ghost var before := result;
      result := result + [Trailing(previous.value)];
      forall x | Sorted(operand)
        ensures InSome(result, x) <==> !InSome(operand, x)
      {
        InSomeAppend(before, [Trailing(previous.value)], x);
        InSomeOne(Trailing(previous.value), x);
        NegationEnd(operand, x);
      }
    } else {
      forall x | Sorted(operand)
        ensures InSome(result, x) <==> !InSome(operand, x)
      {
        NegationEnd(operand, x);
      }
    }
  }

  // ---------------------------------------------------------------------
  // `IntersectionScan.evaluate`.

  /**
   * The walk as written: the loop goes on only while both lists have an
   * interval left, even on a step that takes from one of them alone.
   */
  function IntersectionWalkAsWritten(lefts: seq<Interval>, rights: seq<Interval>, i: nat, j: nat,
                                     leftItem: Interval, rightItem: Interval, d: int): seq<Interval>
    requires i <= |lefts| && j <= |rights|
    decreases |lefts| - i + |rights| - j
  {
    if !(i < |lefts| && j < |rights|) then []
    else
      var l := if d > 0 then leftItem else lefts[i];
      var r := if d < 0 then rightItem else rights[j];
      var i', j' := if d > 0 then i else i + 1, if d < 0 then j else j + 1;
      var d' := CompareIntervalsAsWritten(l, r);
      (if -1 <= d' <= 1 then [Intersection(l, r)] else [])
      + IntersectionWalkAsWritten(lefts, rights, i', j', l, r, d')
  }

  function IntersectionAsWritten(lefts: seq<Interval>, rights: seq<Interval>): (r: seq<Interval>)
    ensures lefts == [] || rights == [] ==> r == []
  {
    IntersectionWalkAsWritten(lefts, rights, 0, 0, Unbounded, Unbounded, 0)
  }

  /**
   * As written, [0, 10] against the negation of [5, 5] keeps only [0, 5):
   * the walk stops when the left list runs out although the right list
   * still holds (5, +inf), so the key 7, in both, is lost.
   */
  lemma IntersectionAsWrittenLosesKeys()
    ensures var lefts := [Interval(Item(0), Inclusive, Item(10), Inclusive)];
      var rights := [Interval(Undefined, Inclusive, Item(5), Exclusive), Interval(Item(5), Exclusive, Undefined, Inclusive)];
      Sorted(lefts) && Sorted(rights) &&
      InSome(lefts, 7) && InSome(rights, 7) && !InSome(IntersectionAsWritten(lefts, rights), 7)
  {
    var lefts := [Interval(Item(0), Inclusive, Item(10), Inclusive)];
    var rights := [Interval(Undefined, Inclusive, Item(5), Exclusive), Interval(Item(5), Exclusive, Undefined, Inclusive)];
    var r := IntersectionAsWritten(lefts, rights);
    assert r == [Interval(Item(0), Inclusive, Item(5), Exclusive)];
    InSomeOne(r[0], 7);
    InSomeOne(lefts[0], 7);
    assert Contains(rights[1], 7);
  }

  /** The pair (a, b) is behind the walk that stands at lefts[i - 1] and rights[j - 1]. */
  predicate Done(a: int, b: int, i: int, j: int)
  {
    a < i - 1 || b < j - 1 || (a == i - 1 && b == j - 1)
  }

  /** Every key shared by a pair behind the walk is in the result. */
  ghost predicate Covered(lefts: seq<Interval>, rights: seq<Interval>, i: int, j: int, result: seq<Interval>)
  {
    forall a, b, x ::
      (0 <= a < |lefts| && 0 <= b < |rights| && Contains(lefts[a], x) && Contains(rights[b], x) && Done(a, b, i, j))
      ==> InSome(result, x)
  }

  /** The step the walk takes after a comparison `d`. */
  predicate Advance(d: int, i0: int, j0: int, i: int, j: int)
  {
    if d < 0 then i == i0 + 1 && j == j0
    else if d > 0 then i == i0 && j == j0 + 1
    else i == i0 + 1 && j == j0 + 1
  }

  /** One step of the intersection walk keeps every shared key of the pairs behind it. */
  lemma IntersectionStep(lefts: seq<Interval>, rights: seq<Interval>, i0: nat, j0: nat, d0: int,
                         i: nat, j: nat, before: seq<Interval>, added: seq<Interval>)
    requires Sorted(lefts) && Sorted(rights)
    requires 1 <= i <= |lefts| && 1 <= j <= |rights| && Advance(d0, i0, j0, i, j)
    requires i0 == 0 || j0 == 0 ==> i0 == 0 && j0 == 0 && d0 == 0
    requires i0 > 0 ==> d0 == CompareIntervals(lefts[i0 - 1], rights[j0 - 1])
    requires added == if -1 <= CompareIntervals(lefts[i - 1], rights[j - 1]) <= 1
      then [Intersection(lefts[i - 1], rights[j - 1])] else []
    requires Covered(lefts, rights, i0, j0, before)
    ensures Covered(lefts, rights, i, j, before + added)
  {
    forall a, b, x |
      0 <= a < |lefts| && 0 <= b < |rights| && Contains(lefts[a], x) && Contains(rights[b], x) && Done(a, b, i, j)
      ensures InSome(before + added, x)
    {
      InSomeAppend(before, added, x);
      if !Done(a, b, i0, j0) {
        IntersectionNewPair(lefts, rights, i0, j0, d0, i, j, a, b, x);
        InSomeOne(Intersection(lefts[a], rights[b]), x);
      }
    }
  }

  /** The only pair a step brings behind the walk that can share a key is the pair it reads. */
  lemma IntersectionNewPair(lefts: seq<Interval>, rights: seq<Interval>, i0: nat, j0: nat, d0: int,
                            i: nat, j: nat, a: int, b: int, x: int)
    requires Sorted(lefts) && Sorted(rights)
    requires 1 <= i <= |lefts| && 1 <= j <= |rights| && Advance(d0, i0, j0, i, j)
    requires i0 == 0 || j0 == 0 ==> i0 == 0 && j0 == 0 && d0 == 0
    requires i0 > 0 ==> d0 == CompareIntervals(lefts[i0 - 1], rights[j0 - 1])
    requires 0 <= a < |lefts| && 0 <= b < |rights| && Contains(lefts[a], x) && Contains(rights[b], x)
    requires Done(a, b, i, j) && !Done(a, b, i0, j0)
    ensures a == i - 1 && b == j - 1
    ensures -1 <= CompareIntervals(lefts[a], rights[b]) <= 1 && Contains(Intersection(lefts[a], rights[b]), x)
  {
    if a == i - 1 && b == j - 1 {
      ApartIntervals(lefts[a], rights[b], x, x);
      IntersectionContains(lefts[a], rights[b], x);
    } else if a == i0 - 1 {
      BelowNext(lefts[i0 - 1], rights[j0 - 1], rights[b], x);
    } else {
      AboveNext(lefts[i0 - 1], rights[j0 - 1], lefts[a], x);
    }
  }

  /** Where the walk stops, no pair ahead of it shares a key. */
  lemma IntersectionExit(lefts: seq<Interval>, rights: seq<Interval>, i: nat, j: nat, d: int, result: seq<Interval>)
    requires Sorted(lefts) && Sorted(rights)
    requires i <= |lefts| && j <= |rights|
    requires i == 0 || j == 0 ==> i == 0 && j == 0 && d == 0
    requires i > 0 ==> d == CompareIntervals(lefts[i - 1], rights[j - 1])
    requires !(if d < 0 then i < |lefts| else if d > 0 then j < |rights| else i < |lefts| && j < |rights|)
    requires Covered(lefts, rights, i, j, result)
    ensures forall x :: InSome(lefts, x) && InSome(rights, x) ==> InSome(result, x)
  {
    forall x | InSome(lefts, x) && InSome(rights, x)
      ensures InSome(result, x)
    {
      var a :| 0 <= a < |lefts| && Contains(lefts[a], x);
      var b :| 0 <= b < |rights| && Contains(rights[b], x);
      if !Done(a, b, i, j) {
        ExitApart(lefts, rights, i, j, d, a, b, x);
      }
    }
  }

  /** Where the walk stops, the pairs still ahead of it share no key. */
  lemma ExitApart(lefts: seq<Interval>, rights: seq<Interval>, i: nat, j: nat, d: int, a: int, b: int, x: int)
    requires Sorted(lefts) && Sorted(rights)
    requires i <= |lefts| && j <= |rights|
    requires i == 0 || j == 0 ==> i == 0 && j == 0 && d == 0
    requires i > 0 ==> d == CompareIntervals(lefts[i - 1], rights[j - 1])
    requires !(if d < 0 then i < |lefts| else if d > 0 then j < |rights| else i < |lefts| && j < |rights|)
    requires 0 <= a < |lefts| && 0 <= b < |rights| && !Done(a, b, i, j)
    ensures !(Contains(lefts[a], x) && Contains(rights[b], x))
  {
    if Contains(lefts[a], x) && Contains(rights[b], x) {
      if a == i - 1 {
        BelowNext(lefts[i - 1], rights[j - 1], rights[b], x);
      } else {
        AboveNext(lefts[i - 1], rights[j - 1], lefts[a], x);
      }
    }
  }

  /**
   * `IntersectionScan.evaluate`, walking on while the list the step takes
   * from still has an interval: it appends the intersection of every pair
   * found to overlap or touch.  Every key of the result lies in both
   * lists, and for sorted lists every key in both lies in the result.
   */
  method IntersectionEvaluate(lefts: seq<Interval>, rights: seq<Interval>) returns (result: seq<Interval>)
    ensures forall x :: InSome(result, x) ==> InSome(lefts, x) && InSome(rights, x)
    ensures Sorted(lefts) && Sorted(rights) ==>
      forall x :: InSome(lefts, x) && InSome(rights, x) ==> InSome(result, x)
    ensures lefts == [] || rights == [] ==> result == []
    ensures |result| <= |lefts| + |rights|
  {
    ghost var sorted := Sorted(lefts) && Sorted(rights);
    result := [];
    var i, j := 0, 0;
    var d := 0;
    var leftItem, rightItem := Unbounded, Unbounded;
    while if d < 0 then i < |lefts| else if d > 0 then j < |rights| else i < |lefts| && j < |rights|
      invariant 0 <= i <= |lefts| && 0 <= j <= |rights|
      invariant i == 0 || j == 0 ==> i == 0 && j == 0 && d == 0 && result == []
      invariant i > 0 ==> leftItem == lefts[i - 1] && rightItem == rights[j - 1] && d == CompareIntervals(leftItem, rightItem)
      invariant |result| <= i + j
      invariant forall x :: InSome(result, x) ==> InSome(lefts, x) && InSome(rights, x)
      invariant sorted ==> Covered(lefts, rights, i, j, result)
      decreases |lefts| - i + |rights| - j
    {
      ghost var i0, j0, d0, before := i, j, d, result;
      if d < 0 {
        leftItem := lefts[i];
        i := i + 1;
      } else if d > 0 {
        rightItem := rights[j];
        j := j + 1;
      } else {
        leftItem := lefts[i];
        rightItem := rights[j];
        i, j := i + 1, j + 1;
      }
      d := CompareIntervals(leftItem, rightItem);
      var added := [];
      if -1 <= d <= 1 {
        added := [Intersection(leftItem, rightItem)];
      }
      result := result + added;
      forall x | InSome(result, x)
        ensures InSome(lefts, x) && InSome(rights, x)
      {
        InSomeAppend(before, added, x);
        if InSome(added, x) {
          InSomeOne(Intersection(leftItem, rightItem), x);
          IntersectionContains(leftItem, rightItem, x);
        }
      }
      if sorted {
        IntersectionStep(lefts, rights, i0, j0, d0, i, j, before, added);
      }
    }
    if sorted {
      IntersectionExit(lefts, rights, i, j, d, result);
    }
  }

  // ---------------------------------------------------------------------
  // Evaluating a whole scan: each combining scan evaluates its operands
  // and walks the lists they give.

  /** The keys a scan stands for, its operands' keys combined as sets. */
  predicate Keys(s: Scan, x: int)
  {
    match s
    case IntervalScan(iv) => Contains(iv, x)
    case UnknownScan => true
    case UnionScan(l, r) => Keys(l, x) || Keys(r, x)
    case IntersectionScan(l, r) => Keys(l, x) && Keys(r, x)
    case NegationScan(o) => !Keys(o, x)
  }

  /** A leaf whose evaluation is one proper interval. */
  predicate ProperLeaf(s: Scan)
  {
    (s.IntervalScan? && Proper(s.bounds)) || s.UnknownScan?
  }

  /** Scans whose evaluation is a sorted list: proper leaves and their negations. */
  predicate SortedOut(s: Scan)
  {
    ProperLeaf(s) || (s.NegationScan? && ProperLeaf(s.operand))
  }

  /** Scans whose evaluation holds proper intervals only: sorted ones and unions of them. */
  predicate ProperOut(s: Scan)
  {
    match s
    case UnionScan(l, r) => ProperOut(l) && ProperOut(r)
    case _ => SortedOut(s)
  }

  /**
   * Scans whose evaluation holds exactly their `Keys`: every union takes
   * proper operands, and every intersection and negation sorted ones, as
   * the walks need.
   */
  predicate KeysExact(s: Scan)
  {
    match s
    case IntervalScan(_) => true
    case UnknownScan => true
    case UnionScan(l, r) => KeysExact(l) && KeysExact(r) && ProperOut(l) && ProperOut(r)
    case IntersectionScan(l, r) => KeysExact(l) && KeysExact(r) && SortedOut(l) && SortedOut(r)
    case NegationScan(o) => KeysExact(o) && SortedOut(o)
  }

  /**
   * `Scan.evaluate` over a whole scan: a leaf gives its interval, an
   * unknown scan everything, and a combining scan walks the lists of its
   * operands.  The list holds proper intervals, or is sorted, where the
   * shape of the scan says so, and holds exactly the scan's keys wherever
   * each walk gets the operands it needs.
   */
  method EvaluateScan(s: Scan) returns (ivs: seq<Interval>)
    ensures ProperLeaf(s) ==> |ivs| == 1 && Proper(ivs[0])
    ensures ProperOut(s) ==> AllProper(ivs)
    ensures SortedOut(s) ==> Sorted(ivs)
    ensures KeysExact(s) ==> forall x :: InSome(ivs, x) <==> Keys(s, x)
    decreases s
  {
    match s
    case IntervalScan(iv) =>
      ivs := [iv];
      forall x
        ensures InSome(ivs, x) <==> Keys(s, x)
      {
        InSomeOne(iv, x);
      }
    case UnknownScan =>
      ivs := [Unbounded];
      forall x
        ensures InSome(ivs, x)
      {
        UnboundedHoldsEverything(x);
        InSomeOne(Unbounded, x);
      }
      assert Proper(ivs[0]) by {
        UnboundedHoldsEverything(0);
      }
    case UnionScan(l, r) =>
      var lefts := EvaluateScan(l);
      var rights := EvaluateScan(r);
      ivs := UnionEvaluate(lefts, rights);
    case IntersectionScan(l, r) =>
      var lefts := EvaluateScan(l);
      var rights := EvaluateScan(r);
      ivs := IntersectionEvaluate(lefts, rights);
    case NegationScan(o) =>
      var operand := EvaluateScan(o);
      ivs := NegationEvaluate(operand);
      if ProperLeaf(o) {
        SoleGapsSorted(operand[0]);
      }
  }
}
