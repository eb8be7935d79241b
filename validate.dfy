/**
 * The consistency check `validate` of
 * src/main/java/com/readytalk/revori/imp/Node.java: the root is black, no
 * red node has a red child, the paths down the tree pass equally many
 * black nodes, and every nested tree passes the same check.  The check
 * walks the tree in order with a stack that holds the ancestors of the
 * node in hand; here the walk is a recursion that carries the number of
 * black ancestors down.
 */
module Validation {
  import opened Trees

  /**
   * The black-node counts the check compares, as written: it counts only
   * at nodes whose two children are both `Null`, from the root down to
   * and including that node.  `above` is the number of black ancestors.
   */
  function LeafCounts(t: Tree, above: nat): set<nat>
  {
    match t
    case Null => {}
    case Node(red, left, _, _, right) =>
      var count := above + (if red then 0 else 1);
      if left.Null? && right.Null? then {count}
      else LeafCounts(left, count) + LeafCounts(right, count)
  }

  /** The colour checks of `validate` as written. */
  predicate LevelChecksAsWritten(t: Tree)
  {
    !IsRed(t) && NoRedRed(t) && |LeafCounts(t, 0)| <= 1
  }

  /** `validate` as written: the colour checks here and on every nested tree. */
  predicate ValidateAsWritten(t: Tree)
    decreases t, 1
  {
    LevelChecksAsWritten(t) && NestedValidAsWritten(t)
  }

  predicate NestedValidAsWritten(t: Tree)
    decreases t, 0
  {
    match t
    case Null => true
    case Node(_, left, _, value, right) =>
      && NestedValidAsWritten(left) && NestedValidAsWritten(right)
      && (value.Nested? ==> ValidateAsWritten(value.tree))
  }

  /**
   * The black-node counts of every path, counted at each `Null` the path
   * ends in: a node with one child ends a path too.
   */
  function PathEndCounts(t: Tree, above: nat): set<nat>
  {
    match t
    case Null => {above}
    case Node(red, left, _, _, right) =>
      var count := above + (if red then 0 else 1);
      PathEndCounts(left, count) + PathEndCounts(right, count)
  }

  /** The colour checks with every path counted. */
  predicate LevelChecks(t: Tree)
  {
    !IsRed(t) && NoRedRed(t) && |PathEndCounts(t, 0)| <= 1
  }

  /** `validate` with every path counted. */
  predicate Validate(t: Tree)
    decreases t, 1
  {
    LevelChecks(t) && NestedValid(t)
  }

  predicate NestedValid(t: Tree)
    decreases t, 0
  {
    match t
    case Null => true
    case Node(_, left, _, value, right) =>
      && NestedValid(left) && NestedValid(right)
      && (value.Nested? ==> Validate(value.tree))
  }

  /** The leftmost path ends with the black height counted. */
  lemma {:induction false} LeftmostEnd(t: Tree, above: nat)
    ensures above + BlackHeight(t) in PathEndCounts(t, above)
  {
    match t
    case Null =>
    case Node(red, left, _, _, _) =>
      LeftmostEnd(left, above + (if red then 0 else 1));
  }

  /** In a balanced tree every path ends with the black height counted. */
  lemma {:induction false} BalancedEnds(t: Tree, above: nat)
    requires Balanced(t)
    ensures PathEndCounts(t, above) == {above + BlackHeight(t)}
  {
    match t
    case Null =>
    case Node(red, left, _, _, right) =>
      var count := above + (if red then 0 else 1);
      BalancedEnds(left, count);
      BalancedEnds(right, count);
  }

  /** A tree whose paths all end with one count is balanced. */
  lemma {:induction false} EndsBalanced(t: Tree, above: nat)
    requires |PathEndCounts(t, above)| <= 1
    ensures Balanced(t)
  {
    match t
    case Null =>
    case Node(red, left, _, _, right) =>
      var count := above + (if red then 0 else 1);
      var l, r := PathEndCounts(left, count), PathEndCounts(right, count);
      LeftmostEnd(left, count);
      LeftmostEnd(right, count);
      OneOfUnion(l, r, count + BlackHeight(left), count + BlackHeight(right));
      EndsBalanced(left, count);
      EndsBalanced(right, count);
  }

  /** Two sets with a union of at most one element, holding `x` and `y`: both are `{x}`, and `x == y`. */
  lemma OneOfUnion(l: set<nat>, r: set<nat>, x: nat, y: nat)
    requires |l + r| <= 1 && x in l && y in r
    ensures x == y && |l| <= 1 && |r| <= 1
  {
    if x != y {
      assert {x, y} <= l + r;
      assert |{x, y}| == 2;
      SubsetSize({x, y}, l + r);
    }
    SubsetSize(l, l + r);
    SubsetSize(r, l + r);
  }

  lemma SubsetSize(a: set<nat>, b: set<nat>)
    requires a <= b
    ensures |a| <= |b|
  {
    assert b == a + (b - a);
  }

  /** Counting every path, the colour checks hold exactly for a balanced tree with a black root and no red-red edge. */
  lemma LevelChecksExact(t: Tree)
    ensures LevelChecks(t) <==> !IsRed(t) && NoRedRed(t) && Balanced(t)
  {
    if LevelChecks(t) {
      EndsBalanced(t, 0);
    }
    if Balanced(t) {
      BalancedEnds(t, 0);
    }
  }

  /** So every red-black tree passes the corrected colour checks. */
  lemma RedBlackPasses(t: Tree)
    requires RedBlack(t)
    ensures LevelChecks(t)
  {
    LevelChecksExact(t);
  }

  /** The counts as written are some of the path-end counts. */
  lemma {:induction false} LeafCountsWithin(t: Tree, above: nat)
    ensures LeafCounts(t, above) <= PathEndCounts(t, above)
  {
    match t
    case Null =>
    case Node(red, left, _, _, right) =>
      var count := above + (if red then 0 else 1);
      LeafCountsWithin(left, count);
      LeafCountsWithin(right, count);
  }

  /** The check as written accepts every tree the corrected one accepts. */
  lemma AsWrittenAccepts(t: Tree)
    requires LevelChecks(t)
    ensures LevelChecksAsWritten(t)
  {
    LeafCountsWithin(t, 0);
    SubsetSize(LeafCounts(t, 0), PathEndCounts(t, 0));
  }

  /** `validate` with every path counted accepts exactly the trees that are red-black in colour and height, nested trees included. */
  lemma ValidateExact(t: Tree)
    ensures Validate(t) <==> !IsRed(t) && NoRedRed(t) && Balanced(t) && NestedValid(t)
  {
    LevelChecksExact(t);
  }

  /** Whatever the corrected `validate` accepts, nested trees included, the one as written accepts too. */
  lemma {:induction false} ValidateAsWrittenAccepts(t: Tree)
    requires Validate(t)
    ensures ValidateAsWritten(t)
    decreases t, 1
  {
    AsWrittenAccepts(t);
    NestedAsWrittenAccepts(t);
  }

  lemma {:induction false} NestedAsWrittenAccepts(t: Tree)
    requires NestedValid(t)
    ensures NestedValidAsWritten(t)
    decreases t, 0
  {
    match t
    case Null =>
    case Node(_, left, _, value, right) =>
      NestedAsWrittenAccepts(left);
      NestedAsWrittenAccepts(right);
      if value.Nested? {
        ValidateAsWrittenAccepts(value.tree);
      }
  }

  /**
   * A black root whose only child is a black leaf: one path passes two
   * black nodes, the other one, yet the check as written counts only at
   * the leaf and passes the tree.
   */
  lemma AsWrittenMissesImbalance()
    ensures var t := Node(false, Node(false, Null, 1, Datum(0), Null), 2, Datum(0), Null);
            LevelChecksAsWritten(t) && !Balanced(t) && !LevelChecks(t)
  {
    var t := Node(false, Node(false, Null, 1, Datum(0), Null), 2, Datum(0), Null);
    assert LeafCounts(t, 0) == {2};
    assert PathEndCounts(t, 0) == {2, 1};
  }
}
