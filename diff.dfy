/**
 * What the two-tree diff walk of
 * src/com/readytalk/revori/imp/DiffIterator.java keeps true, stated on
 * values: the descent decision `compareForDescent` makes, the stack a
 * start search builds, and the entries each stack still has to report.
 *
 * The walk reports, for one interval of keys, every key of either tree in
 * ascending order with the entry each tree holds for it.  When it may skip
 * unchanged entries, it skips whole subtrees that the two trees share;
 * `skipped` collects their keys, and every one of them maps to the same
 * entry in both trees.
 */
module Diffs {
  import opened Wire
  import opened Compare
  import opened Intervals
  import opened Trees
  import opened Chains

  /** A key passes the interval's low bound. */
  predicate Passes(iv: Interval, k: int)
  {
    AboveLow(iv.low, iv.lowBoundType, k)
  }

  /** A key passes the interval's high bound. */
  predicate Under(iv: Interval, k: int)
  {
    BelowHigh(iv.high, iv.highBoundType, k)
  }

  /** A key that passes the high bound lies below one that does not. */
  lemma UnderBelow(iv: Interval, x: int, y: int)
    requires Under(iv, x) && !Under(iv, y)
    ensures x < y
  {
  }

  /** The comparison of a key with the low bound that the start search makes. */
  function LowSign(k: int, iv: Interval): int
  {
    CompareToBoundType(Item(k), iv.low, iv.lowBoundType, false)
  }

  /** The comparison of a key with the high bound that the walk makes. */
  function HighSign(k: int, iv: Interval): int
  {
    CompareToBoundType(Item(k), iv.high, iv.highBoundType, true)
  }

  /** Some key of `t` passes the low bound. */
  predicate AnyAbove(t: Tree, iv: Interval)
  {
    match t
    case Null => false
    case Node(_, left, key, _, right) => Passes(iv, key) || AnyAbove(left, iv) || AnyAbove(right, iv)
  }

  lemma {:induction false} AnyAboveKeys(t: Tree, iv: Interval)
    ensures AnyAbove(t, iv) <==> exists x :: x in Keys(t) && Passes(iv, x)
  {
    match t
    case Null =>
    case Node(_, left, key, _, right) =>
      AnyAboveKeys(left, iv);
      AnyAboveKeys(right, iv);
  }

  /** A key above one that passes the low bound passes it too. */
  lemma PassesUp(iv: Interval, x: int, y: int)
    requires Passes(iv, x) && x <= y
    ensures Passes(iv, y)
  {
  }

  /** At a node whose key fails the low bound, only the right subtree can hold a key that passes. */
  lemma SpineStep(t: Tree, iv: Interval)
    requires Ordered(t) && t.Node? && !Passes(iv, t.key)
    ensures AnyAbove(t, iv) <==> AnyAbove(t.right, iv)
  {
    AnyAboveKeys(t.left, iv);
    if AnyAbove(t.left, iv) {
      var x :| x in Keys(t.left) && Passes(iv, x);
      PassesUp(iv, x, t.key);
    }
  }

  /**
   * Which way `compareForDescent` sends the start search from `n`: left
   * (1) when the key lies strictly above the low bound and the left subtree
   * holds a key that passes it, right (-1) when the key fails the bound and
   * there is a right child, else nowhere (0).
   */
  function Descent(n: Tree, iv: Interval): int
  {
    if n.Null? then 0
    else if LowSign(n.key, iv) > 0 then (if AnyAbove(n.left, iv) then 1 else 0)
    else if LowSign(n.key, iv) < 0 then (if n.right.Node? then -1 else 0)
    else 0
  }

  /** The child the start search steps to. */
  function Toward(n: Tree, direction: int): Tree
    requires n.Node?
  {
    if direction > 0 then n.left else n.right
  }

  /**
   * The descent decision in terms of the bound: a step left only towards a
   * key that passes, a step right only away from a key that fails, and no
   * step where the node in hand is the first key that passes in its
   * subtree or where nothing to its right is left to look at.
   */
  lemma DescentMeaning(n: Tree, iv: Interval)
    requires Ordered(n)
    ensures Descent(n, iv) == 1 ==> n.Node? && n.left.Node? && Passes(iv, n.key) && AnyAbove(n.left, iv)
    ensures Descent(n, iv) == -1 ==> n.Node? && n.right.Node? && !Passes(iv, n.key)
    ensures Descent(n, iv) == 0 && n.Node? ==> (Passes(iv, n.key) && !AnyAbove(n.left, iv)) || (!Passes(iv, n.key) && n.right.Null?)
  {
    if n.Node? {
      KeyAgainstBounds(n.key, iv.low, iv.lowBoundType);
      if LowSign(n.key, iv) == 0 {
        assert n.key == iv.low.key;
        AnyAboveKeys(n.left, iv);
      }
    }
  }

  // ---------------------------------------------------------------------
  // Looking keys up.

  /** The entry a search tree holds for `k`. */
  function Lookup(t: Tree, k: int): Option<Entry>
  {
    var n := Search(t, k);
    if n.Node? then Some(n.value) else None
  }

  /** The half of a diff pair one tree gives for `k`: its node's key and entry, or nothing. */
  function At(t: Tree, k: int): Option<(int, Entry)>
  {
    match Lookup(t, k)
    case Some(v) => Some((k, v))
    case None => None
  }

  lemma LookupElements(t: Tree, k: int)
    requires Ordered(t)
    ensures Lookup(t, k).None? <==> k !in Keys(t)
    ensures forall v :: Lookup(t, k) == Some(v) <==> (k, v) in Elements(t)
  {
    SearchFinds(t, k);
    KeysOfElements(t);
    forall v | (k, v) in Elements(t)
      ensures Lookup(t, k) == Some(v)
    {
      ElementsFunctional(t, k, v, Search(t, k).value);
    }
  }
  // ---------------------------------------------------------------------
  // The start search.

  /**
   * The stack of a start search on the tree `root`: the root, then each
   * node a child of the one before.  What the ancestors add after the node
   * in hand (`Rest`) all passes the low bound, and is only there when the
   * subtree in hand holds a key that passes; every entry of the tree that
   * passes lies in the subtree in hand or among what the ancestors add.
   */
  ghost predicate Descending(nodes: seq<Tree>, root: Tree, iv: Interval)
  {
    && nodes != [] && nodes[0] == root
    && (root.Null? ==> nodes == [root])
    && (root.Node? ==> Chain(nodes))
    && var above, top := nodes[..|nodes| - 1], nodes[|nodes| - 1];
       && (forall e :: e in Rest(above, top) ==> Passes(iv, e.0))
       && (Rest(above, top) != [] ==> AnyAbove(top, iv))
       && (forall e :: e in Elements(root) && Passes(iv, e.0) ==> e in Elements(top) || e in Rest(above, top))
  }

  /** The search starts from the root alone. */
  lemma StartDescending(root: Tree, iv: Interval)
    requires Ordered(root)
    ensures Descending([root], root, iv)
  {
    if root.Node? {
      assert Chain([root][..0]);
    }
  }

  /**
   * A step in the direction `Descent` names keeps the search's invariant,
   * and there is a slot for it: the stack is shorter than the tree is high.
   */
  lemma DescendKeeps(nodes: seq<Tree>, root: Tree, iv: Interval)
    requires Descending(nodes, root, iv) && Descent(nodes[|nodes| - 1], iv) != 0
    ensures var top := nodes[|nodes| - 1];
            && top.Node? && Toward(top, Descent(top, iv)).Node?
            && Height(Toward(top, Descent(top, iv))) < Height(top)
            && Descending(nodes + [Toward(top, Descent(top, iv))], root, iv)
            && |nodes| < Height(root)
  {
    var above, top := nodes[..|nodes| - 1], nodes[|nodes| - 1];
    var d := Descent(top, iv);
    ChainLast(nodes);
    DescentMeaning(top, iv);
    var c := Toward(top, d);
    ChainExtend(nodes, c);
    ChainDepth(nodes);
    var nodes' := nodes + [c];
    assert nodes'[..|nodes'| - 1] == nodes;
    if d > 0 {
      LeftStep(above, top, root, iv);
    } else {
      RightStep(above, top, root, iv);
    }
  }

  /** Stepping left: the node in hand and its right subtree join what the ancestors add. */
  lemma LeftStep(above: seq<Tree>, top: Tree, root: Tree, iv: Interval)
    requires top.Node? && Ordered(top) && top.left.Node? && Passes(iv, top.key) && AnyAbove(top.left, iv)
    requires forall e :: e in Rest(above, top) ==> Passes(iv, e.0)
    requires forall e :: e in Elements(root) && Passes(iv, e.0) ==> e in Elements(top) || e in Rest(above, top)
    ensures var nodes := above + [top];
            && (forall e :: e in Rest(nodes, top.left) ==> Passes(iv, e.0))
            && Rest(nodes, top.left) != [] && AnyAbove(top.left, iv)
            && (forall e :: e in Elements(root) && Passes(iv, e.0) ==> e in Elements(top.left) || e in Rest(nodes, top.left))
  {
    var nodes := above + [top];
    ChildrenDiffer(top);
    assert nodes[..|nodes| - 1] == above;
    assert Rest(nodes, top.left) == [(top.key, top.value)] + InOrder(top.right) + Rest(above, top);
    InOrderElements(top.right);
    KeysOfElements(top.right);
    forall e | e in InOrder(top.right)
      ensures Passes(iv, e.0)
    {
      assert e.0 in Keys(top.right);
      PassesUp(iv, top.key, e.0);
    }
  }

  /** Stepping right from a key that fails: nothing joins what the ancestors add. */
  lemma RightStep(above: seq<Tree>, top: Tree, root: Tree, iv: Interval)
    requires top.Node? && Ordered(top) && top.right.Node? && !Passes(iv, top.key)
    requires Rest(above, top) != [] ==> AnyAbove(top, iv)
    requires forall e :: e in Elements(root) && Passes(iv, e.0) ==> e in Elements(top) || e in Rest(above, top)
    ensures var nodes := above + [top];
            && Rest(nodes, top.right) == Rest(above, top)
            && (Rest(nodes, top.right) != [] ==> AnyAbove(top.right, iv))
            && (forall e :: e in Elements(root) && Passes(iv, e.0) ==> e in Elements(top.right) || e in Rest(nodes, top.right))
  {
    var nodes := above + [top];
    assert nodes[..|nodes| - 1] == above;
    SpineStep(top, iv);
    KeysOfElements(top.left);
    forall e | e in Elements(top) && Passes(iv, e.0)
      ensures e in Elements(top.right)
    {
      if e in Elements(top.left) {
        assert e.0 in Keys(top.left);
        PassesUp(iv, e.0, top.key);
      }
    }
  }
  // ---------------------------------------------------------------------
  // What is left to report.

  /** A key comes after the last one reported, if any. */
  predicate Beyond(last: Option<int>, k: int)
  {
    last.None? || last.value < k
  }

  /**
   * `p` holds exactly the entries of `root` that pass the low bound, come
   * after `last` and were not skipped.
   */
  ghost predicate Remaining(p: seq<(int, Entry)>, root: Tree, iv: Interval, last: Option<int>, skipped: set<int>)
  {
    forall e :: e in p <==> e in Elements(root) && Passes(iv, e.0) && Beyond(last, e.0) && e.0 !in skipped
  }

  /** Every key of `root` that passes, comes after `last` and lies below `k` was skipped. */
  ghost predicate SkippedBelow(root: Tree, iv: Interval, last: Option<int>, skipped: set<int>, k: int)
  {
    forall j :: j in Keys(root) && Passes(iv, j) && Beyond(last, j) && j < k ==> j in skipped
  }

  /** Every key of `root` in the interval that comes after `last` was skipped: nothing is left to report. */
  ghost predicate Done(root: Tree, iv: Interval, last: Option<int>, skipped: set<int>)
  {
    forall j :: j in Keys(root) && Passes(iv, j) && Under(iv, j) && Beyond(last, j) ==> j in skipped
  }

  /**
   * The state of one stack during the walk: empty, or a chain down from
   * the root, whose pending entries are what remains to report.
   */
  ghost predicate Walking(nodes: seq<Tree>, root: Tree, iv: Interval, last: Option<int>, skipped: set<int>)
  {
    && Ordered(root)
    && (nodes == [] || (Chain(nodes) && nodes[0] == root))
    && Remaining(PendingOf(nodes), root, iv, last, skipped)
  }

  /**
   * The search stopped at a node that passes: what the stack has pending is
   * everything that passes, less the left subtree when that was skipped or
   * holds nothing that passes.
   */
  lemma StartHere(nodes: seq<Tree>, root: Tree, iv: Interval, skipped: set<int>)
    requires Descending(nodes, root, iv)
    requires var top := nodes[|nodes| - 1];
             top.Node? && Passes(iv, top.key) && (skipped == Keys(top.left) || (skipped == {} && !AnyAbove(top.left, iv)))
    ensures Remaining(PendingOf(nodes), root, iv, None, skipped)
  {
    var above, top := nodes[..|nodes| - 1], nodes[|nodes| - 1];
    LastSplit(nodes);
    PendingFacts(above, top);
    ChainLast(nodes);
    assert Ordered(top);
    KeysOfElements(top.left);
    KeysOfElements(top.right);
    AnyAboveKeys(top.left, iv);
    forall e | e in PendingOf(nodes)
      ensures Passes(iv, e.0) && e.0 !in skipped
    {
      PassesUp(iv, top.key, e.0);
    }
    forall e | e in Elements(root) && Passes(iv, e.0) && e.0 !in skipped
      ensures e.0 >= top.key
    {
      if e in Elements(top.right) {
        assert e.0 in Keys(top.right);
      } else if e in Rest(above, top) {
        assert e in Pending(above, top);
      }
    }
  }

  /** The search stopped where nothing passes: nothing in the tree passes. */
  lemma StartNowhere(nodes: seq<Tree>, root: Tree, iv: Interval)
    requires Descending(nodes, root, iv)
    requires var top := nodes[|nodes| - 1];
             top.Null? || (Ordered(top) && !Passes(iv, top.key) && top.right.Null?)
    ensures Remaining([], root, iv, None, {})
  {
    var top := nodes[|nodes| - 1];
    if top.Node? {
      SpineStep(top, iv);
    }
    AnyAboveKeys(top, iv);
    KeysOfElements(top);
    forall e | e in Elements(top)
      ensures !Passes(iv, e.0)
    {
      assert (e.0, e.1) in Elements(top);
    }
  }

  /**
   * The search stopped at a shared node that fails: skipping its subtree,
   * the entries that follow it are everything that passes outside it.
   */
  lemma StartAfter(nodes: seq<Tree>, root: Tree, iv: Interval)
    requires Descending(nodes, root, iv)
    requires var top := nodes[|nodes| - 1];
             top.Node? && !Passes(iv, top.key)
    ensures Remaining(After(nodes), root, iv, None, Keys(nodes[|nodes| - 1]))
  {
    var above, top := nodes[..|nodes| - 1], nodes[|nodes| - 1];
    LastSplit(nodes);
    RestFacts(above, top);
    KeysOfElements(top);
    forall e | e in Rest(above, top)
      ensures e.0 !in Keys(top)
    {
      assert Exceeds(Keys(top), e.0);
    }
  }

  /**
   * Climbing past a node that fails the low bound and whose right child is
   * where the search would step: when the stack `after` has pending what
   * followed the node and its right subtree on `before`, it walks the tree
   * with the node's keys skipped.
   */
  lemma ClimbedPast(before: seq<Tree>, after: seq<Tree>, root: Tree, iv: Interval)
    requires before != [] && Descending(before, root, iv) && Ordered(root)
    requires Descent(before[|before| - 1], iv) < 0
    requires after != [] ==> Chain(after) && after[0] == root
    requires PendingOf(after) == After(before)
    ensures Walking(after, root, iv, None, Keys(before[|before| - 1]))
  {
    DescendingTop(before, root, iv);
    DescentMeaning(before[|before| - 1], iv);
    StartAfter(before, root, iv);
  }

  /** The node in hand of a start search is a search tree. */
  lemma DescendingTop(nodes: seq<Tree>, root: Tree, iv: Interval)
    requires Descending(nodes, root, iv) && Ordered(root)
    ensures Ordered(nodes[|nodes| - 1])
  {
    if root.Node? {
      ChainLast(nodes);
    }
  }

  /** A start search holding a node is a chain down from the root. */
  lemma DescendingChain(nodes: seq<Tree>, root: Tree, iv: Interval)
    requires Descending(nodes, root, iv) && nodes[|nodes| - 1].Node?
    ensures Chain(nodes) && nodes[0] == root
  {
  }

  /**
   * The start search stopped with nowhere to step: the final test clears
   * the stack exactly when nothing passes, and otherwise the stack holds
   * what is to be reported.
   */
  lemma FinishOne(nodes: seq<Tree>, root: Tree, iv: Interval)
    requires Descending(nodes, root, iv) && Ordered(root) && Descent(nodes[|nodes| - 1], iv) == 0
    ensures var top := nodes[|nodes| - 1];
            if top.Null? || LowSign(top.key, iv) < 0 then Walking([], root, iv, None, {})
            else Walking(nodes, root, iv, None, {})
  {
    var top := nodes[|nodes| - 1];
    DescendingTop(nodes, root, iv);
    DescentMeaning(top, iv);
    if top.Node? {
      KeyAgainstBounds(top.key, iv.low, iv.lowBoundType);
    }
    if top.Null? || LowSign(top.key, iv) < 0 {
      StartNowhere(nodes, root, iv);
    } else {
      StartHere(nodes, root, iv, {});
    }
  }

  /**
   * The start search stopped on a shared node from which it would step
   * left: that node passes, and the stack holds what is to be reported
   * once the shared left subtree counts as skipped.
   */
  lemma FinishShared(nodes: seq<Tree>, root: Tree, iv: Interval)
    requires Descending(nodes, root, iv) && Ordered(root) && Descent(nodes[|nodes| - 1], iv) == 1
    ensures var top := nodes[|nodes| - 1];
            && top.Node? && LowSign(top.key, iv) >= 0 && Keys(top.left) <= Keys(top)
            && Walking(nodes, root, iv, None, Keys(top.left))
  {
    var top := nodes[|nodes| - 1];
    DescendingTop(nodes, root, iv);
    DescentMeaning(top, iv);
    KeyAgainstBounds(top.key, iv.low, iv.lowBoundType);
    StartHere(nodes, root, iv, Keys(top.left));
  }

  /**
   * Two stacks on two trees whose nodes in hand are the same subtree:
   * each key of that subtree has the same entry in both trees.
   */
  lemma SharedSubtree(nb: seq<Tree>, nf: seq<Tree>, rootB: Tree, rootF: Tree, t: Tree)
    requires Chain(nb) && Chain(nf) && nb != [] && nf != [] && nb[0] == rootB && nf[0] == rootF
    requires nb[|nb| - 1] == t && nf[|nf| - 1] == t
    ensures forall k :: k in Keys(t) ==> Lookup(rootB, k) == Lookup(rootF, k)
  {
    assert nb == nb[..|nb| - 1] + [t] && nf == nf[..|nf| - 1] + [t];
    ChainLast(nb);
    RestFacts(nb[..|nb| - 1], t);
    RestFacts(nf[..|nf| - 1], t);
    ChainFirst(nb);
    ChainFirst(nf);
    KeysOfElements(t);
    forall k | k in Keys(t)
      ensures Lookup(rootB, k) == Lookup(rootF, k)
    {
      var v :| (k, v) in Elements(t);
      LookupElements(rootB, k);
      LookupElements(rootF, k);
    }
  }

  /** Reporting the first pending entry: the rest is what comes after its key. */
  lemma TakeFirst(p: seq<(int, Entry)>, root: Tree, iv: Interval, last: Option<int>, skipped: set<int>)
    requires Remaining(p, root, iv, last, skipped) && Ascending(p) && p != []
    ensures Beyond(last, p[0].0) && Passes(iv, p[0].0) && p[0].0 !in skipped
    ensures Remaining(p[1..], root, iv, Some(p[0].0), skipped)
  {
    assert p[0] in p;
    forall e | e in p[1..]
      ensures e.0 > p[0].0
    {
      var i :| 0 <= i < |p[1..]| && p[1..][i] == e;
      assert p[i + 1] == e;
    }
    forall e | e in p && e.0 > p[0].0
      ensures e in p[1..]
    {
      var i :| 0 <= i < |p| && p[i] == e;
      assert i != 0;
      assert p[1..][i - 1] == e;
    }
  }

  /** The other stack, whose first entry lies beyond the key reported, keeps what it has. */
  lemma Behind(q: seq<(int, Entry)>, root: Tree, iv: Interval, last: Option<int>, skipped: set<int>, k: int)
    requires Remaining(q, root, iv, last, skipped) && Ascending(q) && (q != [] ==> k < q[0].0) && Beyond(last, k)
    ensures Remaining(q, root, iv, Some(k), skipped)
  {
    if q != [] {
      FirstLeast(q);
    }
  }

  /** The first entry of an ascending sequence has the least key. */
  lemma FirstLeast(q: seq<(int, Entry)>)
    requires Ascending(q) && q != []
    ensures forall e :: e in q ==> q[0].0 <= e.0
  {
    forall e | e in q
      ensures q[0].0 <= e.0
    {
      var i :| 0 <= i < |q| && q[i] == e;
      if i != 0 {
        assert q[0].0 < q[i].0;
      }
    }
  }

  /**
   * Skipping a shared node and its right subtree: what follows them is what
   * remains once the subtree's keys count as skipped.
   */
  lemma SkipShared(nodes: seq<Tree>, root: Tree, iv: Interval, last: Option<int>, skipped: set<int>)
    requires Chain(nodes) && nodes != [] && nodes[0] == root
    requires Remaining(PendingOf(nodes), root, iv, last, skipped)
    ensures Remaining(After(nodes), root, iv, last, skipped + Keys(nodes[|nodes| - 1]))
    ensures |After(nodes)| < |PendingOf(nodes)|
  {
    var above, top := nodes[..|nodes| - 1], nodes[|nodes| - 1];
    LastSplit(nodes);
    ChainLast(nodes);
    PendingSplit(nodes);
    var here, right, after := (top.key, top.value), InOrder(top.right), After(nodes);
    assert PendingOf(nodes) == [here] + right + after;
    RestFacts(above, top);
    assert Follows(after, root, top);
    KeysOfElements(top);
    assert here.0 in Keys(top);
    forall e | e in right
      ensures e.0 in Keys(top)
    {
      InOrderElements(top.right);
      assert (e.0, e.1) in Elements(top.right);
    }
    forall e | e in after
      ensures e in PendingOf(nodes) && e.0 !in Keys(top)
    {
      assert Exceeds(Keys(top), e.0);
    }
  }

  /** A key that passes, comes after `last`, was not skipped and precedes the first pending entry is not in the tree. */
  lemma Absent(q: seq<(int, Entry)>, root: Tree, iv: Interval, last: Option<int>, skipped: set<int>, k: int)
    requires Ordered(root) && Remaining(q, root, iv, last, skipped) && Ascending(q)
    requires Passes(iv, k) && Beyond(last, k) && k !in skipped && (q != [] ==> k < q[0].0)
    ensures Lookup(root, k) == None
  {
    LookupElements(root, k);
    if q != [] {
      FirstLeast(q);
    }
  }

  /** The first pending entry is the tree's entry for its key. */
  lemma FirstFound(q: seq<(int, Entry)>, root: Tree, iv: Interval, last: Option<int>, skipped: set<int>)
    requires Ordered(root) && Remaining(q, root, iv, last, skipped) && q != []
    ensures Lookup(root, q[0].0) == Some(q[0].1)
  {
    assert q[0] in q;
    LookupElements(root, q[0].0);
  }

  /** Every key of the tree that passes, comes after `last` and precedes the first pending entry was skipped. */
  lemma Gap(q: seq<(int, Entry)>, root: Tree, iv: Interval, last: Option<int>, skipped: set<int>, k: int)
    requires Remaining(q, root, iv, last, skipped) && Ascending(q) && (q != [] ==> k <= q[0].0)
    ensures SkippedBelow(root, iv, last, skipped, k)
  {
    KeysOfElements(root);
    if q != [] {
      FirstLeast(q);
    }
    forall j | j in Keys(root) && Passes(iv, j) && j < k && Beyond(last, j)
      ensures j in skipped
    {
      var v :| (j, v) in Elements(root);
    }
  }

  /** When the first pending entry lies past the high bound, every key left in the interval was skipped. */
  lemma Exhausted(q: seq<(int, Entry)>, root: Tree, iv: Interval, last: Option<int>, skipped: set<int>)
    requires Remaining(q, root, iv, last, skipped) && Ascending(q) && (q != [] ==> !Under(iv, q[0].0))
    ensures Done(root, iv, last, skipped)
  {
    KeysOfElements(root);
    if q != [] {
      FirstLeast(q);
    }
    forall j | j in Keys(root) && Passes(iv, j) && Under(iv, j) && Beyond(last, j)
      ensures j in skipped
    {
      var v :| (j, v) in Elements(root);
    }
  }
  /** The pending entries of a walking stack ascend and begin with the node in hand. */
  lemma WalkFront(nodes: seq<Tree>, root: Tree, iv: Interval, last: Option<int>, skipped: set<int>)
    requires Walking(nodes, root, iv, last, skipped)
    ensures Ascending(PendingOf(nodes))
    ensures nodes == [] <==> PendingOf(nodes) == []
    ensures nodes != [] ==> nodes[|nodes| - 1].Node? && PendingOf(nodes)[0] == (nodes[|nodes| - 1].key, nodes[|nodes| - 1].value)
  {
    if nodes != [] {
      var above, top := nodes[..|nodes| - 1], nodes[|nodes| - 1];
      LastSplit(nodes);
      ChainLast(nodes);
      PendingFacts(above, top);
    }
  }

  /**
   * Reporting the first pending entry of one tree, whose key the other
   * tree's stack has not reached: the other tree has no entry for the key,
   * every key before it was skipped, and both stacks remain right.
   */
  lemma ReportOne(p: seq<(int, Entry)>, q: seq<(int, Entry)>, rootP: Tree, rootQ: Tree, iv: Interval, last: Option<int>, skipped: set<int>)
    requires Ordered(rootP) && Ordered(rootQ)
    requires Remaining(p, rootP, iv, last, skipped) && Ascending(p) && p != []
    requires Remaining(q, rootQ, iv, last, skipped) && Ascending(q) && (q != [] ==> p[0].0 < q[0].0)
    ensures Passes(iv, p[0].0) && Beyond(last, p[0].0) && p[0].0 !in skipped
    ensures At(rootP, p[0].0) == Some(p[0]) && At(rootQ, p[0].0) == None
    ensures SkippedBelow(rootP, iv, last, skipped, p[0].0) && SkippedBelow(rootQ, iv, last, skipped, p[0].0)
    ensures Remaining(p[1..], rootP, iv, Some(p[0].0), skipped) && Remaining(q, rootQ, iv, Some(p[0].0), skipped)
  {
    var k := p[0].0;
    TakeFirst(p, rootP, iv, last, skipped);
    FirstFound(p, rootP, iv, last, skipped);
    Absent(q, rootQ, iv, last, skipped, k);
    Gap(p, rootP, iv, last, skipped, k);
    Gap(q, rootQ, iv, last, skipped, k);
    Behind(q, rootQ, iv, last, skipped, k);
  }

  /** Reporting the first pending entries of both trees, which share their key. */
  lemma ReportBoth(p: seq<(int, Entry)>, q: seq<(int, Entry)>, rootP: Tree, rootQ: Tree, iv: Interval, last: Option<int>, skipped: set<int>)
    requires Ordered(rootP) && Ordered(rootQ)
    requires Remaining(p, rootP, iv, last, skipped) && Ascending(p) && p != []
    requires Remaining(q, rootQ, iv, last, skipped) && Ascending(q) && q != [] && p[0].0 == q[0].0
    ensures Passes(iv, p[0].0) && Beyond(last, p[0].0) && p[0].0 !in skipped
    ensures At(rootP, p[0].0) == Some(p[0]) && At(rootQ, p[0].0) == Some(q[0])
    ensures SkippedBelow(rootP, iv, last, skipped, p[0].0) && SkippedBelow(rootQ, iv, last, skipped, p[0].0)
    ensures Remaining(p[1..], rootP, iv, Some(p[0].0), skipped) && Remaining(q[1..], rootQ, iv, Some(p[0].0), skipped)
  {
    var k := p[0].0;
    TakeFirst(p, rootP, iv, last, skipped);
    TakeFirst(q, rootQ, iv, last, skipped);
    FirstFound(p, rootP, iv, last, skipped);
    FirstFound(q, rootQ, iv, last, skipped);
    Gap(p, rootP, iv, last, skipped, k);
    Gap(q, rootQ, iv, last, skipped, k);
  }

  // ---------------------------------------------------------------------
  // The start search as written.

  /** The final test of the start search: a stack whose node in hand is `Null` or fails the low bound is cleared. */
  function ClearFailing(nodes: seq<Tree>, iv: Interval): seq<Tree>
  {
    if nodes != [] && (nodes[|nodes| - 1].Null? || LowSign(nodes[|nodes| - 1].key, iv) < 0) then [] else nodes
  }

  /** A stack extended by a step of the start search. */
  function Step(nodes: seq<Tree>, direction: int): (r: seq<Tree>)
    requires nodes != [] && nodes[|nodes| - 1].Node?
    ensures |r| == |nodes| + 1 && r[..|nodes|] == nodes
    ensures Height(r[|r| - 1]) < Height(nodes[|nodes| - 1])
  {
    nodes + [Toward(nodes[|nodes| - 1], direction)]
  }

  /**
   * `findStart` as written, on the two stacks: both step towards the first
   * key that passes the low bound, the one with the smaller key first,
   * until neither can.  When the two nodes in hand are the same node and
   * unchanged entries need not be visited, the search stops there; if
   * that node fails the bound, both stacks are cleared.  Each stack only
   * grows by steps down, or ends up empty.
   */
  function StartAsWritten(b: seq<Tree>, f: seq<Tree>, iv: Interval, visitUnchanged: bool): (r: (seq<Tree>, seq<Tree>))
    requires b != [] && f != []
    ensures r.0 == [] || (|b| <= |r.0| && r.0[..|b|] == b)
    ensures r.1 == [] || (|f| <= |r.1| && r.1[..|f|] == f)
    decreases Height(b[|b| - 1]) + Height(f[|f| - 1])
  {
    var bt, ft := b[|b| - 1], f[|f| - 1];
    var bd, fd := Descent(bt, iv), Descent(ft, iv);
    if bd == 0 && fd == 0 then
      (ClearFailing(b, iv), ClearFailing(f, iv))
    else if bd == 0 then
      StartAsWritten(b, Step(f, fd), iv, visitUnchanged)
    else if fd == 0 then
      StartAsWritten(Step(b, bd), f, iv, visitUnchanged)
    else if bt == ft && !visitUnchanged then
      if bd < 0 then ([], []) else (ClearFailing(b, iv), ClearFailing(f, iv))
    else if bt.key > ft.key then
      if bd > 0 then StartAsWritten(Step(b, bd), f, iv, visitUnchanged)
      else StartAsWritten(b, Step(f, fd), iv, visitUnchanged)
    else if bt.key < ft.key then
      if fd > 0 then StartAsWritten(b, Step(f, fd), iv, visitUnchanged)
      else StartAsWritten(Step(b, bd), f, iv, visitUnchanged)
    else
      StartAsWritten(Step(b, bd), Step(f, fd), iv, visitUnchanged)
  }
  /**
   * Two trees that share the left subtree of their roots, 5 with a right
   * child 7, and differ on the right, 12 against 13; the interval starts
   * at 6.  Both searches step left into the shared subtree, whose key 5
   * fails the bound, and the search as written clears both stacks: the
   * walk then reports nothing, though key 12 is in one tree and not the
   * other.
   */
  lemma StartAsWrittenLosesAncestors()
    ensures var shared := Node(false, Null, 5, Datum(0), Node(true, Null, 7, Datum(0), Null));
            var b := Node(false, shared, 10, Datum(0), Node(false, Null, 12, Datum(0), Null));
            var f := Node(false, shared, 10, Datum(0), Node(false, Null, 13, Datum(0), Null));
            var iv := Interval(Item(6), Inclusive, Undefined, Inclusive);
            var r := StartAsWritten([b], [f], iv, false);
            && PendingOf(r.0) == [] && PendingOf(r.1) == []
            && Passes(iv, 12) && Lookup(b, 12) == Some(Datum(0)) && Lookup(f, 12) == None
  {
    var seven := Node(true, Null, 7, Datum(0), Null);
    var shared := Node(false, Null, 5, Datum(0), seven);
    var b := Node(false, shared, 10, Datum(0), Node(false, Null, 12, Datum(0), Null));
    var f := Node(false, shared, 10, Datum(0), Node(false, Null, 13, Datum(0), Null));
    var iv := Interval(Item(6), Inclusive, Undefined, Inclusive);
    KeyAgainstBounds(10, iv.low, iv.lowBoundType);
    KeyAgainstBounds(7, iv.low, iv.lowBoundType);
    KeyAgainstBounds(5, iv.low, iv.lowBoundType);
    assert AnyAbove(shared, iv);
    assert Descent(b, iv) == 1 && Descent(f, iv) == 1;
    assert Descent(shared, iv) == -1;
    assert StartAsWritten([b], [f], iv, false) == StartAsWritten([b, shared], [f, shared], iv, false);
  }
}
