/**
 * DiffIterator (src/com/readytalk/revori/imp/DiffIterator.java): the walk
 * over two trees, `base` and `fork`, that reports for each key of either
 * tree in a sequence of intervals the entry each tree holds for it, in
 * ascending order.  Each tree is walked with its own `NodeStack`.  When
 * unchanged entries need not be visited, a subtree the two trees share is
 * skipped whole.
 *
 * The ghost fields say where the walk stands: `last` is the key reported
 * last in the current interval, `skipped` the keys of the shared subtrees
 * passed over.  Each stack's pending entries are exactly the entries of
 * its tree that pass the interval's low bound, come after `last` and were
 * not skipped (`Walking`).
 */
module DiffIterators {
  import opened Wire
  import opened Compare
  import opened Intervals
  import opened Trees
  import opened Chains
  import opened NodeStacks
  import opened Diffs

  /**
   * `compareForDescent` against the low bound: where the first key of `n`
   * that passes lies.  A step left is only taken when the left subtree
   * holds a key that passes, which the loop finds by running down that
   * subtree's right spine past the keys that fail.
   */
  method CompareForDescent(n: Tree, iv: Interval) returns (r: int)
    requires Ordered(n)
    ensures r == Descent(n, iv)
  {
    if n == Null {
      return 0;
    }
    var difference := LowSign(n.key, iv);
    if difference > 0 {
      var m := n.left;
      if m == Null {
        return 0;
      } else if LowSign(m.key, iv) >= 0 {
        KeyAgainstBounds(m.key, iv.low, iv.lowBoundType);
        return 1;
      } else {
        while m != Null && LowSign(m.key, iv) < 0
          invariant Ordered(m)
          invariant AnyAbove(n.left, iv) <==> AnyAbove(m, iv)
          decreases m
        {
          KeyAgainstBounds(m.key, iv.low, iv.lowBoundType);
          SpineStep(m, iv);
          m := m.right;
        }
        if m == Null {
          return 0;
        } else {
          KeyAgainstBounds(m.key, iv.low, iv.lowBoundType);
          return 1;
        }
      }
    } else if difference < 0 {
      return if n.right == Null then 0 else -1;
    } else {
      return 0;
    }
  }

  /** Both stacks are apart: distinct stacks on distinct arrays, each valid. */
  ghost predicate Apart(base: NodeStack, fork: NodeStack)
    reads base, fork, base.slots, fork.slots
  {
    && base != fork && base.slots != null && fork.slots != null && base.slots != fork.slots
    && base.Valid() && fork.Valid()
  }

  /**
   * Both stacks in the middle of the start search: apart, each deep enough
   * for its tree, each a stack of the search on its tree.
   */
  ghost predicate Searching(base: NodeStack, baseRoot: Tree, fork: NodeStack, forkRoot: Tree, iv: Interval)
    reads base, fork, base.slots, fork.slots
  {
    && Apart(base, fork) && Ordered(baseRoot) && Ordered(forkRoot)
    && base.base + Height(baseRoot) <= base.slots.Length && fork.base + Height(forkRoot) <= fork.slots.Length
    && base.top.Some? && fork.top.Some?
    && Descending(base.nodes, baseRoot, iv) && Descending(fork.nodes, forkRoot, iv)
  }

  /**
   * One step of the start search on the base stack (`onBase`) or the fork
   * stack: `descend` towards where the first key that passes lies.  The
   * other stack is not touched.
   */
  method Step(base: NodeStack, baseRoot: Tree, fork: NodeStack, forkRoot: Tree, iv: Interval, onBase: bool, direction: int)
    requires Searching(base, baseRoot, fork, forkRoot, iv)
    requires direction == Descent((if onBase then base else fork).top.value, iv) != 0
    modifies base`top, base`index, base`nodes, fork`top, fork`index, fork`nodes, base.slots, fork.slots
    ensures Searching(base, baseRoot, fork, forkRoot, iv)
    ensures onBase ==> fork.top == old(fork.top) && Height(base.top.value) < old(Height(base.top.value))
    ensures !onBase ==> base.top == old(base.top) && Height(fork.top.value) < old(Height(fork.top.value))
  {
    if onBase {
      DescendKeeps(base.nodes, baseRoot, iv);
      base.Descend(direction);
    } else {
      DescendKeeps(fork.nodes, forkRoot, iv);
      fork.Descend(direction);
    }
  }

  /**
   * One round of the loop of `findStart`: step down one stack or both,
   * the one whose node in hand has the smaller key first, or stop when
   * neither can step (`0`) or, when unchanged entries need not be visited,
   * when both hold one shared node (the direction either would step, `1`
   * or `-1`).
   */
  method SearchStep(base: NodeStack, baseRoot: Tree, fork: NodeStack, forkRoot: Tree, iv: Interval, visitUnchanged: bool)
    returns (stop: bool, shared: int)
    requires Searching(base, baseRoot, fork, forkRoot, iv)
    modifies base`top, base`index, base`nodes, fork`top, fork`index, fork`nodes, base.slots, fork.slots
    ensures Searching(base, baseRoot, fork, forkRoot, iv)
    ensures stop && shared == 0 ==> Descent(base.top.value, iv) == 0 && Descent(fork.top.value, iv) == 0
    ensures stop && shared != 0 ==> !visitUnchanged && base.top == fork.top && shared == Descent(base.top.value, iv)
    ensures !stop ==> Height(base.top.value) + Height(fork.top.value) < old(Height(base.top.value) + Height(fork.top.value))
  {
    DescendingTop(base.nodes, baseRoot, iv);
    DescendingTop(fork.nodes, forkRoot, iv);
    var baseDifference := CompareForDescent(base.top.value, iv);
    var forkDifference := CompareForDescent(fork.top.value, iv);
    stop, shared := false, 0;
    if baseDifference == 0 {
      if forkDifference == 0 {
        stop := true;
      } else {
        Step(base, baseRoot, fork, forkRoot, iv, false, forkDifference);
      }
    } else if forkDifference == 0 {
      Step(base, baseRoot, fork, forkRoot, iv, true, baseDifference);
    } else {
      var difference;
      if base.top == fork.top {
        if visitUnchanged {
          difference := 0;
        } else {
          return true, baseDifference;
        }
      } else {
        difference := Order(base.top.value.key, fork.top.value.key);
      }
      if difference > 0 {
        if baseDifference > 0 {
          Step(base, baseRoot, fork, forkRoot, iv, true, baseDifference);
        } else {
          Step(base, baseRoot, fork, forkRoot, iv, false, forkDifference);
        }
      } else if difference < 0 {
        if forkDifference > 0 {
          Step(base, baseRoot, fork, forkRoot, iv, false, forkDifference);
        } else {
          Step(base, baseRoot, fork, forkRoot, iv, true, baseDifference);
        }
      } else {
        Step(base, baseRoot, fork, forkRoot, iv, true, baseDifference);
        Step(base, baseRoot, fork, forkRoot, iv, false, forkDifference);
      }
    }
  }

  /** The loop of `findStart`: rounds of `SearchStep` until it stops. */
  method StartSearch(base: NodeStack, baseRoot: Tree, fork: NodeStack, forkRoot: Tree, iv: Interval, visitUnchanged: bool)
    returns (shared: int)
    requires Searching(base, baseRoot, fork, forkRoot, iv)
    modifies base`top, base`index, base`nodes, fork`top, fork`index, fork`nodes, base.slots, fork.slots
    ensures Searching(base, baseRoot, fork, forkRoot, iv)
    ensures shared == 0 ==> Descent(base.top.value, iv) == 0 && Descent(fork.top.value, iv) == 0
    ensures shared != 0 ==> !visitUnchanged && base.top == fork.top && shared == Descent(base.top.value, iv)
  {
    var stop := false;
    shared := 0;
    while !stop
      invariant Searching(base, baseRoot, fork, forkRoot, iv)
      invariant stop && shared == 0 ==> Descent(base.top.value, iv) == 0 && Descent(fork.top.value, iv) == 0
      invariant stop && shared != 0 ==> !visitUnchanged && base.top == fork.top && shared == Descent(base.top.value, iv)
      decreases !stop, Height(base.top.value) + Height(fork.top.value)
    {
      stop, shared := SearchStep(base, baseRoot, fork, forkRoot, iv, visitUnchanged);
    }
  }

  /**
   * The end of `findStart`, corrected, once the search has stopped: on a
   * shared node from which it would step left, the shared left subtree is
   * skipped; on one from which it would step right, both stacks climb
   * past the shared node and its right subtree, as the walk does, where
   * the search as written clears both stacks.  Otherwise a stack whose
   * node in hand is `Null` or fails the low bound is cleared.  Each
   * stack's pending entries are then exactly its tree's entries that pass
   * the low bound, less the skipped keys, which map to the same entry in
   * both trees.
   */
  method Settle(base: NodeStack, baseRoot: Tree, fork: NodeStack, forkRoot: Tree, iv: Interval, visitUnchanged: bool, shared: int)
    returns (ghost skip: set<int>)
    requires Searching(base, baseRoot, fork, forkRoot, iv)
    requires shared == 0 ==> Descent(base.top.value, iv) == 0 && Descent(fork.top.value, iv) == 0
    requires shared != 0 ==> !visitUnchanged && base.top == fork.top && shared == Descent(base.top.value, iv)
    modifies base`top, base`index, base`nodes, fork`top, fork`index, fork`nodes
    ensures Apart(base, fork)
    ensures Walking(base.nodes, baseRoot, iv, None, skip) && Walking(fork.nodes, forkRoot, iv, None, skip)
    ensures forall k :: k in skip ==> Lookup(baseRoot, k) == Lookup(forkRoot, k)
    ensures visitUnchanged ==> skip == {}
  {
    if shared < 0 {
      skip := ClimbBoth(base, baseRoot, fork, forkRoot, iv);
    } else if shared > 0 {
      skip := Keys(base.top.value.left);
      KeepShared(base, baseRoot, fork, forkRoot, iv);
    } else {
      skip := {};
      KeepOrClearBoth(base, baseRoot, fork, forkRoot, iv);
    }
  }

  /**
   * Both stacks on one shared node from which the search would step left:
   * the final test keeps both, and the shared left subtree is skipped.
   */
  lemma KeepShared(base: NodeStack, baseRoot: Tree, fork: NodeStack, forkRoot: Tree, iv: Interval)
    requires Searching(base, baseRoot, fork, forkRoot, iv)
    requires base.top == fork.top && Descent(base.top.value, iv) > 0
    ensures var skip := Keys(base.top.value.left);
      && Walking(base.nodes, baseRoot, iv, None, skip) && Walking(fork.nodes, forkRoot, iv, None, skip)
      && forall k :: k in skip ==> Lookup(baseRoot, k) == Lookup(forkRoot, k)
  {
    ghost var t := base.top.value;
    DescendingChain(base.nodes, baseRoot, iv);
    DescendingChain(fork.nodes, forkRoot, iv);
    SharedSubtree(base.nodes, fork.nodes, baseRoot, forkRoot, t);
    // The final test never clears a stack kept on a shared node: it passes the low bound.
    FinishShared(base.nodes, baseRoot, iv);
    FinishShared(fork.nodes, forkRoot, iv);
  }

  /** Both stacks stopped apart from each other: the final test of each, skipping nothing. */
  method KeepOrClearBoth(base: NodeStack, baseRoot: Tree, fork: NodeStack, forkRoot: Tree, iv: Interval)
    requires Searching(base, baseRoot, fork, forkRoot, iv)
    requires Descent(base.top.value, iv) == 0 && Descent(fork.top.value, iv) == 0
    modifies base`top, base`index, base`nodes, fork`top, fork`index, fork`nodes
    ensures Apart(base, fork)
    ensures Walking(base.nodes, baseRoot, iv, None, {}) && Walking(fork.nodes, forkRoot, iv, None, {})
  {
    KeepOrClear(base, baseRoot, iv);
    KeepOrClear(fork, forkRoot, iv);
  }

  /** Both stacks on one shared node from which the search would step right: both climb past it, skipping its keys. */
  method ClimbBoth(base: NodeStack, baseRoot: Tree, fork: NodeStack, forkRoot: Tree, iv: Interval)
    returns (ghost skip: set<int>)
    requires Searching(base, baseRoot, fork, forkRoot, iv)
    requires base.top == fork.top && Descent(base.top.value, iv) < 0
    modifies base`top, base`index, base`nodes, fork`top, fork`index, fork`nodes
    ensures Apart(base, fork)
    ensures Walking(base.nodes, baseRoot, iv, None, skip) && Walking(fork.nodes, forkRoot, iv, None, skip)
    ensures forall k :: k in skip ==> Lookup(baseRoot, k) == Lookup(forkRoot, k)
  {
    ghost var t := base.top.value;
    DescendingChain(base.nodes, baseRoot, iv);
    DescendingChain(fork.nodes, forkRoot, iv);
    SharedSubtree(base.nodes, fork.nodes, baseRoot, forkRoot, t);
    ClimbPast(base, baseRoot, iv);
    ClimbPast(fork, forkRoot, iv);
    skip := Keys(t);
  }

  /**
   * Past a shared node from which the search would step right: `ascendNext`
   * leaves pending what follows the node and its right subtree, which is
   * what passes less the node's subtree.
   */
  method ClimbPast(s: NodeStack, root: Tree, iv: Interval)
    requires s.Valid() && s.top.Some? && Ordered(root)
    requires Descending(s.nodes, root, iv) && Descent(s.top.value, iv) < 0
    modifies s`top, s`index, s`nodes
    ensures s.Valid() && Walking(s.nodes, root, iv, None, Keys(old(s.top.value)))
  {
    DescendingTop(s.nodes, root, iv);
    DescentMeaning(s.top.value, iv);
    DescendingChain(s.nodes, root, iv);
    ghost var before := s.nodes;
    s.AscendNext();
    ClimbedPast(before, s.nodes, root, iv);
  }

  /**
   * The final test of `findStart` on a stack that cannot step: clear it
   * when its node in hand is `Null` or fails the low bound.
   */
  method KeepOrClear(s: NodeStack, root: Tree, iv: Interval)
    requires s.Valid() && s.top.Some? && Ordered(root)
    requires Descending(s.nodes, root, iv) && Descent(s.top.value, iv) == 0
    modifies s`top, s`index, s`nodes
    ensures s.Valid() && Walking(s.nodes, root, iv, None, {})
  {
    FinishOne(s.nodes, root, iv);
    if s.top.value == Null || LowSign(s.top.value.key, iv) < 0 {
      s.Clear();
    }
  }

  // ---------------------------------------------------------------------
  // The rounds of the walk.

  /**
   * Report the node in hand of `s`, whose key the other stack `o` has not
   * reached, and move `s` to its successor (`next`).  The other tree has
   * no entry for the key.
   */
  method ReportFrom(s: NodeStack, sRoot: Tree, o: NodeStack, oRoot: Tree, iv: Interval, ghost last: Option<int>, ghost skipped: set<int>)
    returns (e: (int, Entry))
    requires Apart(s, o) && s.base + Height(sRoot) <= s.slots.Length
    requires Walking(s.nodes, sRoot, iv, last, skipped) && Walking(o.nodes, oRoot, iv, last, skipped)
    requires s.top.Some? && (o.top.Some? ==> s.top.value.key < o.top.value.key)
    modifies s`top, s`index, s`nodes, s.slots
    ensures Apart(s, o) && e == (old(s.top).value.key, old(s.top).value.value)
    ensures Passes(iv, e.0) && Beyond(last, e.0) && e.0 !in skipped
    ensures At(sRoot, e.0) == Some(e) && At(oRoot, e.0) == None
    ensures SkippedBelow(sRoot, iv, last, skipped, e.0) && SkippedBelow(oRoot, iv, last, skipped, e.0)
    ensures Walking(s.nodes, sRoot, iv, Some(e.0), skipped) && Walking(o.nodes, oRoot, iv, Some(e.0), skipped)
  {
    WalkFront(s.nodes, sRoot, iv, last, skipped);
    WalkFront(o.nodes, oRoot, iv, last, skipped);
    e := (s.top.value.key, s.top.value.value);
    ReportOne(PendingOf(s.nodes), PendingOf(o.nodes), sRoot, oRoot, iv, last, skipped);
    Advance(s, o, sRoot, iv, Some(e.0), skipped);
  }

  /** Report the nodes in hand of both stacks, which share their key, and move both to their successors. */
  method ReportPair(base: NodeStack, baseRoot: Tree, fork: NodeStack, forkRoot: Tree, iv: Interval, ghost last: Option<int>, ghost skipped: set<int>)
    returns (b: (int, Entry), f: (int, Entry))
    requires Apart(base, fork)
    requires base.base + Height(baseRoot) <= base.slots.Length && fork.base + Height(forkRoot) <= fork.slots.Length
    requires Walking(base.nodes, baseRoot, iv, last, skipped) && Walking(fork.nodes, forkRoot, iv, last, skipped)
    requires base.top.Some? && fork.top.Some? && base.top.value.key == fork.top.value.key
    modifies base`top, base`index, base`nodes, fork`top, fork`index, fork`nodes, base.slots, fork.slots
    ensures Apart(base, fork) && b.0 == f.0
    ensures b == (old(base.top).value.key, old(base.top).value.value) && f == (old(fork.top).value.key, old(fork.top).value.value)
    ensures Passes(iv, b.0) && Beyond(last, b.0) && b.0 !in skipped
    ensures At(baseRoot, b.0) == Some(b) && At(forkRoot, b.0) == Some(f)
    ensures SkippedBelow(baseRoot, iv, last, skipped, b.0) && SkippedBelow(forkRoot, iv, last, skipped, b.0)
    ensures Walking(base.nodes, baseRoot, iv, Some(b.0), skipped) && Walking(fork.nodes, forkRoot, iv, Some(b.0), skipped)
  {
    WalkFront(base.nodes, baseRoot, iv, last, skipped);
    WalkFront(fork.nodes, forkRoot, iv, last, skipped);
    b := (base.top.value.key, base.top.value.value);
    f := (fork.top.value.key, fork.top.value.value);
    ReportBoth(PendingOf(base.nodes), PendingOf(fork.nodes), baseRoot, forkRoot, iv, last, skipped);
    Advance(base, fork, baseRoot, iv, Some(b.0), skipped);
    Advance(fork, base, forkRoot, iv, Some(b.0), skipped);
  }

  /**
   * `next` on one stack whose pending entries after the first are what
   * remains: afterwards they are all it has pending.  The other stack `o`
   * is not touched.
   */
  method Advance(s: NodeStack, o: NodeStack, root: Tree, iv: Interval, ghost last: Option<int>, ghost skipped: set<int>)
    requires Apart(s, o) && Ordered(root) && s.base + Height(root) <= s.slots.Length
    requires s.top.Some? && Chain(s.nodes) && s.nodes[0] == root && PendingOf(s.nodes) != []
    requires Remaining(PendingOf(s.nodes)[1..], root, iv, last, skipped)
    modifies s`top, s`index, s`nodes, s.slots
    ensures Apart(s, o) && Walking(s.nodes, root, iv, last, skipped)
  {
    s.Next();
  }

  /**
   * The body of `findStart` on two empty stacks: push the roots, search
   * (`StartSearch`) and settle (`Settle`).
   */
  method Start(base: NodeStack, baseRoot: Tree, fork: NodeStack, forkRoot: Tree, iv: Interval, visitUnchanged: bool)
    returns (ghost skip: set<int>)
    requires Apart(base, fork) && base.nodes == [] && fork.nodes == []
    requires Ordered(baseRoot) && Ordered(forkRoot)
    requires base.base + Height(baseRoot) <= base.slots.Length && fork.base + Height(forkRoot) <= fork.slots.Length
    modifies base`top, base`index, base`nodes, fork`top, fork`index, fork`nodes, base.slots, fork.slots
    ensures Walkers(base, baseRoot, fork, forkRoot, iv, None, skip)
    ensures visitUnchanged ==> skip == {}
  {
    base.Push(baseRoot);
    fork.Push(forkRoot);
    StartDescending(baseRoot, iv);
    StartDescending(forkRoot, iv);
    var shared := StartSearch(base, baseRoot, fork, forkRoot, iv, visitUnchanged);
    skip := Settle(base, baseRoot, fork, forkRoot, iv, visitUnchanged, shared);
  }

  /**
   * Both stacks hold one shared node: `ascendNext` on both skips it and
   * its right subtree, whose keys join the skipped ones; they map to the
   * same entry in both trees.
   */
  method SkipBoth(base: NodeStack, baseRoot: Tree, fork: NodeStack, forkRoot: Tree, iv: Interval, ghost last: Option<int>, ghost skipped: set<int>)
    returns (ghost skippedNow: set<int>)
    requires Apart(base, fork)
    requires Walking(base.nodes, baseRoot, iv, last, skipped) && Walking(fork.nodes, forkRoot, iv, last, skipped)
    requires base.top.Some? && base.top == fork.top
    requires forall k :: k in skipped ==> Lookup(baseRoot, k) == Lookup(forkRoot, k)
    modifies base`top, base`index, base`nodes, fork`top, fork`index, fork`nodes
    ensures Apart(base, fork) && skipped <= skippedNow
    ensures Walking(base.nodes, baseRoot, iv, last, skippedNow) && Walking(fork.nodes, forkRoot, iv, last, skippedNow)
    ensures forall k :: k in skippedNow ==> Lookup(baseRoot, k) == Lookup(forkRoot, k)
    ensures |PendingOf(base.nodes)| + |PendingOf(fork.nodes)| < old(|PendingOf(base.nodes)| + |PendingOf(fork.nodes)|)
  {
    ghost var t := base.top.value;
    SharedSubtree(base.nodes, fork.nodes, baseRoot, forkRoot, t);
    SkipOne(base, fork, baseRoot, iv, last, skipped, t);
    SkipOne(fork, base, forkRoot, iv, last, skipped, t);
    skippedNow := skipped + Keys(t);
  }

  /** `ascendNext` on one stack holding the shared node `t`: its keys join the skipped ones.  The other stack `o` is not touched. */
  method SkipOne(s: NodeStack, o: NodeStack, root: Tree, iv: Interval, ghost last: Option<int>, ghost skipped: set<int>, ghost t: Tree)
    requires Apart(s, o) && Walking(s.nodes, root, iv, last, skipped) && s.top == Some(t)
    modifies s`top, s`index, s`nodes
    ensures Apart(s, o) && Walking(s.nodes, root, iv, last, skipped + Keys(t))
    ensures |PendingOf(s.nodes)| < old(|PendingOf(s.nodes)|)
  {
    SkipShared(s.nodes, root, iv, last, skipped);
    s.AscendNext();
  }


  /** `a` is what is left of `b` once some of its first elements are taken. */
  predicate Suffix<T(==)>(a: seq<T>, b: seq<T>)
  {
    |a| <= |b| && a == b[|b| - |a|..]
  }

  /** Taking one more element leaves a suffix. */
  lemma SuffixStep<T>(a: seq<T>, b: seq<T>)
    requires Suffix(a, b) && a != []
    ensures Suffix(a[1..], b)
  {
    assert b[|b| - |a| + 1..] == b[|b| - |a|..][1..];
  }

  /** `DiffPair`: the key and entry each tree holds for the key reported, or nothing. */
  datatype DiffPair = DiffPair(base: Option<(int, Entry)>, fork: Option<(int, Entry)>)

  /**
   * Both stacks walk their trees within `iv`, on separate arrays deep
   * enough for the trees, and the keys skipped so far map to the same
   * entry in both trees.
   */
  ghost predicate Walkers(base: NodeStack, baseRoot: Tree, fork: NodeStack, forkRoot: Tree, iv: Interval, last: Option<int>, skipped: set<int>)
    reads base, fork, base.slots, fork.slots
  {
    && Apart(base, fork)
    && base.base + Height(baseRoot) <= base.slots.Length
    && fork.base + Height(forkRoot) <= fork.slots.Length
    && Walking(base.nodes, baseRoot, iv, last, skipped) && Walking(fork.nodes, forkRoot, iv, last, skipped)
    && (forall k :: k in skipped ==> Lookup(baseRoot, k) == Lookup(forkRoot, k))
  }

  /** Both stacks empty, apart, on arrays deep enough for the trees. */
  ghost predicate Idle(base: NodeStack, baseRoot: Tree, fork: NodeStack, forkRoot: Tree)
    reads base, fork, base.slots, fork.slots
  {
    && Apart(base, fork) && base.nodes == [] && fork.nodes == []
    && base.base + Height(baseRoot) <= base.slots.Length
    && fork.base + Height(forkRoot) <= fork.slots.Length
  }

  /** `clear` on both stacks. */
  method ClearBoth(base: NodeStack, baseRoot: Tree, fork: NodeStack, forkRoot: Tree)
    requires Apart(base, fork)
    requires base.base + Height(baseRoot) <= base.slots.Length && fork.base + Height(forkRoot) <= fork.slots.Length
    modifies base`top, base`index, base`nodes, fork`top, fork`index, fork`nodes
    ensures Idle(base, baseRoot, fork, forkRoot)
  {
    base.Clear();
    fork.Clear();
  }

  /** `pair` holds each tree's entry for `k`, a key of `iv` that one of the trees holds. */
  ghost predicate Found(baseRoot: Tree, forkRoot: Tree, iv: Interval, k: int, pair: DiffPair)
  {
    && Passes(iv, k) && Under(iv, k)
    && pair == DiffPair(At(baseRoot, k), At(forkRoot, k))
    && (pair.base.Some? || pair.fork.Some?)
  }

  /**
   * `k` is found, comes after `last`, and every key of either tree within
   * `iv` between `last` and `k` was skipped.
   */
  ghost predicate Reported(baseRoot: Tree, forkRoot: Tree, iv: Interval, last: Option<int>, skipped: set<int>, k: int, pair: DiffPair)
  {
    && Found(baseRoot, forkRoot, iv, k, pair) && Beyond(last, k)
    && SkippedBelow(baseRoot, iv, last, skipped, k) && SkippedBelow(forkRoot, iv, last, skipped, k)
  }

  /**
   * Both nodes in hand lie within the high bound and are not one shared
   * node to skip: report the smaller key, with both entries when the keys
   * are equal, and move past it.
   */
  method ReportLower(base: NodeStack, baseRoot: Tree, fork: NodeStack, forkRoot: Tree, iv: Interval, ghost last: Option<int>, ghost skipped: set<int>)
    returns (pair: DiffPair, ghost k: int)
    requires Walkers(base, baseRoot, fork, forkRoot, iv, last, skipped)
    requires base.top.Some? && fork.top.Some?
    requires Under(iv, base.top.value.key) && Under(iv, fork.top.value.key)
    modifies base`top, base`index, base`nodes, fork`top, fork`index, fork`nodes, base.slots, fork.slots
    ensures Walkers(base, baseRoot, fork, forkRoot, iv, Some(k), skipped)
    ensures Reported(baseRoot, forkRoot, iv, last, skipped, k, pair)
  {
    var difference := Order(base.top.value.key, fork.top.value.key);
    if difference > 0 {
      var f := ReportFrom(fork, forkRoot, base, baseRoot, iv, last, skipped);
      pair, k := DiffPair(None, Some(f)), f.0;
    } else if difference < 0 {
      var b := ReportFrom(base, baseRoot, fork, forkRoot, iv, last, skipped);
      pair, k := DiffPair(Some(b), None), b.0;
    } else {
      var b, f := ReportPair(base, baseRoot, fork, forkRoot, iv, last, skipped);
      pair, k := DiffPair(Some(b), Some(f)), b.0;
    }
  }

  /**
   * Only the node in hand of `s` lies within the high bound: report it
   * alone (as the pair `(e, None)` seen from `s`) and move past it.
   */
  method ReportAlone(s: NodeStack, sRoot: Tree, o: NodeStack, oRoot: Tree, iv: Interval, ghost last: Option<int>, ghost skipped: set<int>)
    returns (e: (int, Entry))
    requires Walkers(s, sRoot, o, oRoot, iv, last, skipped)
    requires s.top.Some? && Under(iv, s.top.value.key)
    requires o.top.Some? ==> !Under(iv, o.top.value.key)
    modifies s`top, s`index, s`nodes, s.slots
    ensures Walkers(s, sRoot, o, oRoot, iv, Some(e.0), skipped)
    ensures Reported(sRoot, oRoot, iv, last, skipped, e.0, DiffPair(Some(e), None))
  {
    if o.top.Some? {
      UnderBelow(iv, s.top.value.key, o.top.value.key);
    }
    ghost var k := s.top.value.key;
    e := ReportFrom(s, sRoot, o, oRoot, iv, last, skipped);
    assert e.0 == k;
  }

  /**
   * One round of `next(interval, pair)` once the start is found.  When
   * both nodes in hand lie within the high bound and are one shared node,
   * it is skipped with its right subtree unless unchanged entries are
   * visited, and the walk goes on (`stop` false).  Otherwise the smaller
   * key within the high bound is reported (`r`), or, when neither node in
   * hand lies within it, the interval is done.
   */
  method Turn(base: NodeStack, baseRoot: Tree, fork: NodeStack, forkRoot: Tree, iv: Interval, visitUnchanged: bool, ghost last: Option<int>, ghost skipped: set<int>)
    returns (stop: bool, r: bool, pair: DiffPair, ghost k: int, ghost skippedNow: set<int>)
    requires Walkers(base, baseRoot, fork, forkRoot, iv, last, skipped)
    modifies base`top, base`index, base`nodes, fork`top, fork`index, fork`nodes, base.slots, fork.slots
    ensures skipped <= skippedNow && (visitUnchanged ==> skippedNow == skipped)
    ensures !stop ==> && !visitUnchanged && Walkers(base, baseRoot, fork, forkRoot, iv, last, skippedNow)
                      && |PendingOf(base.nodes)| + |PendingOf(fork.nodes)| < old(|PendingOf(base.nodes)| + |PendingOf(fork.nodes)|)
    ensures stop && r ==> && Walkers(base, baseRoot, fork, forkRoot, iv, Some(k), skippedNow)
                          && Reported(baseRoot, forkRoot, iv, last, skippedNow, k, pair)
    ensures stop && !r ==> && Walkers(base, baseRoot, fork, forkRoot, iv, last, skippedNow) && pair == DiffPair(None, None)
                           && Done(baseRoot, iv, last, skippedNow) && Done(forkRoot, iv, last, skippedNow)
  {
    k, skippedNow := 0, skipped;
    var baseDifference := if base.top == None then 1 else HighSign(base.top.value.key, iv);
    var forkDifference := if fork.top == None then 1 else HighSign(fork.top.value.key, iv);
    if baseDifference <= 0 && forkDifference <= 0 && base.top == fork.top && !visitUnchanged {
      skippedNow := SkipBoth(base, baseRoot, fork, forkRoot, iv, last, skipped);
      return false, false, DiffPair(None, None), k, skippedNow;
    }
    stop := true;
    r, pair, k := Report(base, baseRoot, fork, forkRoot, iv, baseDifference, forkDifference, last, skipped);
  }

  /**
   * The reporting half of a round: the smaller key within the high bound
   * (both entries when the keys are equal), or, when neither node in hand
   * lies within it, the end of the interval.
   */
  method Report(base: NodeStack, baseRoot: Tree, fork: NodeStack, forkRoot: Tree, iv: Interval,
                baseDifference: int, forkDifference: int, ghost last: Option<int>, ghost skipped: set<int>)
    returns (r: bool, pair: DiffPair, ghost k: int)
    requires Walkers(base, baseRoot, fork, forkRoot, iv, last, skipped)
    requires baseDifference == (if base.top == None then 1 else HighSign(base.top.value.key, iv))
    requires forkDifference == (if fork.top == None then 1 else HighSign(fork.top.value.key, iv))
    modifies base`top, base`index, base`nodes, fork`top, fork`index, fork`nodes, base.slots, fork.slots
    ensures r ==> && Walkers(base, baseRoot, fork, forkRoot, iv, Some(k), skipped)
                  && Reported(baseRoot, forkRoot, iv, last, skipped, k, pair)
    ensures !r ==> && Walkers(base, baseRoot, fork, forkRoot, iv, last, skipped) && pair == DiffPair(None, None)
                   && Done(baseRoot, iv, last, skipped) && Done(forkRoot, iv, last, skipped)
  {
    WalkFront(base.nodes, baseRoot, iv, last, skipped);
    WalkFront(fork.nodes, forkRoot, iv, last, skipped);
    if base.top.Some? {
      KeyAgainstBounds(base.top.value.key, iv.high, iv.highBoundType);
    }
    if fork.top.Some? {
      KeyAgainstBounds(fork.top.value.key, iv.high, iv.highBoundType);
    }
    r, k := true, 0;
    if baseDifference <= 0 {
      if forkDifference <= 0 {
        pair, k := ReportLower(base, baseRoot, fork, forkRoot, iv, last, skipped);
      } else {
        var b := ReportAlone(base, baseRoot, fork, forkRoot, iv, last, skipped);
        pair, k := DiffPair(Some(b), None), b.0;
      }
    } else if forkDifference <= 0 {
      var f := ReportAlone(fork, forkRoot, base, baseRoot, iv, last, skipped);
      pair, k := DiffPair(None, Some(f)), f.0;
    } else {
      Exhausted(PendingOf(base.nodes), baseRoot, iv, last, skipped);
      Exhausted(PendingOf(fork.nodes), forkRoot, iv, last, skipped);
      r, pair := false, DiffPair(None, None);
    }
  }

  /**
   * `next(interval, pair)` once the start is found: take turns until a
   * key is reported or the interval is done.
   */
  method Walk(base: NodeStack, baseRoot: Tree, fork: NodeStack, forkRoot: Tree, iv: Interval, visitUnchanged: bool, ghost last: Option<int>, ghost skipped: set<int>)
    returns (r: bool, pair: DiffPair, ghost k: int, ghost skippedNow: set<int>)
    requires Walkers(base, baseRoot, fork, forkRoot, iv, last, skipped)
    modifies base`top, base`index, base`nodes, fork`top, fork`index, fork`nodes, base.slots, fork.slots
    ensures skipped <= skippedNow && (visitUnchanged ==> skippedNow == skipped)
    ensures r ==> && Walkers(base, baseRoot, fork, forkRoot, iv, Some(k), skippedNow)
                  && Reported(baseRoot, forkRoot, iv, last, skippedNow, k, pair)
    ensures !r ==> && Walkers(base, baseRoot, fork, forkRoot, iv, last, skippedNow) && pair == DiffPair(None, None)
                   && Done(baseRoot, iv, last, skippedNow) && Done(forkRoot, iv, last, skippedNow)
  {
    var stop := false;
    r, pair, k, skippedNow := false, DiffPair(None, None), 0, skipped;
    while !stop
      invariant skipped <= skippedNow && (visitUnchanged ==> skippedNow == skipped)
      invariant !stop ==> Walkers(base, baseRoot, fork, forkRoot, iv, last, skippedNow)
      invariant stop && r ==> && Walkers(base, baseRoot, fork, forkRoot, iv, Some(k), skippedNow)
                              && Reported(baseRoot, forkRoot, iv, last, skippedNow, k, pair)
      invariant stop && !r ==> && Walkers(base, baseRoot, fork, forkRoot, iv, last, skippedNow) && pair == DiffPair(None, None)
                               && Done(baseRoot, iv, last, skippedNow) && Done(forkRoot, iv, last, skippedNow)
      decreases !stop, |PendingOf(base.nodes)| + |PendingOf(fork.nodes)|
    {
      stop, r, pair, k, skippedNow := Turn(base, baseRoot, fork, forkRoot, iv, visitUnchanged, last, skippedNow);
    }
  }

  class DiffIterator {
    const baseRoot: Tree
    const base: NodeStack
    const forkRoot: Tree
    const fork: NodeStack
    /** What the interval iterator has still to give. */
    var intervals: seq<Interval>
    const visitUnchanged: bool
    var current: Interval
    var foundStart: bool
    /** The key reported last in the current interval. */
    ghost var last: Option<int>
    /** The keys of the shared subtrees skipped in the current interval. */
    ghost var skipped: set<int>

    ghost predicate Valid()
      reads this, base, fork, base.slots, fork.slots
    {
      && Ordered(baseRoot) && Ordered(forkRoot)
      && (visitUnchanged ==> skipped == {})
      && if foundStart then Walkers(base, baseRoot, fork, forkRoot, current, last, skipped)
         else Idle(base, baseRoot, fork, forkRoot) && last == None && skipped == {}
    }

    /**
     * `DiffIterator(...)`: the walk over two trees with an empty stack each,
     * on separate arrays deep enough for the trees, and the first of the
     * intervals in hand.
     */
    constructor (baseRoot: Tree, base: NodeStack, forkRoot: Tree, fork: NodeStack, intervals: seq<Interval>, visitUnchanged: bool)
      requires base != fork && base.slots != null && fork.slots != null && base.slots != fork.slots
      requires base.Valid() && fork.Valid() && base.nodes == [] && fork.nodes == []
      requires Ordered(baseRoot) && Ordered(forkRoot)
      requires base.base + Height(baseRoot) <= base.slots.Length
      requires fork.base + Height(forkRoot) <= fork.slots.Length
      requires intervals != []
      ensures Valid() && !foundStart
      ensures this.baseRoot == baseRoot && this.base == base && this.forkRoot == forkRoot && this.fork == fork
      ensures this.visitUnchanged == visitUnchanged
      ensures current == intervals[0] && this.intervals == intervals[1..]
    {
      this.baseRoot := baseRoot;
      this.base := base;
      this.forkRoot := forkRoot;
      this.fork := fork;
      this.visitUnchanged := visitUnchanged;
      current := intervals[0];
      this.intervals := intervals[1..];
      foundStart := false;
      last := None;
      skipped := {};
    }

    /**
     * `findStart`, corrected: both stacks step down towards the first key
     * that passes the low bound (`StartSearch`).  When they stop on one
     * shared node from which they would step left, the shared left subtree
     * is skipped; when they would step right, both stacks climb past the
     * shared node and its right subtree, as the walk does, where the search
     * as written clears both stacks.  A stack whose node in hand is `Null`
     * or fails the low bound is cleared.  Afterwards each stack's pending
     * entries are exactly its tree's entries that pass the low bound, less
     * the skipped keys.
     */
    method FindStart()
      requires Valid() && !foundStart
      modifies this`foundStart, this`skipped, base`top, base`index, base`nodes, fork`top, fork`index, fork`nodes, base.slots, fork.slots
      ensures Valid() && foundStart && last == None
      ensures current == old(current) && intervals == old(intervals)
    {
      skipped := Start(base, baseRoot, fork, forkRoot, current, visitUnchanged);
      foundStart := true;
    }

    /**
     * `next(interval, pair)`: the next key of the current interval, after
     * running the start search on the first call (`Walk`).  A key reported
     * comes after the one reported before; every key of either tree within
     * the interval passed over in between was skipped as shared.  When
     * nothing is reported, every key of either tree left in the interval
     * was skipped.
     */
    method NextIn() returns (r: bool, pair: DiffPair)
      requires Valid()
      modifies this`foundStart, this`last, this`skipped
      modifies base`top, base`index, base`nodes, fork`top, fork`index, fork`nodes, base.slots, fork.slots
      ensures Valid() && foundStart
      ensures current == old(current) && intervals == old(intervals) && old(skipped) <= skipped
      ensures r ==> last.Some? && Reported(baseRoot, forkRoot, current, old(last), skipped, last.value, pair)
      ensures !r ==> && pair == DiffPair(None, None) && last == old(last)
                     && Done(baseRoot, current, last, skipped) && Done(forkRoot, current, last, skipped)
    {
      if !foundStart {
        FindStart();
      }
      r, pair := Resume();
    }

    /** `next(interval, pair)` once the start is found (`Walk`). */
    method Resume() returns (r: bool, pair: DiffPair)
      requires Valid() && foundStart
      modifies this`last, this`skipped
      modifies base`top, base`index, base`nodes, fork`top, fork`index, fork`nodes, base.slots, fork.slots
      ensures Valid() && foundStart && old(skipped) <= skipped
      ensures r ==> last.Some? && Reported(baseRoot, forkRoot, current, old(last), skipped, last.value, pair)
      ensures !r ==> && pair == DiffPair(None, None) && last == old(last)
                     && Done(baseRoot, current, last, skipped) && Done(forkRoot, current, last, skipped)
    {
      ghost var k, now;
      r, pair, k, now := Walk(base, baseRoot, fork, forkRoot, current, visitUnchanged, last, skipped);
      last, skipped := if r then Some(k) else last, now;
    }

    /**
     * `next(pair)`: the next key of the current interval or, once that is
     * done, of the intervals after it, each started afresh.  When nothing
     * is reported, every interval has been taken and every key of either
     * tree left in the last one was skipped.
     */
    method Next() returns (r: bool, pair: DiffPair)
      requires Valid()
      modifies this`foundStart, this`last, this`skipped, this`current, this`intervals
      modifies base`top, base`index, base`nodes, fork`top, fork`index, fork`nodes, base.slots, fork.slots
      ensures Valid() && Suffix(intervals, old(intervals))
      ensures r ==> last.Some? && Found(baseRoot, forkRoot, current, last.value, pair)
      ensures r && intervals == old(intervals) ==> current == old(current) && Beyond(old(last), last.value)
      ensures !r ==> intervals == [] && Done(baseRoot, current, last, skipped) && Done(forkRoot, current, last, skipped)
    {
      r, pair := NextIn();
      while !r && intervals != []
        invariant Valid() && Suffix(intervals, old(intervals))
        invariant r ==> last.Some? && Found(baseRoot, forkRoot, current, last.value, pair)
        invariant r && intervals == old(intervals) ==> current == old(current) && Beyond(old(last), last.value)
        invariant !r ==> Done(baseRoot, current, last, skipped) && Done(forkRoot, current, last, skipped)
        decreases |intervals|
      {
        SuffixStep(intervals, old(intervals));
        Restart();
        r, pair := NextIn();
      }
    }

    /** Clear both stacks and take the next interval, to be started afresh. */
    method Restart()
      requires Valid() && intervals != []
      modifies this`foundStart, this`last, this`skipped, this`current, this`intervals
      modifies base`top, base`index, base`nodes, fork`top, fork`index, fork`nodes
      ensures Valid() && !foundStart && current == old(intervals)[0] && intervals == old(intervals)[1..]
    {
      ClearBoth(base, baseRoot, fork, forkRoot);
      foundStart, current, intervals, last, skipped := false, intervals[0], intervals[1..], None, {};
    }
  }
}
