/**
 * What a traversal stack of the storage engine means
 * (src/main/java/com/readytalk/revori/imp/NodeStack.java): the nodes on
 * the stack run from the root of a tree down to the node in hand, each
 * the child of the one before, and the stack stands for the entries an
 * in-order walk from the node in hand still has to visit.
 */
module Chains {
  import opened Trees

  /** The entries of a tree in ascending key order. */
  function InOrder(t: Tree): seq<(int, Entry)>
  {
    match t
    case Null => []
    case Node(_, left, key, value, right) => InOrder(left) + [(key, value)] + InOrder(right)
  }

  /** A node's right child; the `Null` sentinel is its own child (Node.java:21-27). */
  function RightOf(t: Tree): Tree
  {
    if t.Null? then Null else t.right
  }

  /** Strictly ascending keys. */
  predicate Ascending(s: seq<(int, Entry)>)
  {
    forall i, j :: 0 <= i < j < |s| ==> s[i].0 < s[j].0
  }

  /** Every entry of `a` has a smaller key than every entry of `b`. */
  predicate Before(a: seq<(int, Entry)>, b: seq<(int, Entry)>)
  {
    forall x, y :: x in a && y in b ==> x.0 < y.0
  }

  /** The height of a tree: the number of nodes on its longest path. */
  function Height(t: Tree): nat
  {
    match t
    case Null => 0
    case Node(_, left, _, _, right) =>
      1 + (if Height(left) < Height(right) then Height(right) else Height(left))
  }

  /** A path of nodes from an ordered root down, each one a child of the one before. */
  predicate Chain(nodes: seq<Tree>)
    decreases |nodes|
  {
    nodes == [] ||
    var up, last := nodes[..|nodes| - 1], nodes[|nodes| - 1];
    && Chain(up) && last.Node? && Ordered(last)
    && (up == [] || last == up[|up| - 1].left || last == up[|up| - 1].right)
  }

  /**
   * What the ancestors `above` of `child` add to an in-order walk once
   * `child` and its right subtree are done: an ancestor the walk went
   * right from has been visited, one it went left from comes next with
   * its right subtree.  Which way the walk went is read off the way the
   * stack does it: the walk went right exactly when `child` is the right
   * child.
   */
  function Rest(above: seq<Tree>, child: Tree): seq<(int, Entry)>
    decreases |above|
  {
    if above == [] then []
    else
      var p := above[|above| - 1];
      (if p.Node? && p.right != child then [(p.key, p.value)] + InOrder(p.right) else [])
      + Rest(above[..|above| - 1], p)
  }

  /** The entries still to visit from `top`: itself, its right subtree, then what the ancestors add. */
  function Pending(above: seq<Tree>, top: Tree): seq<(int, Entry)>
  {
    if top.Null? then [] else [(top.key, top.value)] + InOrder(top.right) + Rest(above, top)
  }

  /** The entries still to visit from a whole stack, root first, node in hand last. */
  function PendingOf(nodes: seq<Tree>): seq<(int, Entry)>
  {
    if nodes == [] then [] else Pending(nodes[..|nodes| - 1], nodes[|nodes| - 1])
  }

  // ---------------------------------------------------------------------
  // In-order sequences.

  /** The in-order sequence holds exactly the tree's entries. */
  lemma {:induction false} InOrderElements(t: Tree)
    ensures forall e :: e in InOrder(t) <==> e in Elements(t)
  {
    match t
    case Null =>
    case Node(_, left, key, value, right) =>
      InOrderElements(left);
      InOrderElements(right);
  }

  /** The in-order sequence of an ordered tree is ascending. */
  lemma {:induction false} InOrderAscending(t: Tree)
    requires Ordered(t)
    ensures Ascending(InOrder(t))
  {
    match t
    case Null =>
    case Node(_, left, key, value, right) =>
      InOrderAscending(left);
      InOrderAscending(right);
      InOrderElements(left);
      InOrderElements(right);
      KeysOfElements(left);
      KeysOfElements(right);
      AscendingJoin([(key, value)], InOrder(right));
      AscendingJoin(InOrder(left), [(key, value)] + InOrder(right));
      assert InOrder(t) == InOrder(left) + ([(key, value)] + InOrder(right));
  }

  /** Two ascending runs, the first wholly below the second, make an ascending run. */
  lemma AscendingJoin(a: seq<(int, Entry)>, b: seq<(int, Entry)>)
    requires Ascending(a) && Ascending(b) && Before(a, b)
    ensures Ascending(a + b)
  {
    forall i, j | 0 <= i < j < |a + b|
      ensures (a + b)[i].0 < (a + b)[j].0
    {
      if j < |a| {
      } else if i >= |a| {
        assert (a + b)[i] == b[i - |a|] && (a + b)[j] == b[j - |a|];
      } else {
        assert (a + b)[i] in a && (a + b)[j] in b;
      }
    }
  }

  // ---------------------------------------------------------------------
  // Chains.

  /** A prefix of a chain is a chain. */
  lemma {:induction false} ChainPrefix(nodes: seq<Tree>, k: nat)
    requires Chain(nodes) && k <= |nodes|
    ensures Chain(nodes[..k])
    decreases |nodes|
  {
    if k < |nodes| {
      var up := nodes[..|nodes| - 1];
      assert up[..k] == nodes[..k];
      ChainPrefix(up, k);
    } else {
      assert nodes[..k] == nodes;
    }
  }

  /** The first node of a chain is an ordered node. */
  lemma {:induction false} ChainFirst(nodes: seq<Tree>)
    requires Chain(nodes) && nodes != []
    ensures nodes[0].Node? && Ordered(nodes[0])
    decreases |nodes|
  {
    if |nodes| > 1 {
      ChainFirst(nodes[..|nodes| - 1]);
    }
  }

  /** A nonempty sequence of nodes is the ones above the last, then the last. */
  lemma LastSplit(nodes: seq<Tree>)
    requires nodes != []
    ensures nodes == nodes[..|nodes| - 1] + [nodes[|nodes| - 1]]
  {
  }

  /** The last node of a chain is an ordered node. */
  lemma ChainLast(nodes: seq<Tree>)
    requires Chain(nodes) && nodes != []
    ensures nodes[|nodes| - 1].Node? && Ordered(nodes[|nodes| - 1])
  {
  }

  /** The nodes along a chain lose height as they go down. */
  lemma {:induction false} ChainDepth(nodes: seq<Tree>)
    requires Chain(nodes) && nodes != []
    ensures Height(nodes[|nodes| - 1]) + |nodes| <= Height(nodes[0]) + 1
    decreases |nodes|
  {
    if |nodes| > 1 {
      var init := nodes[..|nodes| - 1];
      ChainDepth(init);
      assert init[0] == nodes[0];
    }
  }

  /** In an ordered tree the two children of a node are different unless both are `Null`. */
  lemma ChildrenDiffer(p: Tree)
    requires p.Node? && Ordered(p) && (p.left.Node? || p.right.Node?)
    ensures p.left != p.right
  {
    if p.left.Node? {
      assert p.left.key in Keys(p.left);
    } else {
      assert p.right.key in Keys(p.right);
    }
  }

  /** Every key of `keys` is below `k`. */
  predicate Exceeds(keys: set<int>, k: int)
  {
    forall x :: x in keys ==> x < k
  }

  /**
   * `rest` is what follows the subtree `c` of `root` in order: the
   * entries of `root` outside `c` above its key, ascending, and above
   * every key of `c`.
   */
  ghost predicate Follows(rest: seq<(int, Entry)>, root: Tree, c: Tree)
    requires c.Node?
  {
    && Ascending(rest)
    && (forall e :: e in rest ==> Exceeds(Keys(c), e.0))
    && (forall e :: e in rest <==> e in Elements(root) && e !in Elements(c) && e.0 > c.key)
  }

  /** Every key of `keys` is above `k`. */
  predicate Precedes(k: int, keys: set<int>)
  {
    forall x :: x in keys ==> k < x
  }

  /** In `root`, the keys outside the subtree `c` all lie below or above the keys of `c`. */
  ghost predicate Separated(root: Tree, c: Tree)
  {
    forall e :: e in Elements(root) && e !in Elements(c) ==> Exceeds(Keys(c), e.0) || Precedes(e.0, Keys(c))
  }

  /** Separation carries down from a node to its children. */
  lemma SeparatedStep(root: Tree, p: Tree, c: Tree)
    requires p.Node? && Ordered(p) && (c == p.left || c == p.right)
    requires Elements(p) <= Elements(root) && Separated(root, p)
    ensures Elements(c) <= Elements(root) && Separated(root, c)
  {
    KeysOfElements(p.left);
    KeysOfElements(p.right);
    forall e | e in Elements(root) && e !in Elements(c)
      ensures Exceeds(Keys(c), e.0) || Precedes(e.0, Keys(c))
    {
      if e !in Elements(p) {
        assert Exceeds(Keys(p), e.0) || Precedes(e.0, Keys(p));
      }
    }
  }

  /** What the ancestors add is exactly what follows the node in hand in order. */
  lemma {:induction false} RestFacts(above: seq<Tree>, c: Tree)
    requires Chain(above + [c]) && c.Node?
    ensures Elements(c) <= Elements((above + [c])[0]) && Separated((above + [c])[0], c)
    ensures Follows(Rest(above, c), (above + [c])[0], c)
    decreases |above|
  {
    var root := (above + [c])[0];
    if above != [] {
      var p, up := above[|above| - 1], above[..|above| - 1];
      assert (above + [c])[..|above|] == up + [p] && (above + [c])[|above|] == c;
      RestFacts(up, p);
      assert (up + [p])[0] == root;
      ChildrenDiffer(p);
      SeparatedStep(root, p, c);
      if c == p.right {
        RestRight(Rest(up, p), root, p, c);
      } else {
        RestLeft(Rest(up, p), root, p, c);
      }
    }
  }

  /** Going up from a right child adds nothing. */
  lemma RestRight(rest: seq<(int, Entry)>, root: Tree, p: Tree, c: Tree)
    requires p.Node? && Ordered(p) && c.Node? && c == p.right
    requires Elements(p) <= Elements(root) && Follows(rest, root, p)
    ensures Elements(c) <= Elements(root) && Follows(rest, root, c)
  {
    KeysOfElements(p.left);
    KeysOfElements(p.right);
    assert c.key in Keys(c);
    forall e | e in Elements(root) && e !in Elements(c) && e.0 > c.key
      ensures e in rest
    {
    }
  }

  /** Going up from a left child adds the parent and its right subtree, in front. */
  lemma RestLeft(rest: seq<(int, Entry)>, root: Tree, p: Tree, c: Tree)
    requires p.Node? && Ordered(p) && c.Node? && c == p.left
    requires Elements(p) <= Elements(root) && Separated(root, p) && Follows(rest, root, p)
    ensures Follows([(p.key, p.value)] + InOrder(p.right) + rest, root, c)
  {
    RestLeftOrder(rest, p);
    RestLeftMembers(rest, root, p, c);
  }

  /** The order half of `RestLeft`. */
  lemma RestLeftOrder(rest: seq<(int, Entry)>, p: Tree)
    requires p.Node? && Ordered(p) && p.left.Node?
    requires Ascending(rest) && forall e :: e in rest ==> Exceeds(Keys(p), e.0)
    ensures Ascending([(p.key, p.value)] + InOrder(p.right) + rest)
    ensures forall e :: e in [(p.key, p.value)] + InOrder(p.right) + rest ==> Exceeds(Keys(p.left), e.0)
  {
    var here := [(p.key, p.value)] + InOrder(p.right);
    KeysOfElements(p.right);
    InOrderElements(p.right);
    InOrderAscending(p.right);
    AscendingJoin([(p.key, p.value)], InOrder(p.right));
    forall x, y | x in here && y in rest
      ensures x.0 < y.0
    {
      assert x.0 in Keys(p);
    }
    AscendingJoin(here, rest);
  }

  /** The membership half of `RestLeft`. */
  lemma RestLeftMembers(rest: seq<(int, Entry)>, root: Tree, p: Tree, c: Tree)
    requires p.Node? && Ordered(p) && c.Node? && c == p.left
    requires Elements(p) <= Elements(root) && Separated(root, p)
    requires forall e :: e in rest <==> e in Elements(root) && e !in Elements(p) && e.0 > p.key
    ensures forall e :: e in [(p.key, p.value)] + InOrder(p.right) + rest <==>
      e in Elements(root) && e !in Elements(c) && e.0 > c.key
  {
    forall e | e in [(p.key, p.value)] + InOrder(p.right) + rest
      ensures e in Elements(root) && e !in Elements(c) && e.0 > c.key
    {
      LeftFollower(rest, root, p, e);
    }
    forall e | e in Elements(root) && e !in Elements(c) && e.0 > c.key
      ensures e in [(p.key, p.value)] + InOrder(p.right) + rest
    {
      LeftFollowerListed(rest, root, p, e);
    }
  }

  lemma LeftFollower(rest: seq<(int, Entry)>, root: Tree, p: Tree, e: (int, Entry))
    requires p.Node? && Ordered(p) && p.left.Node?
    requires Elements(p) <= Elements(root)
    requires forall e :: e in rest ==> e in Elements(root) && e !in Elements(p) && e.0 > p.key
    requires e in [(p.key, p.value)] + InOrder(p.right) + rest
    ensures e in Elements(root) && e !in Elements(p.left) && e.0 > p.left.key
  {
    KeysOfElements(p.left);
    assert p.left.key in Keys(p.left);
    if e in rest {
    } else if e in InOrder(p.right) {
      InOrderElements(p.right);
      KeysOfElements(p.right);
      assert e.0 in Keys(p.right);
    } else {
      assert e == (p.key, p.value);
    }
  }

  lemma LeftFollowerListed(rest: seq<(int, Entry)>, root: Tree, p: Tree, e: (int, Entry))
    requires p.Node? && Ordered(p) && p.left.Node? && Separated(root, p)
    requires forall e :: e in Elements(root) && e !in Elements(p) && e.0 > p.key ==> e in rest
    requires e in Elements(root) && e !in Elements(p.left) && e.0 > p.left.key
    ensures e in [(p.key, p.value)] + InOrder(p.right) + rest
  {
    if e in Elements(p) {
      InOrderElements(p.right);
      assert e in InOrder(p.right) || e == (p.key, p.value);
    } else {
      KeysOfElements(p.left);
      assert p.left.key in Keys(p.left) && p.left.key in Keys(p) && p.key in Keys(p);
      assert Exceeds(Keys(p), e.0) || Precedes(e.0, Keys(p));
      assert e in rest;
    }
  }

  /**
   * The entries still to visit from a chain are exactly the root's
   * entries from the node in hand's key on, in ascending order.
   */
  lemma PendingFacts(above: seq<Tree>, top: Tree)
    requires Chain(above + [top]) && top.Node?
    ensures Ascending(Pending(above, top))
    ensures forall e :: e in Pending(above, top) <==> e in Elements((above + [top])[0]) && e.0 >= top.key
  {
    var root := (above + [top])[0];
    assert (above + [top])[..|above|] == above;
    assert Ordered(top);
    ChainFirst(above + [top]);
    RestFacts(above, top);
    PendingOrder(Rest(above, top), top);
    PendingMembers(Rest(above, top), root, top);
  }

  /** The order half of `PendingFacts`. */
  lemma PendingOrder(rest: seq<(int, Entry)>, top: Tree)
    requires top.Node? && Ordered(top)
    requires Ascending(rest) && forall e :: e in rest ==> Exceeds(Keys(top), e.0)
    ensures Ascending([(top.key, top.value)] + InOrder(top.right) + rest)
  {
    InOrderElements(top.right);
    InOrderAscending(top.right);
    KeysOfElements(top.right);
    var head := [(top.key, top.value)] + InOrder(top.right);
    AscendingJoin([(top.key, top.value)], InOrder(top.right));
    forall x, y | x in head && y in rest
      ensures x.0 < y.0
    {
      assert x.0 in Keys(top);
    }
    AscendingJoin(head, rest);
  }

  /** The membership half of `PendingFacts`. */
  lemma PendingMembers(rest: seq<(int, Entry)>, root: Tree, top: Tree)
    requires top.Node? && Ordered(root) && Ordered(top) && Elements(top) <= Elements(root)
    requires forall e :: e in rest <==> e in Elements(root) && e !in Elements(top) && e.0 > top.key
    ensures forall e :: e in [(top.key, top.value)] + InOrder(top.right) + rest <==> e in Elements(root) && e.0 >= top.key
  {
    InOrderElements(top.right);
    KeysOfElements(top.left);
    KeysOfElements(top.right);
    assert (top.key, top.value) in Elements(top);
    forall e | e in Elements(root) && e.0 >= top.key
      ensures e in [(top.key, top.value)] + InOrder(top.right) + rest
    {
      if e in Elements(top) {
        assert e !in Elements(top.left);
      } else if e.0 == top.key {
        ElementsFunctional(root, top.key, e.1, top.value);
      }
    }
  }

  // ---------------------------------------------------------------------
  // How the stack operations move the pending sequence.

  /** What follows once the node in hand and its right subtree are done. */
  function After(nodes: seq<Tree>): seq<(int, Entry)>
    requires nodes != []
  {
    Rest(nodes[..|nodes| - 1], nodes[|nodes| - 1])
  }

  /** A chain grows by a child of its last node. */
  lemma ChainExtend(nodes: seq<Tree>, child: Tree)
    requires Chain(nodes) && nodes != [] && child.Node?
    requires child == nodes[|nodes| - 1].left || child == nodes[|nodes| - 1].right
    ensures Chain(nodes + [child])
  {
    var last := nodes[|nodes| - 1];
    assert Ordered(last);
    assert (nodes + [child])[..|nodes|] == nodes;
  }

  /** Going down to the left child: the left child's subtree moves from before the pending entries into them. */
  lemma {:induction false} PendingLeft(nodes: seq<Tree>, l: Tree)
    requires Chain(nodes) && nodes != [] && l.Node? && l == nodes[|nodes| - 1].left
    ensures InOrder(l.left) + PendingOf(nodes + [l]) == InOrder(l) + PendingOf(nodes)
  {
    var c := nodes[|nodes| - 1];
    assert Ordered(c);
    ChildrenDiffer(c);
    assert (nodes + [l])[..|nodes|] == nodes;
    assert Rest(nodes, l) == PendingOf(nodes);
  }

  /** Going down to the right child drops the node in hand from the pending entries and puts back the part left of the new node. */
  lemma {:induction false} PendingRight(nodes: seq<Tree>, r: Tree)
    requires Chain(nodes) && nodes != [] && r.Node? && r == nodes[|nodes| - 1].right
    ensures InOrder(r.left) + PendingOf(nodes + [r]) == PendingOf(nodes)[1..]
  {
    assert (nodes + [r])[..|nodes|] == nodes;
    assert Rest(nodes, r) == After(nodes);
  }

  /** The pending entries: the node in hand, its right subtree, then what follows. */
  lemma PendingSplit(nodes: seq<Tree>)
    requires nodes != [] && nodes[|nodes| - 1].Node?
    ensures PendingOf(nodes) == [(nodes[|nodes| - 1].key, nodes[|nodes| - 1].value)] + InOrder(nodes[|nodes| - 1].right) + After(nodes)
  {
  }

  /** Going up from a right child leaves what follows unchanged. */
  lemma AfterUp(nodes: seq<Tree>)
    requires |nodes| >= 2 && nodes[|nodes| - 2].Node? && nodes[|nodes| - 2].right == nodes[|nodes| - 1]
    ensures After(nodes[..|nodes| - 1]) == After(nodes)
  {
    assert nodes[..|nodes| - 1][..|nodes| - 2] == nodes[..|nodes| - 2];
  }

  /** Going up from a left child makes the parent the next entry. */
  lemma AfterStop(nodes: seq<Tree>)
    requires |nodes| >= 2 && nodes[|nodes| - 2].Node? && nodes[|nodes| - 2].right != nodes[|nodes| - 1]
    ensures PendingOf(nodes[..|nodes| - 1]) == After(nodes)
  {
    assert nodes[..|nodes| - 1][..|nodes| - 2] == nodes[..|nodes| - 2];
  }
  /** One step of the walk down to the leftmost node: the chain grows by the left child, and the pending entries take in the left subtree. */
  lemma DescendStep(nodes: seq<Tree>, l: Tree)
    requires Chain(nodes) && nodes != [] && l.Node? && l == nodes[|nodes| - 1].left
    ensures Chain(nodes + [l]) && (nodes + [l])[0] == nodes[0] && |nodes| < Height(nodes[0])
    ensures Height(l) < Height(nodes[|nodes| - 1])
    ensures InOrder(l.left) + PendingOf(nodes + [l]) == InOrder(nodes[|nodes| - 1].left) + PendingOf(nodes)
  {
    ChainDepth(nodes);
    ChainExtend(nodes, l);
    PendingLeft(nodes, l);
  }

  /** One step of the climb: leaving a right child keeps the chain and what follows. */
  lemma AscendStep(nodes: seq<Tree>)
    requires Chain(nodes) && |nodes| >= 2 && RightOf(nodes[|nodes| - 2]) == nodes[|nodes| - 1]
    ensures Chain(nodes[..|nodes| - 1]) && nodes[..|nodes| - 1][0] == nodes[0]
    ensures nodes[|nodes| - 2].Node? && After(nodes[..|nodes| - 1]) == After(nodes)
  {
    ChainPrefix(nodes, |nodes| - 1);
    ChainLast(nodes[..|nodes| - 1]);
    AfterUp(nodes);
  }

  /** The end of the climb: leaving a left child makes its parent the node in hand. */
  lemma AscendStop(nodes: seq<Tree>)
    requires Chain(nodes) && |nodes| >= 2 && RightOf(nodes[|nodes| - 2]) != nodes[|nodes| - 1]
    ensures Chain(nodes[..|nodes| - 1]) && nodes[..|nodes| - 1][0] == nodes[0]
    ensures PendingOf(nodes[..|nodes| - 1]) == After(nodes)
  {
    ChainPrefix(nodes, |nodes| - 1);
    ChainLast(nodes[..|nodes| - 1]);
    AfterStop(nodes);
  }
  /**
   * The step to the in-order successor: through the right child when there
   * is one, else past the right subtree; either way the pending entries lose
   * their first one.
   */
  lemma NextStep(nodes: seq<Tree>)
    requires Chain(nodes) && nodes != []
    ensures PendingOf(nodes) != []
    ensures var r := nodes[|nodes| - 1].right;
            r.Node? ==> && Chain(nodes + [r]) && (nodes + [r])[0] == nodes[0] && |nodes| < Height(nodes[0])
                        && InOrder(r.left) + PendingOf(nodes + [r]) == PendingOf(nodes)[1..]
    ensures nodes[|nodes| - 1].right.Null? ==> After(nodes) == PendingOf(nodes)[1..]
  {
    var last := nodes[|nodes| - 1];
    ChainLast(nodes);
    PendingSplit(nodes);
    if last.right.Node? {
      ChainDepth(nodes);
      ChainExtend(nodes, last.right);
      PendingRight(nodes, last.right);
    }
  }
}
