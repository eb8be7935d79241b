/**
 * The shape of the storage engine's red-black trees
 * (src/main/java/com/readytalk/revori/imp/Node.java): nodes, the
 * properties a well-formed tree keeps, and the path from the root down
 * to a position, which the insertion and deletion walks keep on their
 * stack.  Keys are integers in their natural order.
 */
module Trees {

  /** What a node maps its key to: the tree of the next level down, or a column value. */
  datatype Entry = Nested(tree: Tree) | Datum(datum: int)

  /**
   * A node, or the shared `Null` sentinel.  A node with the same key,
   * value, children and colour is the same node here.
   */
  datatype Tree = Null | Node(red: bool, left: Tree, key: int, value: Entry, right: Tree)

  predicate IsRed(t: Tree)
  {
    t.Node? && t.red
  }

  function Keys(t: Tree): set<int>
  {
    match t
    case Null => {}
    case Node(_, left, key, _, right) => Keys(left) + {key} + Keys(right)
  }

  /** The (key, value) pairs a tree holds. */
  function Elements(t: Tree): set<(int, Entry)>
  {
    match t
    case Null => {}
    case Node(_, left, key, value, right) => Elements(left) + {(key, value)} + Elements(right)
  }

  /** A search tree: every key of the left subtree is below the node's key, every key of the right one above. */
  predicate Ordered(t: Tree)
  {
    match t
    case Null => true
    case Node(_, left, key, _, right) =>
      && Ordered(left) && Ordered(right)
      && (forall x :: x in Keys(left) ==> x < key)
      && (forall x :: x in Keys(right) ==> key < x)
  }

  /** No red node has a red child. */
  predicate NoRedRed(t: Tree)
  {
    match t
    case Null => true
    case Node(red, left, _, _, right) =>
      && (red ==> !IsRed(left) && !IsRed(right))
      && NoRedRed(left) && NoRedRed(right)
  }

  /** The number of black nodes on the leftmost path. */
  function BlackHeight(t: Tree): nat
  {
    match t
    case Null => 0
    case Node(red, left, _, _, _) => BlackHeight(left) + (if red then 0 else 1)
  }

  /** Every path from a node down to `Null` passes the same number of black nodes. */
  predicate Balanced(t: Tree)
  {
    match t
    case Null => true
    case Node(_, left, _, _, right) =>
      Balanced(left) && Balanced(right) && BlackHeight(left) == BlackHeight(right)
  }

  /** A well-formed tree: ordered, red-black, with a black root. */
  predicate RedBlack(t: Tree)
  {
    Ordered(t) && NoRedRed(t) && Balanced(t) && !IsRed(t)
  }

  /** The binary search the lookups make. */
  function Search(t: Tree, key: int): Tree
  {
    match t
    case Null => Null
    case Node(_, left, k, _, right) =>
      if key < k then Search(left, key) else if key > k then Search(right, key) else t
  }

  lemma {:induction false} SearchFinds(t: Tree, key: int)
    requires Ordered(t)
    ensures Search(t, key).Null? <==> key !in Keys(t)
    ensures Search(t, key).Node? ==> Search(t, key).key == key && (key, Search(t, key).value) in Elements(t)
  {
    match t
    case Null =>
    case Node(_, left, k, _, right) =>
      if key < k {
        SearchFinds(left, key);
        KeysOfElements(left);
      } else if key > k {
        SearchFinds(right, key);
        KeysOfElements(right);
      }
  }

  lemma {:induction false} KeysOfElements(t: Tree)
    ensures forall k, v :: (k, v) in Elements(t) ==> k in Keys(t)
    ensures forall k :: k in Keys(t) ==> exists v :: (k, v) in Elements(t)
  {
    match t
    case Null =>
    case Node(_, left, key, value, right) =>
      KeysOfElements(left);
      KeysOfElements(right);
      assert (key, value) in Elements(t);
  }

  /** In a search tree a key has one value. */
  lemma {:induction false} ElementsFunctional(t: Tree, k: int, v: Entry, w: Entry)
    requires Ordered(t) && (k, v) in Elements(t) && (k, w) in Elements(t)
    ensures v == w
  {
    match t
    case Null =>
    case Node(_, left, key, value, right) =>
      KeysOfElements(left);
      KeysOfElements(right);
      if (k, v) in Elements(left) && (k, w) in Elements(left) {
        ElementsFunctional(left, k, v, w);
      } else if (k, v) in Elements(right) && (k, w) in Elements(right) {
        ElementsFunctional(right, k, v, w);
      }
  }

  /** One step of a path: the node left behind, which way the walk went, and the other child. */
  datatype Frame = Frame(red: bool, goLeft: bool, key: int, value: Entry, sibling: Tree)

  /** The node a frame stands for, with `t` back in the place the walk went down to. */
  function Attach(f: Frame, t: Tree): Tree
  {
    if f.goLeft then Node(f.red, t, f.key, f.value, f.sibling)
    else Node(f.red, f.sibling, f.key, f.value, t)
  }

  /** The whole tree: `t` put back at the bottom of `path`, whose first frame is the root. */
  function Plug(t: Tree, path: seq<Frame>): Tree
    decreases |path|
  {
    if path == [] then t else Plug(Attach(path[|path| - 1], t), path[..|path| - 1])
  }

  function PathElements(path: seq<Frame>): set<(int, Entry)>
    decreases |path|
  {
    if path == [] then {}
    else
      var f := path[|path| - 1];
      PathElements(path[..|path| - 1]) + {(f.key, f.value)} + Elements(f.sibling)
  }

  function PathKeys(path: seq<Frame>): set<int>
    decreases |path|
  {
    if path == [] then {}
    else
      var f := path[|path| - 1];
      PathKeys(path[..|path| - 1]) + {f.key} + Keys(f.sibling)
  }

  /** Key `x` lies in the range of the position at the bottom of `path`. */
  predicate Fits(path: seq<Frame>, x: int)
    decreases |path|
  {
    if path == [] then true
    else
      var f := path[|path| - 1];
      (if f.goLeft then x < f.key else f.key < x) && Fits(path[..|path| - 1], x)
  }

  predicate AllFit(path: seq<Frame>, keys: set<int>)
  {
    forall x :: x in keys ==> Fits(path, x)
  }

  /** Each frame's key and other child lie in the range its position allows, in search order. */
  predicate PathOrdered(path: seq<Frame>)
    decreases |path|
  {
    if path == [] then true
    else
      var f := path[|path| - 1];
      var init := path[..|path| - 1];
      && Ordered(f.sibling)
      && Fits(init, f.key)
      && AllFit(init, Keys(f.sibling))
      && (forall y :: y in Keys(f.sibling) ==> if f.goLeft then f.key < y else y < f.key)
      && PathOrdered(init)
  }

  /** No red frame has a red child; `childRed` is the colour of what hangs at the bottom. */
  predicate PathNoRedRed(path: seq<Frame>, childRed: bool)
    decreases |path|
  {
    if path == [] then true
    else
      var f := path[|path| - 1];
      && NoRedRed(f.sibling)
      && (f.red ==> !childRed && !IsRed(f.sibling))
      && PathNoRedRed(path[..|path| - 1], f.red)
  }

  /** Every other child along the path is balanced with the black height of the bottom, counted up. */
  predicate PathBalanced(path: seq<Frame>, height: nat)
    decreases |path|
  {
    if path == [] then true
    else
      var f := path[|path| - 1];
      && Balanced(f.sibling)
      && BlackHeight(f.sibling) == height
      && PathBalanced(path[..|path| - 1], height + (if f.red then 0 else 1))
  }

  lemma {:induction false} PlugElements(t: Tree, path: seq<Frame>)
    ensures Elements(Plug(t, path)) == Elements(t) + PathElements(path)
    ensures Keys(Plug(t, path)) == Keys(t) + PathKeys(path)
    decreases |path|
  {
    if path != [] {
      PlugElements(Attach(path[|path| - 1], t), path[..|path| - 1]);
    }
  }

  lemma AttachContents(f: Frame, t: Tree)
    ensures Keys(Attach(f, t)) == Keys(t) + {f.key} + Keys(f.sibling)
    ensures Elements(Attach(f, t)) == Elements(t) + {(f.key, f.value)} + Elements(f.sibling)
  {
  }

  /** One step up a sound path keeps it sound. */
  lemma UpOrdered(t: Tree, path: seq<Frame>)
    requires path != []
    requires Ordered(t) && AllFit(path, Keys(t)) && PathOrdered(path)
    ensures Ordered(Attach(path[|path| - 1], t))
    ensures AllFit(path[..|path| - 1], Keys(Attach(path[|path| - 1], t)))
    ensures PathOrdered(path[..|path| - 1])
  {
    AttachContents(path[|path| - 1], t);
  }

  lemma {:induction false} PlugOrdered(t: Tree, path: seq<Frame>)
    requires Ordered(t) && AllFit(path, Keys(t)) && PathOrdered(path)
    ensures Ordered(Plug(t, path))
    decreases |path|
  {
    if path != [] {
      UpOrdered(t, path);
      PlugOrdered(Attach(path[|path| - 1], t), path[..|path| - 1]);
    }
  }

  lemma {:induction false} PlugNoRedRed(t: Tree, path: seq<Frame>)
    requires NoRedRed(t) && PathNoRedRed(path, IsRed(t))
    ensures NoRedRed(Plug(t, path))
    decreases |path|
  {
    if path != [] {
      PlugNoRedRed(Attach(path[|path| - 1], t), path[..|path| - 1]);
    }
  }

  lemma {:induction false} PlugBalanced(t: Tree, path: seq<Frame>)
    requires Balanced(t) && PathBalanced(path, BlackHeight(t))
    ensures Balanced(Plug(t, path))
    decreases |path|
  {
    if path != [] {
      PlugBalanced(Attach(path[|path| - 1], t), path[..|path| - 1]);
    }
  }

  /** A path's root frame is the colour of the whole tree. */
  lemma {:induction false} PlugRoot(t: Tree, path: seq<Frame>)
    requires path != []
    ensures Plug(t, path).Node? && Plug(t, path).red == path[0].red
    decreases |path|
  {
    if |path| > 1 {
      PlugRoot(Attach(path[|path| - 1], t), path[..|path| - 1]);
    }
  }

  /** Plugging into the end of a path, then into its start, is plugging into the whole. */
  lemma {:induction false} PlugAppend(t: Tree, a: seq<Frame>, b: seq<Frame>)
    ensures Plug(t, a + b) == Plug(Plug(t, b), a)
    decreases |b|
  {
    if b == [] {
      assert a + b == a;
    } else {
      var f := b[|b| - 1];
      assert (a + b)[..|a + b| - 1] == a + b[..|b| - 1];
      PlugAppend(Attach(f, t), a, b[..|b| - 1]);
    }
  }

  lemma {:induction false} UnplugOrdered(t: Tree, path: seq<Frame>)
    requires Ordered(Plug(t, path))
    ensures Ordered(t) && AllFit(path, Keys(t)) && PathOrdered(path)
    decreases |path|
  {
    if path != [] {
      var f := path[|path| - 1];
      UnplugOrdered(Attach(f, t), path[..|path| - 1]);
      assert Keys(Attach(f, t)) == Keys(t) + {f.key} + Keys(f.sibling) || Keys(Attach(f, t)) == Keys(f.sibling) + {f.key} + Keys(t);
    }
  }

  lemma {:induction false} UnplugBalanced(t: Tree, path: seq<Frame>)
    requires Balanced(Plug(t, path))
    ensures Balanced(t) && PathBalanced(path, BlackHeight(t))
    decreases |path|
  {
    if path != [] {
      UnplugBalanced(Attach(path[|path| - 1], t), path[..|path| - 1]);
    }
  }

  lemma {:induction false} UnplugNoRedRed(t: Tree, path: seq<Frame>)
    requires NoRedRed(Plug(t, path))
    ensures NoRedRed(t) && PathNoRedRed(path, IsRed(t))
    decreases |path|
  {
    if path != [] {
      UnplugNoRedRed(Attach(path[|path| - 1], t), path[..|path| - 1]);
    }
  }

  /** A key in the range of the bottom of a path is none of the path's own keys. */
  lemma {:induction false} FitsOutside(path: seq<Frame>, x: int)
    requires Fits(path, x) && PathOrdered(path)
    ensures x !in PathKeys(path)
    decreases |path|
  {
    if path != [] {
      FitsOutside(path[..|path| - 1], x);
    }
  }

  /** Below a path that only goes left, a key in range is below every key of the path. */
  lemma {:induction false} LeftSpineAbove(path: seq<Frame>, x: int)
    requires Fits(path, x) && PathOrdered(path)
    requires forall i :: 0 <= i < |path| ==> path[i].goLeft
    ensures forall y :: y in PathKeys(path) ==> x < y
    decreases |path|
  {
    if path != [] {
      LeftSpineAbove(path[..|path| - 1], x);
    }
  }

  /** Two paths with the same colours and other children, whatever their keys. */
  predicate SameShape(p: seq<Frame>, q: seq<Frame>)
  {
    |p| == |q| && forall i :: 0 <= i < |p| ==> p[i].red == q[i].red && p[i].sibling == q[i].sibling
  }

  lemma {:induction false} SameShapeColours(p: seq<Frame>, q: seq<Frame>, height: nat, childRed: bool)
    requires SameShape(p, q)
    ensures PathBalanced(p, height) == PathBalanced(q, height)
    ensures PathNoRedRed(p, childRed) == PathNoRedRed(q, childRed)
    decreases |p|
  {
    if p != [] {
      var n := |p| - 1;
      assert SameShape(p[..n], q[..n]);
      SameShapeColours(p[..n], q[..n], height + (if p[n].red then 0 else 1), p[n].red);
    }
  }

  /** `leftRotate`: the right child takes the node's place, the node becomes its left child. */
  function RotateLeft(t: Tree): (r: Tree)
    requires t.Node? && t.right.Node?
    ensures Elements(r) == Elements(t) && Keys(r) == Keys(t)
    ensures Ordered(t) ==> Ordered(r)
  {
    var c := t.right;
    var lower := Node(t.red, t.left, t.key, t.value, c.left);
    assert Keys(c) == Keys(c.left) + {c.key} + Keys(c.right);
    assert Keys(lower) == Keys(t.left) + {t.key} + Keys(c.left);
    assert Ordered(t) ==> Ordered(c) && Ordered(lower);
    Node(c.red, lower, c.key, c.value, c.right)
  }

  /** `rightRotate`: the left child takes the node's place, the node becomes its right child. */
  function RotateRight(t: Tree): (r: Tree)
    requires t.Node? && t.left.Node?
    ensures Elements(r) == Elements(t) && Keys(r) == Keys(t)
    ensures Ordered(t) ==> Ordered(r)
  {
    var c := t.left;
    var upper := Node(t.red, c.right, t.key, t.value, t.right);
    assert Keys(c) == Keys(c.left) + {c.key} + Keys(c.right);
    assert Keys(upper) == Keys(c.right) + {t.key} + Keys(t.right);
    assert Ordered(t) ==> Ordered(c) && Ordered(upper);
    Node(c.red, c.left, c.key, c.value, upper)
  }

  /** A node with its colour set; painting the sentinel leaves it as it is. */
  function Paint(t: Tree, red: bool): (r: Tree)
    ensures Elements(r) == Elements(t) && Keys(r) == Keys(t)
    ensures Ordered(r) == Ordered(t) && Balanced(r) == Balanced(t)
    ensures !red && NoRedRed(t) ==> NoRedRed(r)
    ensures t.Node? ==> IsRed(r) == red && BlackHeight(r) == BlackHeight(t.left) + (if red then 0 else 1)
  {
    if t.Node? then t.(red := red) else t
  }
}
