/**
 * The operations of src/main/java/com/readytalk/revori/imp/Node.java on
 * the trees of module Trees: lookup, the lookup along a path of nested
 * trees, insertion (`blaze`), deletion and the consistency check
 * (`validate`).  Nodes are copied before they are changed, so a tree
 * reachable from an old root never changes; here trees are values, and
 * every operation returns the new root.
 */
module Nodes {
  import opened Wire
  import opened Trees
  import opened Rebalance

  /** `find`: the binary search down from `n`, `Null` when the key is missing. */
  method Find(n: Tree, key: int) returns (r: Tree)
    ensures r == Search(n, key)
    ensures Ordered(n) ==> (r.Null? <==> key !in Keys(n))
    ensures Ordered(n) && r.Node? ==> r.key == key && (key, r.value) in Elements(n)
  {
    r := n;
    while r.Node?
      invariant Search(n, key) == Search(r, key)
      decreases r
    {
      if key < r.key {
        r := r.left;
      } else if key > r.key {
        r := r.right;
      } else {
        break;
      }
    }
    if Ordered(n) {
      SearchFinds(n, key);
    }
  }

  /** What a node's `value` field holds; the sentinel's is the sentinel itself. */
  function ValueOf(n: Tree): Entry
  {
    if n.Null? then Nested(Null) else n.value
  }

  /** How a walk along nested trees ends: at a node, or at a value that is not a tree (a `ClassCastException`). */
  datatype Reached = Reached(node: Tree) | NotATree

  /** The walk `pathFind` makes: look each key up in the tree the previous key led to, stopping at `Null`. */
  function Walk(root: Tree, keys: seq<int>): Reached
    decreases |keys|
  {
    if keys == [] || root.Null? then Reached(root)
    else
      match ValueOf(Search(root, keys[0]))
      case Nested(t) => Walk(t, keys[1..])
      case Datum(_) => NotATree
  }

  /** `pathFind`. */
  method PathFind(root: Tree, keys: seq<int>) returns (r: Reached)
    ensures r == Walk(root, keys)
  {
    var n := root;
    var i := 0;
    while i < |keys| && n.Node?
      invariant 0 <= i <= |keys|
      invariant Walk(root, keys) == Walk(n, keys[i..])
    {
      var found := Find(n, keys[i]);
      match ValueOf(found)
      case Datum(_) =>
        return NotATree;
      case Nested(t) =>
        assert keys[i..][1..] == keys[i + 1..];
        n := t;
      i := i + 1;
    }
    return Reached(n);
  }

  /** A walk along a longer path goes on from wherever the shorter one ended. */
  lemma {:induction false} WalkAppend(root: Tree, keys: seq<int>, more: seq<int>)
    ensures Walk(root, keys + more) == (match Walk(root, keys)
                                        case Reached(t) => Walk(t, more)
                                        case NotATree => NotATree)
    decreases |keys|
  {
    if keys == [] {
      assert keys + more == more;
    } else if root.Node? {
      assert (keys + more)[0] == keys[0] && (keys + more)[1..] == keys[1..] + more;
      match ValueOf(Search(root, keys[0]))
      case Nested(t) => WalkAppend(t, keys[1..], more);
      case Datum(_) =>
    } else {
      WalkNull(keys + more);
      WalkNull(more);
    }
  }

  lemma WalkNull(keys: seq<int>)
    ensures Walk(Null, keys) == Reached(Null)
  {
  }

  /** One step of the walk in a search tree: a nested tree of the key, `Null` for a missing key, or a failed cast. */
  lemma WalkStep(root: Tree, key: int)
    requires Ordered(root) && root.Node?
    ensures key !in Keys(root) ==> Walk(root, [key]) == Reached(Null)
    ensures Walk(root, [key]).Reached? && Walk(root, [key]).node.Node? ==> (key, Nested(Walk(root, [key]).node)) in Elements(root)
    ensures Walk(root, [key]).NotATree? ==> exists d :: (key, Datum(d)) in Elements(root)
  {
    SearchFinds(root, key);
    assert [key][1..] == [];
    var n := Search(root, key);
    if n.Node? && n.value.Nested? {
      assert Walk(root, [key]) == Walk(n.value.tree, []);
    }
  }

  /** What `blaze` ends in: a `NullPointerException` for a null key, or the new root and the key's node's value. */
  datatype Blazed = NullKey | Blazed(root: Tree, entry: Entry)

  /**
   * `blaze`: find the key's node, or add one holding `Null` and rebalance.
   * The descent keeps the nodes above on a stack; rebalancing works up it,
   * recolouring while the uncle is red and finishing with one or two
   * rotations otherwise; the root ends black.
   */
  method Blaze(root: Tree, key: Option<int>) returns (r: Blazed)
    requires RedBlack(root)
    ensures r.NullKey? <==> key.None?
    ensures r.Blazed? ==> RedBlack(r.root)
    ensures r.Blazed? ==> Elements(r.root) == Elements(root) + {(key.value, r.entry)}
    ensures r.Blazed? ==> Search(r.root, key.value).Node? && Search(r.root, key.value).value == r.entry
    ensures r.Blazed? && key.value in Keys(root) ==> r.root == root
    ensures r.Blazed? && key.value !in Keys(root) ==> r.entry == Nested(Null)
  {
    if key.None? {
      return NullKey;
    }
    var k := key.value;
    var t, path := Descend(root, k);
    if t.Node? {
      Located(root, t, path, k);
      return Blazed(root, t.value);
    }
    Absent(root, path, k);
    var newRoot := Repair(Node(true, Null, k, Nested(Null), Null), path);
    Inserted(root, newRoot, k);
    return Blazed(newRoot, Nested(Null));
  }

  /**
   * The descent of `blaze` and `delete`: from the root towards the key,
   * each node passed kept on the path, until the key's node or `Null`.
   */
  method Descend(root: Tree, k: int) returns (t: Tree, path: seq<Frame>)
    ensures Plug(t, path) == root && Fits(path, k)
    ensures t.Node? ==> t.key == k
  {
    path := [];
    t := root;
    while t.Node?
      invariant Plug(t, path) == root && Fits(path, k)
      decreases t
    {
      if k < t.key {
        var f := Frame(t.red, true, t.key, t.value, t.right);
        assert (path + [f])[..|path|] == path;
        path := path + [f];
        t := t.left;
      } else if k > t.key {
        var f := Frame(t.red, false, t.key, t.value, t.left);
        assert (path + [f])[..|path|] == path;
        path := path + [f];
        t := t.right;
      } else {
        return;
      }
    }
  }

  /**
   * The rebalancing loop of `blaze`: while the node in hand and its parent
   * are both red, recolour (red uncle) and move up two, or rotate once or
   * twice (black uncle) and stop; then paint the root black.
   */
  method Repair(node: Tree, above: seq<Frame>) returns (newRoot: Tree)
    requires Fixing(node, above)
    ensures RedBlack(newRoot)
    ensures Elements(newRoot) == Elements(node) + PathElements(above)
  {
    var focus, path := node, above;
    while IsRed(focus) && path != [] && path[|path| - 1].red
      invariant Fixing(focus, path)
      invariant Elements(focus) + PathElements(path) == Elements(node) + PathElements(above)
      decreases |path|
    {
      focus, path := RepairStep(focus, path);
    }
    FixingDone(focus, path);
    newRoot := Paint(Plug(focus, path), false);
  }

  /** One turn of that loop, with the red node's parent at the end of the path. */
  method RepairStep(focus: Tree, path: seq<Frame>) returns (focus': Tree, path': seq<Frame>)
    requires Fixing(focus, path) && IsRed(focus) && path != [] && path[|path| - 1].red
    ensures Fixing(focus', path') && |path'| < |path|
    ensures Elements(focus') + PathElements(path') == Elements(focus) + PathElements(path)
  {
    var p := path[|path| - 1];
    assert |path| >= 2;
    var g := path[|path| - 2];
    if IsRed(g.sibling) {
      RecolorStep(focus, path);
      focus' := Attach(g.(red := true, sibling := Paint(g.sibling, false)), Attach(p.(red := false), focus));
      path' := path[..|path| - 2];
    } else if g.goLeft {
      focus', path' := focus, path;
      if !p.goLeft {
        LeftInner(focus, path);
        var n := RotateLeft(Attach(p, focus));
        focus' := n.left;
        p := Frame(n.red, true, n.key, n.value, n.right);
        path' := path[..|path| - 1] + [p];
        assert path'[|path'| - 2] == g && path'[..|path'| - 2] == path[..|path| - 2];
      }
      LeftOuter(focus', path');
      focus' := RotateRight(Attach(g.(red := true), Attach(p.(red := false), focus')));
      path' := path'[..|path'| - 2];
    } else {
      focus', path' := focus, path;
      if p.goLeft {
        RightInner(focus, path);
        var n := RotateRight(Attach(p, focus));
        focus' := n.right;
        p := Frame(n.red, false, n.key, n.value, n.left);
        path' := path[..|path| - 1] + [p];
        assert path'[|path'| - 2] == g && path'[..|path'| - 2] == path[..|path| - 2];
      }
      RightOuter(focus', path');
      focus' := RotateLeft(Attach(g.(red := true), Attach(p.(red := false), focus')));
      path' := path'[..|path'| - 2];
    }
  }

  /** The descent stopped at the key's node: it is the one the search finds. */
  lemma Located(root: Tree, t: Tree, path: seq<Frame>, k: int)
    requires Plug(t, path) == root && Fits(path, k) && t.Node? && t.key == k
    ensures k in Keys(root) && (k, t.value) in Elements(root)
    ensures Search(root, k) == t
  {
    PlugElements(t, path);
    SearchPlug(t, path, k);
  }

  lemma {:induction false} SearchPlug(t: Tree, path: seq<Frame>, k: int)
    requires Fits(path, k)
    ensures Search(Plug(t, path), k) == Search(t, k)
    decreases |path|
  {
    if path != [] {
      SearchPlug(Attach(path[|path| - 1], t), path[..|path| - 1], k);
    }
  }

  /** The descent of a red-black tree reached `Null`: the key is missing, and a red node there starts the repair. */
  lemma Absent(root: Tree, path: seq<Frame>, k: int)
    requires RedBlack(root) && Plug(Null, path) == root && Fits(path, k)
    ensures k !in Keys(root)
    ensures Fixing(Node(true, Null, k, Nested(Null), Null), path)
    ensures Elements(Node(true, Null, k, Nested(Null), Null)) + PathElements(path) == Elements(root) + {(k, Nested(Null))}
  {
    UnplugOrdered(Null, path);
    UnplugBalanced(Null, path);
    UnplugNoRedRed(Null, path);
    PlugElements(Null, path);
    FitsOutside(path, k);
    if path != [] {
      PlugRoot(Null, path);
    }
  }

  /** The new root holds the key, with the fresh node's value. */
  lemma Inserted(root: Tree, newRoot: Tree, k: int)
    requires Ordered(newRoot) && Elements(newRoot) == Elements(root) + {(k, Nested(Null))}
    ensures Search(newRoot, k).Node? && Search(newRoot, k).value == Nested(Null)
  {
    KeysOfElements(newRoot);
    SearchFinds(newRoot, k);
    ElementsFunctional(newRoot, k, Search(newRoot, k).value, Nested(Null));
  }

  /** The elements of `s` under keys other than `k`. */
  function Without(s: set<(int, Entry)>, k: int): set<(int, Entry)>
  {
    set e | e in s && e.0 != k
  }

  /**
   * `delete`: remove the key's node, or, when it has two children, move
   * its successor's key and value into it and remove the successor's node
   * instead; the removed node's one child takes its place.  Removing a
   * black node leaves its side one black short, which the rebalancing
   * loop repairs.  A missing key leaves the tree as it was.
   */
  method Delete(root: Tree, key: int) returns (r: Tree)
    requires RedBlack(root)
    ensures RedBlack(r)
    ensures Elements(r) == Without(Elements(root), key)
    ensures Keys(r) == Keys(root) - {key}
    ensures Search(r, key).Null?
    ensures key !in Keys(root) ==> r == root
  {
    KeysOfElements(root);
    if root.Null? {
      return root;
    } else if root.left.Null? && root.right.Null? {
      if key == root.key {
        return Null;
      }
      return root;
    }
    var found, path := Descend(root, key);
    if found.Null? {
      Missing(root, path, key);
      SearchFinds(root, key);
      return root;
    }
    Located(root, found, path, key);
    r := Remove(root, found, path, key);
    Removed(root, r, key);
    SearchFinds(r, key);
  }

  /** The removal proper, once the descent has found the key's node. */
  method Remove(root: Tree, found: Tree, path: seq<Frame>, key: int) returns (r: Tree)
    requires RedBlack(root) && Plug(found, path) == root && Fits(path, key) && found.Node? && found.key == key
    ensures RedBlack(r) && Elements(r) == Without(Elements(root), key)
  {
    if found.left.Null? || found.right.Null? {
      RemoveSingle(root, found, path, key);
      var child := if found.left.Node? then found.left else found.right;
      if path == [] {
        ShortDone(child, path);
        return Paint(child, false);
      }
      r := Relinked(child, path, found.red);
    } else {
      var m, spine := Minimum(found.right);
      var f := Frame(found.red, false, found.key, found.value, found.left);
      var above := path + [f] + spine;
      above := above[|path| := f.(key := m.key, value := m.value)];
      assert above == path + [f.(key := m.key, value := m.value)] + spine;
      RemoveSuccessor(root, found, path, key, m, spine);
      r := Relinked(m.right, above, m.red);
    }
  }

  /** The removed node's child linked in its place; only a black node's removal needs the rebalancing loop. */
  method Relinked(child: Tree, above: seq<Frame>, deadRed: bool) returns (r: Tree)
    requires deadRed ==> Sound(child, above) && above != []
    requires !deadRed ==> Short(child, above)
    ensures RedBlack(r) && Elements(r) == Elements(child) + PathElements(above)
  {
    if deadRed {
      SoundDone(child, above);
      r := Plug(child, above);
    } else {
      r := Rebalanced(child, above);
    }
  }

  /** `minimum`: the leftmost node under `t`, with the nodes passed on the way down. */
  method Minimum(t: Tree) returns (m: Tree, spine: seq<Frame>)
    requires t.Node?
    ensures Plug(m, spine) == t && m.Node? && m.left.Null?
    ensures forall i :: 0 <= i < |spine| ==> spine[i].goLeft
  {
    m, spine := t, [];
    while m.left.Node?
      invariant m.Node? && Plug(m, spine) == t
      invariant forall i :: 0 <= i < |spine| ==> spine[i].goLeft
      decreases m
    {
      var f := Frame(m.red, true, m.key, m.value, m.right);
      assert (spine + [f])[..|spine|] == spine;
      spine := spine + [f];
      m := m.left;
    }
  }

  /**
   * The rebalancing loop of `delete`, from the removed node's child up:
   * while that child is black and not the root, handle a red sibling by a
   * rotation, then either recolour the sibling and move up, or rotate
   * once or twice and stop; finally paint the child black.
   */
  method Rebalanced(child: Tree, above: seq<Frame>) returns (newRoot: Tree)
    requires Short(child, above)
    ensures RedBlack(newRoot)
    ensures Elements(newRoot) == Elements(child) + PathElements(above)
  {
    var c, path := child, above;
    while path != [] && !IsRed(c)
      invariant Short(c, path)
      invariant Elements(c) + PathElements(path) == Elements(child) + PathElements(above)
      decreases |path| + (if IsRed(c) then 0 else 1)
    {
      c, path := RebalanceStep(c, path);
    }
    ShortDone(c, path);
    newRoot := Plug(Paint(c, false), path);
  }

  /** One turn of that loop, with the short child's parent at the end of the path. */
  method RebalanceStep(child: Tree, path: seq<Frame>) returns (child': Tree, path': seq<Frame>)
    requires Short(child, path) && !IsRed(child) && path != []
    ensures Short(child', path')
    ensures |path'| + (if IsRed(child') then 0 else 1) < |path| + 1
    ensures Elements(child') + PathElements(path') == Elements(child) + PathElements(path)
  {
    SiblingExists(child, path);
    path' := path;
    if IsRed(path[|path| - 1].sibling) {
      path' := RedSibling(child, path);
    }
    child', path' := Resolve(child, path');
  }

  /** A red sibling turns black and rises above the parent, which turns red; the short child stays short. */
  method RedSibling(child: Tree, path: seq<Frame>) returns (path': seq<Frame>)
    requires Short(child, path) && !IsRed(child) && path != [] && IsRed(path[|path| - 1].sibling)
    ensures Short(child, path') && |path'| == |path| + 1
    ensures path'[|path'| - 1].red && path'[|path'| - 1].goLeft == path[|path| - 1].goLeft
    ensures Elements(child) + PathElements(path') == Elements(child) + PathElements(path)
  {
    var p := path[|path| - 1];
    var s := p.sibling;
    var n: Tree;
    if p.goLeft {
      RedSiblingLeft(child, path);
      n := RotateLeft(Attach(p.(red := true, sibling := Paint(s, false)), child));
      path' := path[..|path| - 1] + [Frame(n.red, true, n.key, n.value, n.right),
                                     Frame(n.left.red, true, n.left.key, n.left.value, n.left.right)];
    } else {
      RedSiblingRight(child, path);
      n := RotateRight(Attach(p.(red := true, sibling := Paint(s, false)), child));
      path' := path[..|path| - 1] + [Frame(n.red, false, n.key, n.value, n.left),
                                     Frame(n.right.red, false, n.right.key, n.right.value, n.right.left)];
    }
  }

  /**
   * A black sibling: with two black children it turns red and the parent
   * becomes the short child; otherwise one or two rotations finish the
   * repair and the whole tree is returned with an empty path.
   */
  method Resolve(child: Tree, path: seq<Frame>) returns (child': Tree, path': seq<Frame>)
    requires Short(child, path) && !IsRed(child) && path != [] && !IsRed(path[|path| - 1].sibling)
    ensures Short(child', path') && |path'| < |path|
    ensures path[|path| - 1].red ==> IsRed(child') || path' == []
    ensures Elements(child') + PathElements(path') == Elements(child) + PathElements(path)
  {
    var p := path[|path| - 1];
    var init := path[..|path| - 1];
    SiblingExists(child, path);
    var s := p.sibling;
    if !IsRed(s.left) && !IsRed(s.right) {
      MoveUp(child, path);
      child' := Attach(p.(sibling := Paint(s, true)), child);
      path' := init;
    } else {
      child' := Rotate(child, path);
      path' := [];
    }
  }

  /**
   * A black sibling with a red child: one or two rotations at the parent
   * finish the repair, and the whole tree is returned.
   */
  method Rotate(child: Tree, path: seq<Frame>) returns (whole: Tree)
    requires Short(child, path) && !IsRed(child) && path != [] && !IsRed(path[|path| - 1].sibling)
    requires path[|path| - 1].sibling.Node?
    requires IsRed(path[|path| - 1].sibling.left) || IsRed(path[|path| - 1].sibling.right)
    ensures Short(whole, [])
    ensures Elements(whole) == Elements(child) + PathElements(path)
  {
    var p := path[|path| - 1];
    var init := path[..|path| - 1];
    var s := p.sibling;
    var n: Tree;
    if p.goLeft {
      FinishLeft(child, path);
      var far := FarRed(s, true);
      n := RotateLeft(Node(false, child, p.key, p.value, far.(red := p.red, right := Paint(far.right, false))));
    } else {
      FinishRight(child, path);
      var far := FarRed(s, false);
      n := RotateRight(Node(false, far.(red := p.red, left := Paint(far.left, false)), p.key, p.value, child));
    }
    Settled(n, init);
    whole := Plug(n, init);
  }

  /** The descent of `delete` reached `Null`: the key is missing, and removing it changes nothing. */
  lemma Missing(root: Tree, path: seq<Frame>, k: int)
    requires Ordered(root) && Plug(Null, path) == root && Fits(path, k)
    ensures k !in Keys(root) && Without(Elements(root), k) == Elements(root)
  {
    UnplugOrdered(Null, path);
    PlugElements(Null, path);
    FitsOutside(path, k);
    KeysOfElements(root);
  }

  lemma {:induction false} PathKeysOfElements(path: seq<Frame>)
    ensures forall k, v :: (k, v) in PathElements(path) ==> k in PathKeys(path)
    decreases |path|
  {
    if path != [] {
      PathKeysOfElements(path[..|path| - 1]);
      KeysOfElements(path[|path| - 1].sibling);
    }
  }

  /** Removing the key from the whole tree leaves the found node's children and the path above it. */
  lemma WithoutFound(root: Tree, found: Tree, path: seq<Frame>, key: int)
    requires Ordered(root) && Plug(found, path) == root && Fits(path, key) && found.Node? && found.key == key
    ensures Without(Elements(root), key) == Elements(found.left) + Elements(found.right) + PathElements(path)
  {
    PlugElements(found, path);
    var rest := Elements(found.left) + Elements(found.right) + PathElements(path);
    RestAvoidsKey(root, found, path, key);
    assert Elements(root) == rest + {(key, found.value)};
    WithoutOne(rest, (key, found.value));
  }

  /** No element of the found node's children or of the path above it has the removed key. */
  lemma RestAvoidsKey(root: Tree, found: Tree, path: seq<Frame>, key: int)
    requires Ordered(root) && Plug(found, path) == root && Fits(path, key) && found.Node? && found.key == key
    ensures forall e :: e in Elements(found.left) ==> e.0 != key
    ensures forall e :: e in Elements(found.right) ==> e.0 != key
    ensures forall e :: e in PathElements(path) ==> e.0 != key
  {
    UnplugOrdered(found, path);
    FitsOutside(path, key);
    assert key !in Keys(found.left) && key !in Keys(found.right);
    ElementsAvoid(found.left, key);
    ElementsAvoid(found.right, key);
    PathElementsAvoid(path, key);
  }

  /** A key a tree does not hold is the key of none of its elements. */
  lemma ElementsAvoid(t: Tree, key: int)
    requires key !in Keys(t)
    ensures forall e :: e in Elements(t) ==> e.0 != key
  {
    forall e | e in Elements(t)
      ensures e.0 != key
    {
      ElementKey(t, e);
    }
  }

  /** A key a path does not hold is the key of none of its elements. */
  lemma PathElementsAvoid(path: seq<Frame>, key: int)
    requires key !in PathKeys(path)
    ensures forall e :: e in PathElements(path) ==> e.0 != key
  {
    PathKeysOfElements(path);
    forall e | e in PathElements(path)
      ensures e.0 != key
    {
      assert (e.0, e.1) in PathElements(path);
    }
  }

  lemma WithoutOne(rest: set<(int, Entry)>, x: (int, Entry))
    requires forall e :: e in rest ==> e.0 != x.0
    ensures Without(rest + {x}, x.0) == rest
  {
  }

  lemma ElementKey(t: Tree, e: (int, Entry))
    requires e in Elements(t)
    ensures e.0 in Keys(t)
  {
    KeysOfElements(t);
  }

  /** The node to remove has at most one child: the child takes its place. */
  lemma RemoveSingle(root: Tree, found: Tree, path: seq<Frame>, key: int)
    requires RedBlack(root) && Plug(found, path) == root && Fits(path, key) && found.Node? && found.key == key
    requires found.left.Null? || found.right.Null?
    ensures var child := if found.left.Node? then found.left else found.right;
            && (found.red ==> child.Null? && path != [] && Sound(child, path))
            && (!found.red ==> Short(child, path))
            && Elements(child) + PathElements(path) == Without(Elements(root), key)
  {
    var child := if found.left.Node? then found.left else found.right;
    WithoutFound(root, found, path, key);
    assert Elements(child) == Elements(found.left) + Elements(found.right);
    RemoveSingleShape(root, found, path, key);
  }

  /** The colour and search-tree half of `RemoveSingle`. */
  lemma RemoveSingleShape(root: Tree, found: Tree, path: seq<Frame>, key: int)
    requires RedBlack(root) && Plug(found, path) == root && found.Node?
    requires found.left.Null? || found.right.Null?
    ensures var child := if found.left.Node? then found.left else found.right;
            && (found.red ==> child.Null? && path != [] && Sound(child, path))
            && (!found.red ==> Short(child, path))
  {
    var child := if found.left.Node? then found.left else found.right;
    UnplugOrdered(found, path);
    UnplugBalanced(found, path);
    UnplugNoRedRed(found, path);
    if path != [] {
      PlugRoot(found, path);
    }
    assert Keys(child) <= Keys(found);
    assert AllFit(path, Keys(child));
    if found.red {
      assert child.Null?;
      PathNoRedRedWeaker(path);
      assert Sound(child, path);
    } else {
      assert BlackHeight(child) + 1 == BlackHeight(found);
      assert NoRedRed(Paint(child, false));
      assert Short(child, path);
    }
  }

  /**
   * The node to remove has two children: its successor, the leftmost node
   * of its right subtree, gives it its key and value and is removed in its
   * place, its right child taking that place.
   */
  lemma RemoveSuccessor(root: Tree, found: Tree, path: seq<Frame>, key: int, m: Tree, spine: seq<Frame>)
    requires RedBlack(root) && Plug(found, path) == root && Fits(path, key) && found.Node? && found.key == key
    requires found.left.Node? && found.right.Node?
    requires Plug(m, spine) == found.right && m.Node? && m.left.Null?
    requires forall i :: 0 <= i < |spine| ==> spine[i].goLeft
    ensures var above := path + [Frame(found.red, false, m.key, m.value, found.left)] + spine;
            && (m.red ==> m.right.Null? && Sound(m.right, above))
            && (!m.red ==> Short(m.right, above))
            && Elements(m.right) + PathElements(above) == Without(Elements(root), key)
  {
    var above := path + [Frame(found.red, false, m.key, m.value, found.left)] + spine;
    var child := m.right;
    SuccessorOrdered(root, found, path, key, m, spine);
    SuccessorColours(root, found, path, m, spine);
    if m.red {
      assert Sound(child, above);
    } else {
      assert Short(child, above);
    }
    SuccessorElements(root, found, path, key, m, spine);
  }

  /** The colour half of `RemoveSuccessor`. */
  lemma SuccessorColours(root: Tree, found: Tree, path: seq<Frame>, m: Tree, spine: seq<Frame>)
    requires RedBlack(root) && Plug(found, path) == root && found.Node?
    requires Plug(m, spine) == found.right && m.Node? && m.left.Null?
    ensures var above := path + [Frame(found.red, false, m.key, m.value, found.left)] + spine;
            && Balanced(m.right) && NoRedRed(Paint(m.right, false)) && PathNoRedRed(above, false)
            && PathBalanced(above, BlackHeight(m.right) + (if m.red then 0 else 1))
            && (m.red ==> m.right.Null?)
            && !above[0].red
  {
    var f := Frame(found.red, false, found.key, found.value, found.left);
    var g := f.(key := m.key, value := m.value);
    var above := path + [g] + spine;
    SuccessorPlug(found, path, m, spine);
    Unplugged(m, path + [f] + spine, root);
    SwapColours(path, f, g, spine, BlackHeight(m), m.red);
    assert BlackHeight(m.right) == 0;
    if m.red {
      PathNoRedRedWeaker(above);
    }
  }

  /** Changing one frame's key and value keeps the path's shape. */
  lemma SameShapeSwap(path: seq<Frame>, f: Frame, g: Frame, spine: seq<Frame>)
    requires f.red == g.red && f.sibling == g.sibling
    ensures SameShape(path + [f] + spine, path + [g] + spine)
  {
    var p, q := path + [f] + spine, path + [g] + spine;
    forall i | 0 <= i < |p|
      ensures p[i].red == q[i].red && p[i].sibling == q[i].sibling
    {
      if i < |path| {
        assert p[i] == path[i] == q[i];
      } else if i > |path| {
        assert p[i] == spine[i - |path| - 1] == q[i];
      }
    }
  }

  /** So it keeps the colour and height invariants of the path. */
  lemma SwapColours(path: seq<Frame>, f: Frame, g: Frame, spine: seq<Frame>, height: nat, childRed: bool)
    requires f.red == g.red && f.sibling == g.sibling
    ensures PathBalanced(path + [f] + spine, height) == PathBalanced(path + [g] + spine, height)
    ensures PathNoRedRed(path + [f] + spine, childRed) == PathNoRedRed(path + [g] + spine, childRed)
    ensures (path + [f] + spine)[0].red == (path + [g] + spine)[0].red
  {
    SameShapeSwap(path, f, g, spine);
    SameShapeColours(path + [f] + spine, path + [g] + spine, height, childRed);
  }

  /** The colours and black heights around a subtree of a red-black tree. */
  lemma Unplugged(t: Tree, path: seq<Frame>, root: Tree)
    requires RedBlack(root) && Plug(t, path) == root
    ensures Balanced(t) && PathBalanced(path, BlackHeight(t))
    ensures NoRedRed(t) && PathNoRedRed(path, IsRed(t))
    ensures path != [] ==> !path[0].red
  {
    UnplugBalanced(t, path);
    UnplugNoRedRed(t, path);
    if path != [] {
      PlugRoot(t, path);
    }
  }

  /** The successor's node sits at the bottom of the path through the node to remove. */
  lemma SuccessorPlug(found: Tree, path: seq<Frame>, m: Tree, spine: seq<Frame>)
    requires found.Node? && Plug(m, spine) == found.right
    ensures Plug(m, path + [Frame(found.red, false, found.key, found.value, found.left)] + spine) == Plug(found, path)
  {
    var f := Frame(found.red, false, found.key, found.value, found.left);
    PlugAppend(m, path + [f], spine);
    assert (path + [f])[..|path|] == path;
  }

  /** The search-tree half of `RemoveSuccessor`. */
  lemma SuccessorOrdered(root: Tree, found: Tree, path: seq<Frame>, key: int, m: Tree, spine: seq<Frame>)
    requires Ordered(root) && Plug(found, path) == root && found.Node? && found.right.Node?
    requires Plug(m, spine) == found.right && m.Node? && m.left.Null?
    requires forall i :: 0 <= i < |spine| ==> spine[i].goLeft
    ensures var above := path + [Frame(found.red, false, m.key, m.value, found.left)] + spine;
            && Ordered(m.right) && AllFit(above, Keys(m.right)) && PathOrdered(above)
  {
    var g := Frame(found.red, false, m.key, m.value, found.left);
    var above := path + [g] + spine;
    SuccessorTreeOrdered(root, found, path, m, spine);
    UnplugOrdered(m.right, above);
  }

  /** The tree with the successor moved up is still a search tree. */
  lemma SuccessorTreeOrdered(root: Tree, found: Tree, path: seq<Frame>, m: Tree, spine: seq<Frame>)
    requires Ordered(root) && Plug(found, path) == root && found.Node? && found.right.Node?
    requires Plug(m, spine) == found.right && m.Node? && m.left.Null?
    requires forall i :: 0 <= i < |spine| ==> spine[i].goLeft
    ensures Ordered(Plug(m.right, path + [Frame(found.red, false, m.key, m.value, found.left)] + spine))
  {
    UnplugOrdered(found, path);
    var n := Node(found.red, found.left, m.key, m.value, Plug(m.right, spine));
    SuccessorNode(found, m, spine);
    assert AllFit(path, Keys(n));
    PlugOrdered(n, path);
    SuccessorReplug(found, path, m, spine);
  }

  /** The elements half of `RemoveSuccessor`. */
  lemma SuccessorElements(root: Tree, found: Tree, path: seq<Frame>, key: int, m: Tree, spine: seq<Frame>)
    requires Ordered(root) && Plug(found, path) == root && Fits(path, key) && found.Node? && found.key == key
    requires found.right.Node?
    requires Plug(m, spine) == found.right && m.Node? && m.left.Null?
    ensures var above := path + [Frame(found.red, false, m.key, m.value, found.left)] + spine;
            Elements(m.right) + PathElements(above) == Without(Elements(root), key)
  {
    var g := Frame(found.red, false, m.key, m.value, found.left);
    var above := path + [g] + spine;
    var n := Node(found.red, found.left, m.key, m.value, Plug(m.right, spine));
    SuccessorContents(found, m, spine);
    SuccessorReplug(found, path, m, spine);
    PlugElements(m.right, above);
    PlugElements(n, path);
    WithoutFound(root, found, path, key);
  }

  /** Plugging the successor's child back under the changed frame is plugging the changed node. */
  lemma SuccessorReplug(found: Tree, path: seq<Frame>, m: Tree, spine: seq<Frame>)
    requires found.Node? && m.Node?
    ensures var g := Frame(found.red, false, m.key, m.value, found.left);
            Plug(m.right, path + [g] + spine) == Plug(Node(found.red, found.left, m.key, m.value, Plug(m.right, spine)), path)
  {
    var g := Frame(found.red, false, m.key, m.value, found.left);
    PlugAppend(m.right, path + [g], spine);
    assert (path + [g])[..|path|] == path;
  }

  /** The node to remove with its successor's key and value and the successor lifted out. */
  lemma SuccessorNode(found: Tree, m: Tree, spine: seq<Frame>)
    requires Ordered(found) && found.Node? && found.right.Node?
    requires Plug(m, spine) == found.right && m.Node? && m.left.Null?
    requires forall i :: 0 <= i < |spine| ==> spine[i].goLeft
    ensures var n := Node(found.red, found.left, m.key, m.value, Plug(m.right, spine));
            && Ordered(n) && Keys(n) <= Keys(found)
            && Elements(n) == Elements(found.left) + Elements(found.right)
  {
    var lower := Plug(m.right, spine);
    var n := Node(found.red, found.left, m.key, m.value, lower);
    SuccessorContents(found, m, spine);
    assert Ordered(found.left) && Ordered(found.right);
    SuccessorLifted(found.right, m, spine);
    assert found.key < m.key;
    assert forall x :: x in Keys(found.left) ==> x < m.key;
    assert Ordered(n);
  }

  /** The keys and elements of that node. */
  lemma SuccessorContents(found: Tree, m: Tree, spine: seq<Frame>)
    requires found.Node? && Plug(m, spine) == found.right && m.Node? && m.left.Null?
    ensures var n := Node(found.red, found.left, m.key, m.value, Plug(m.right, spine));
            && Keys(n) <= Keys(found) && m.key in Keys(found.right)
            && Elements(n) == Elements(found.left) + Elements(found.right)
  {
    PlugElements(m, spine);
    PlugElements(m.right, spine);
  }

  /** Lifting the leftmost node out of an ordered subtree leaves an ordered tree of the keys above it. */
  lemma SuccessorLifted(t: Tree, m: Tree, spine: seq<Frame>)
    requires Ordered(t) && Plug(m, spine) == t && m.Node? && m.left.Null?
    requires forall i :: 0 <= i < |spine| ==> spine[i].goLeft
    ensures var lower := Plug(m.right, spine);
            && Ordered(lower) && m.key in Keys(t)
            && (forall y :: y in Keys(lower) ==> m.key < y)
  {
    UnplugOrdered(m, spine);
    PlugElements(m, spine);
    PlugOrdered(m.right, spine);
    PlugElements(m.right, spine);
    LeftSpineAbove(spine, m.key);
  }

  /** What is left after removing a key: its elements without it, and its keys without it. */
  lemma Removed(root: Tree, r: Tree, key: int)
    requires Elements(r) == Without(Elements(root), key)
    ensures Keys(r) == Keys(root) - {key}
  {
    KeysOfElements(root);
    KeysOfElements(r);
    forall x
      ensures x in Keys(r) <==> x in Keys(root) - {key}
    {
      if x in Keys(r) {
        var v :| (x, v) in Elements(r);
      }
      if x in Keys(root) && x != key {
        var v :| (x, v) in Elements(root);
        assert (x, v) in Elements(r);
      }
    }
  }
}
