/**
 * The rebalancing steps of insertion and deletion
 * (src/main/java/com/readytalk/revori/imp/Node.java), each stated over a
 * subtree and the path above it: what holds before the step, what holds
 * after it, and that the step neither loses nor adds an element.
 */
module Rebalance {
  import opened Trees

  /**
   * Insertion's loop state: a sound tree except that `focus` may be a red
   * node under a red parent.
   */
  predicate Fixing(focus: Tree, path: seq<Frame>)
  {
    && Ordered(focus) && AllFit(path, Keys(focus)) && PathOrdered(path)
    && Balanced(focus) && PathBalanced(path, BlackHeight(focus))
    && NoRedRed(focus) && PathNoRedRed(path, false)
    && (path != [] ==> !path[0].red)
  }

  /** The loop has nothing left to repair: the tree with its root painted black is red-black. */
  lemma FixingDone(focus: Tree, path: seq<Frame>)
    requires Fixing(focus, path)
    requires !IsRed(focus) || path == [] || !path[|path| - 1].red
    ensures RedBlack(Paint(Plug(focus, path), false))
    ensures Elements(Paint(Plug(focus, path), false)) == Elements(focus) + PathElements(path)
  {
    PlugOrdered(focus, path);
    PlugBalanced(focus, path);
    assert PathNoRedRed(path, IsRed(focus));
    PlugNoRedRed(focus, path);
    PlugElements(focus, path);
    if path != [] {
      PlugRoot(focus, path);
    }
  }

  /** The red uncle case: parent and uncle turn black, the grandparent red, and the walk moves up two. */
  lemma RecolorStep(focus: Tree, path: seq<Frame>)
    requires Fixing(focus, path) && IsRed(focus)
    requires |path| >= 2 && path[|path| - 1].red && IsRed(path[|path| - 2].sibling)
    ensures var p, g := path[|path| - 1], path[|path| - 2];
            var up := Attach(g.(red := true, sibling := Paint(g.sibling, false)), Attach(p.(red := false), focus));
            && Fixing(up, path[..|path| - 2])
            && Elements(up) + PathElements(path[..|path| - 2]) == Elements(focus) + PathElements(path)
  {
    var n := |path|;
    var p, g := path[n - 1], path[n - 2];
    var init := path[..n - 1];
    assert init[..n - 2] == path[..n - 2];
    UpOrdered(focus, path);
    var mid := Attach(p, focus);
    UpOrdered(mid, init);
    var mid' := Attach(p.(red := false), focus);
    var g' := g.(red := true, sibling := Paint(g.sibling, false));
    AttachContents(p, focus);
    AttachContents(p.(red := false), focus);
    AttachContents(g, mid);
    AttachContents(g', mid');
    assert init[|init| - 1] == g;
    assert Ordered(mid') && Ordered(Attach(g, mid));
    assert Ordered(Attach(g', mid'));
    assert AllFit(path[..n - 2], Keys(Attach(g', mid')));
    var h := BlackHeight(focus);
    assert BlackHeight(p.sibling) == h && PathBalanced(init, h);
    assert BlackHeight(g.sibling) == h;
    assert BlackHeight(mid') == h + 1 && Balanced(mid');
    assert BlackHeight(Paint(g.sibling, false)) == h + 1;
    assert NoRedRed(p.sibling) && PathNoRedRed(init, true);
    assert NoRedRed(g.sibling) && !g.red && PathNoRedRed(path[..n - 2], false);
    assert NoRedRed(mid') && NoRedRed(Paint(g.sibling, false));
  }

  /**
   * The inner case with the parent on the left: rotating the parent left
   * puts the red pair on the outside, the parent below the new node.
   */
  lemma LeftInner(focus: Tree, path: seq<Frame>)
    requires Fixing(focus, path) && IsRed(focus)
    requires |path| >= 2 && path[|path| - 1].red && !path[|path| - 1].goLeft && path[|path| - 2].goLeft
    ensures var n := RotateLeft(Attach(path[|path| - 1], focus));
            var path' := path[..|path| - 1] + [Frame(n.red, true, n.key, n.value, n.right)];
            && Fixing(n.left, path') && IsRed(n.left) && n.red
            && path'[..|path| - 1] == path[..|path| - 1]
            && Elements(n.left) + PathElements(path') == Elements(focus) + PathElements(path)
  {
    var k := |path|;
    var p := path[k - 1];
    var init := path[..k - 1];
    var n := RotateLeft(Attach(p, focus));
    var path' := init + [Frame(n.red, true, n.key, n.value, n.right)];
    assert path'[..k - 1] == init;
    UpOrdered(focus, path);
    AttachContents(p, focus);
    assert Ordered(n);
    assert AllFit(init, Keys(n));
    assert Keys(n) == Keys(n.left) + {n.key} + Keys(n.right);
    assert Ordered(n.left);
  }

  /**
   * The outer case with the parent on the left: the parent turns black,
   * the grandparent red, and rotating the grandparent right finishes.
   */
  lemma LeftOuter(focus: Tree, path: seq<Frame>)
    requires Fixing(focus, path) && IsRed(focus)
    requires |path| >= 2 && path[|path| - 1].red && path[|path| - 1].goLeft
    requires path[|path| - 2].goLeft && !IsRed(path[|path| - 2].sibling)
    ensures var p, g := path[|path| - 1], path[|path| - 2];
            var n := RotateRight(Attach(g.(red := true), Attach(p.(red := false), focus)));
            && Fixing(n, path[..|path| - 2]) && !IsRed(n)
            && Elements(n) + PathElements(path[..|path| - 2]) == Elements(focus) + PathElements(path)
  {
    var k := |path|;
    var p, g := path[k - 1], path[k - 2];
    var init := path[..k - 1];
    assert init[..k - 2] == path[..k - 2];
    UpOrdered(focus, path);
    var mid := Attach(p, focus);
    UpOrdered(mid, init);
    AttachContents(p, focus);
    AttachContents(p.(red := false), focus);
    AttachContents(g, mid);
    var mid' := Attach(p.(red := false), focus);
    AttachContents(g.(red := true), mid');
    assert init[|init| - 1] == g;
    assert Ordered(mid') && Ordered(Attach(g, mid));
    assert Ordered(Attach(g.(red := true), mid'));
    var h := BlackHeight(focus);
    assert BlackHeight(p.sibling) == h && PathBalanced(init, h);
    assert BlackHeight(g.sibling) == h;
    assert NoRedRed(p.sibling) && PathNoRedRed(init, true);
    assert NoRedRed(g.sibling) && !g.red && PathNoRedRed(path[..k - 2], false);
  }

  /** The mirror of `LeftInner`: the parent on the right, the new node its left child. */
  lemma RightInner(focus: Tree, path: seq<Frame>)
    requires Fixing(focus, path) && IsRed(focus)
    requires |path| >= 2 && path[|path| - 1].red && path[|path| - 1].goLeft && !path[|path| - 2].goLeft
    ensures var n := RotateRight(Attach(path[|path| - 1], focus));
            var path' := path[..|path| - 1] + [Frame(n.red, false, n.key, n.value, n.left)];
            && Fixing(n.right, path') && IsRed(n.right) && n.red
            && path'[..|path| - 1] == path[..|path| - 1]
            && Elements(n.right) + PathElements(path') == Elements(focus) + PathElements(path)
  {
    var k := |path|;
    var p := path[k - 1];
    var init := path[..k - 1];
    var n := RotateRight(Attach(p, focus));
    var path' := init + [Frame(n.red, false, n.key, n.value, n.left)];
    assert path'[..k - 1] == init;
    UpOrdered(focus, path);
    AttachContents(p, focus);
    assert Ordered(n);
    assert AllFit(init, Keys(n));
    assert Keys(n) == Keys(n.left) + {n.key} + Keys(n.right);
    assert Ordered(n.right);
  }

  /** The mirror of `LeftOuter`. */
  lemma RightOuter(focus: Tree, path: seq<Frame>)
    requires Fixing(focus, path) && IsRed(focus)
    requires |path| >= 2 && path[|path| - 1].red && !path[|path| - 1].goLeft
    requires !path[|path| - 2].goLeft && !IsRed(path[|path| - 2].sibling)
    ensures var p, g := path[|path| - 1], path[|path| - 2];
            var n := RotateLeft(Attach(g.(red := true), Attach(p.(red := false), focus)));
            && Fixing(n, path[..|path| - 2]) && !IsRed(n)
            && Elements(n) + PathElements(path[..|path| - 2]) == Elements(focus) + PathElements(path)
  {
    var k := |path|;
    var p, g := path[k - 1], path[k - 2];
    var init := path[..k - 1];
    assert init[..k - 2] == path[..k - 2];
    UpOrdered(focus, path);
    var mid := Attach(p, focus);
    UpOrdered(mid, init);
    AttachContents(p, focus);
    AttachContents(p.(red := false), focus);
    AttachContents(g, mid);
    var mid' := Attach(p.(red := false), focus);
    AttachContents(g.(red := true), mid');
    assert init[|init| - 1] == g;
    assert Ordered(mid') && Ordered(Attach(g, mid));
    assert Ordered(Attach(g.(red := true), mid'));
    var h := BlackHeight(focus);
    assert BlackHeight(p.sibling) == h && PathBalanced(init, h);
    assert BlackHeight(g.sibling) == h;
    assert NoRedRed(p.sibling) && PathNoRedRed(init, true);
    assert NoRedRed(g.sibling) && !g.red && PathNoRedRed(path[..k - 2], false);
  }

  /** A sound position: the tree with `t` plugged in is red-black once its root is black. */
  predicate Sound(t: Tree, path: seq<Frame>)
  {
    && Ordered(t) && AllFit(path, Keys(t)) && PathOrdered(path)
    && Balanced(t) && PathBalanced(path, BlackHeight(t))
    && NoRedRed(t) && PathNoRedRed(path, IsRed(t))
    && (path != [] ==> !path[0].red)
  }

  lemma SoundDone(t: Tree, path: seq<Frame>)
    requires Sound(t, path) && (path != [] || !IsRed(t))
    ensures RedBlack(Plug(t, path))
    ensures Elements(Plug(t, path)) == Elements(t) + PathElements(path)
  {
    PlugOrdered(t, path);
    PlugBalanced(t, path);
    PlugNoRedRed(t, path);
    PlugElements(t, path);
    if path != [] {
      PlugRoot(t, path);
    }
  }

  /**
   * Deletion's loop state: a sound tree except that every path through
   * `child` is one black node short, and `child`, if red, may have a red
   * child.
   */
  predicate Short(child: Tree, path: seq<Frame>)
  {
    && Ordered(child) && AllFit(path, Keys(child)) && PathOrdered(path)
    && Balanced(child) && PathBalanced(path, BlackHeight(child) + 1)
    && NoRedRed(Paint(child, false)) && PathNoRedRed(path, false)
    && (path != [] ==> !path[0].red)
  }

  /** The loop stops at the root or at a red node: painting it black restores the tree. */
  lemma ShortDone(child: Tree, path: seq<Frame>)
    requires Short(child, path) && (path == [] || IsRed(child))
    ensures RedBlack(Plug(Paint(child, false), path))
    ensures Elements(Plug(Paint(child, false), path)) == Elements(child) + PathElements(path)
  {
    var c := Paint(child, false);
    PlugOrdered(c, path);
    PlugBalanced(c, path);
    PlugNoRedRed(c, path);
    PlugElements(c, path);
    if path != [] {
      PlugRoot(c, path);
    }
  }

  /** A finished subtree, plugged back in, is a whole tree with nothing left to repair. */
  lemma Settled(n: Tree, path: seq<Frame>)
    requires Sound(n, path)
    ensures Short(Plug(n, path), [])
    ensures Elements(Plug(n, path)) == Elements(n) + PathElements(path)
  {
    PlugOrdered(n, path);
    PlugBalanced(n, path);
    PlugNoRedRed(n, path);
    PlugElements(n, path);
  }

  /** The short side has a sibling: its black height is at least one. */
  lemma SiblingExists(child: Tree, path: seq<Frame>)
    requires Short(child, path) && path != []
    ensures path[|path| - 1].sibling.Node?
  {
  }

  lemma PathNoRedRedWeaker(path: seq<Frame>)
    requires PathNoRedRed(path, true)
    ensures PathNoRedRed(path, false)
  {
  }

  /**
   * The red sibling case with the short child on the left: the sibling
   * turns black, the parent red, and rotating the parent left puts the
   * sibling above it; the short child keeps the parent, now red, whose
   * new other child is the old sibling's left child, which is black.
   */
  lemma RedSiblingLeft(child: Tree, path: seq<Frame>)
    requires Short(child, path) && !IsRed(child) && path != []
    requires path[|path| - 1].goLeft && IsRed(path[|path| - 1].sibling)
    ensures var p := path[|path| - 1];
            var s := p.sibling;
            var path' := path[..|path| - 1] + [Frame(false, true, s.key, s.value, s.right),
                                                Frame(true, true, p.key, p.value, s.left)];
            && Short(child, path') && !IsRed(s.left) && s.left.Node?
            && Elements(child) + PathElements(path') == Elements(child) + PathElements(path)
  {
    var k := |path|;
    var p := path[k - 1];
    var init := path[..k - 1];
    var s := p.sibling;
    RedSiblingOrdered(child, path);
    RedSiblingElements(child, path);
    var h := BlackHeight(child) + 1;
    assert !p.red && PathBalanced(init, h + 1) && PathNoRedRed(init, false);
    assert BlackHeight(s.left) == h && BlackHeight(s.right) == h;
    assert NoRedRed(s.left) && NoRedRed(s.right) && !IsRed(s.left) && !IsRed(s.right);
    PushedBelowRed(init, Frame(false, true, s.key, s.value, s.right), Frame(true, true, p.key, p.value, s.left), h);
  }

  /** The search-tree half of `RedSiblingLeft`: the rotated frames are ordered. */
  lemma RedSiblingOrdered(child: Tree, path: seq<Frame>)
    requires Ordered(child) && AllFit(path, Keys(child)) && PathOrdered(path) && path != []
    requires path[|path| - 1].goLeft && path[|path| - 1].sibling.Node?
    ensures var p := path[|path| - 1];
            var s := p.sibling;
            var path' := path[..|path| - 1] + [Frame(false, true, s.key, s.value, s.right),
                                                Frame(true, true, p.key, p.value, s.left)];
            && AllFit(path', Keys(child)) && PathOrdered(path')
  {
    var k := |path|;
    var p := path[k - 1];
    var init := path[..k - 1];
    var s := p.sibling;
    var a := Frame(false, true, s.key, s.value, s.right);
    var b := Frame(true, true, p.key, p.value, s.left);
    var path' := init + [a, b];
    var n := Node(false, Node(true, child, p.key, p.value, s.left), s.key, s.value, s.right);
    assert path'[..k] == init + [a] && (init + [a])[..k - 1] == init;
    assert Plug(child, path') == Plug(n, init);
    UpOrdered(child, path);
    AttachContents(p, child);
    var q := p.(red := true, sibling := Paint(s, false));
    AttachContents(q, child);
    assert Ordered(Attach(q, child));
    var r := RotateLeft(Attach(q, child));
    assert r == n;
    PlugOrdered(n, init);
    UnplugOrdered(child, path');
  }
  /** The rotated frames of `RedSiblingLeft` hold the same elements. */
  lemma RedSiblingElements(child: Tree, path: seq<Frame>)
    requires path != [] && path[|path| - 1].goLeft && path[|path| - 1].sibling.Node?
    ensures var p := path[|path| - 1];
            var s := p.sibling;
            var path' := path[..|path| - 1] + [Frame(false, true, s.key, s.value, s.right),
                                                Frame(true, true, p.key, p.value, s.left)];
            Elements(child) + PathElements(path') == Elements(child) + PathElements(path)
  {
    var k := |path|;
    var p := path[k - 1];
    var init := path[..k - 1];
    var s := p.sibling;
    var path' := init + [Frame(false, true, s.key, s.value, s.right), Frame(true, true, p.key, p.value, s.left)];
    var n := Node(false, Node(true, child, p.key, p.value, s.left), s.key, s.value, s.right);
    assert path'[..k] == init + [Frame(false, true, s.key, s.value, s.right)] && (init + [Frame(false, true, s.key, s.value, s.right)])[..k - 1] == init;
    assert Plug(child, path') == Plug(n, init);
    AttachContents(p, child);
    PlugElements(child, path');
    PlugElements(n, init);
    PlugElements(Attach(p, child), init);
    PlugElements(child, path);
  }



  /** Two frames pushed after the red sibling case keep the path's heights and colours. */
  lemma PushedBelowRed(init: seq<Frame>, a: Frame, b: Frame, h: nat)
    requires PathBalanced(init, h + 1) && PathNoRedRed(init, false) && (init != [] ==> !init[0].red)
    requires !a.red && Balanced(a.sibling) && BlackHeight(a.sibling) == h && NoRedRed(a.sibling)
    requires b.red && Balanced(b.sibling) && BlackHeight(b.sibling) == h && NoRedRed(b.sibling) && !IsRed(b.sibling)
    ensures PathBalanced(init + [a, b], h) && PathNoRedRed(init + [a, b], false)
    ensures !(init + [a, b])[0].red
  {
    var m := init + [a];
    var path := m + [b];
    assert init + [a, b] == path;
    assert m[|m| - 1] == a && m[..|m| - 1] == init;
    assert path[|path| - 1] == b && path[..|path| - 1] == m;
    assert PathBalanced(m, h) && PathNoRedRed(m, true);
    assert PathBalanced(path, h) && PathNoRedRed(path, false);
    assert path[0] == if init == [] then a else init[0];
  }

  /** The mirror of `RedSiblingLeft`. */
  lemma RedSiblingRight(child: Tree, path: seq<Frame>)
    requires Short(child, path) && !IsRed(child) && path != []
    requires !path[|path| - 1].goLeft && IsRed(path[|path| - 1].sibling)
    ensures var p := path[|path| - 1];
            var s := p.sibling;
            var path' := path[..|path| - 1] + [Frame(false, false, s.key, s.value, s.left),
                                                Frame(true, false, p.key, p.value, s.right)];
            && Short(child, path') && !IsRed(s.right) && s.right.Node?
            && Elements(child) + PathElements(path') == Elements(child) + PathElements(path)
  {
    var k := |path|;
    var p := path[k - 1];
    var init := path[..k - 1];
    var s := p.sibling;
    RedSiblingOrderedRight(child, path);
    RedSiblingElementsRight(child, path);
    var h := BlackHeight(child) + 1;
    assert !p.red && PathBalanced(init, h + 1) && PathNoRedRed(init, false);
    assert BlackHeight(s.left) == h && BlackHeight(s.right) == h;
    assert NoRedRed(s.left) && NoRedRed(s.right) && !IsRed(s.left) && !IsRed(s.right);
    PushedBelowRed(init, Frame(false, false, s.key, s.value, s.left), Frame(true, false, p.key, p.value, s.right), h);
  }

  /** The search-tree half of `RedSiblingRight`: the rotated frames are ordered. */
  lemma RedSiblingOrderedRight(child: Tree, path: seq<Frame>)
    requires Ordered(child) && AllFit(path, Keys(child)) && PathOrdered(path) && path != []
    requires !path[|path| - 1].goLeft && path[|path| - 1].sibling.Node?
    ensures var p := path[|path| - 1];
            var s := p.sibling;
            var path' := path[..|path| - 1] + [Frame(false, false, s.key, s.value, s.left),
                                                Frame(true, false, p.key, p.value, s.right)];
            && AllFit(path', Keys(child)) && PathOrdered(path')
  {
    var k := |path|;
    var p := path[k - 1];
    var init := path[..k - 1];
    var s := p.sibling;
    var a := Frame(false, false, s.key, s.value, s.left);
    var b := Frame(true, false, p.key, p.value, s.right);
    var path' := init + [a, b];
    var n := Node(false, s.left, s.key, s.value, Node(true, s.right, p.key, p.value, child));
    assert path'[..k] == init + [a] && (init + [a])[..k - 1] == init;
    assert Plug(child, path') == Plug(n, init);
    UpOrdered(child, path);
    AttachContents(p, child);
    var q := p.(red := true, sibling := Paint(s, false));
    AttachContents(q, child);
    assert Ordered(Attach(q, child));
    var r := RotateRight(Attach(q, child));
    assert r == n;
    PlugOrdered(n, init);
    UnplugOrdered(child, path');
  }
  /** The rotated frames of `RedSiblingRight` hold the same elements. */
  lemma RedSiblingElementsRight(child: Tree, path: seq<Frame>)
    requires path != [] && !path[|path| - 1].goLeft && path[|path| - 1].sibling.Node?
    ensures var p := path[|path| - 1];
            var s := p.sibling;
            var path' := path[..|path| - 1] + [Frame(false, false, s.key, s.value, s.left),
                                                Frame(true, false, p.key, p.value, s.right)];
            Elements(child) + PathElements(path') == Elements(child) + PathElements(path)
  {
    var k := |path|;
    var p := path[k - 1];
    var init := path[..k - 1];
    var s := p.sibling;
    var path' := init + [Frame(false, false, s.key, s.value, s.left), Frame(true, false, p.key, p.value, s.right)];
    var n := Node(false, s.left, s.key, s.value, Node(true, s.right, p.key, p.value, child));
    assert path'[..k] == init + [Frame(false, false, s.key, s.value, s.left)] && (init + [Frame(false, false, s.key, s.value, s.left)])[..k - 1] == init;
    assert Plug(child, path') == Plug(n, init);
    AttachContents(p, child);
    PlugElements(child, path');
    PlugElements(n, init);
    PlugElements(Attach(p, child), init);
    PlugElements(child, path);
  }



  /**
   * The black sibling with two black children: the sibling turns red, and
   * the parent, one black short as a whole now, becomes the short child.
   */
  lemma MoveUp(child: Tree, path: seq<Frame>)
    requires Short(child, path) && !IsRed(child) && path != []
    requires path[|path| - 1].sibling.Node? && !IsRed(path[|path| - 1].sibling)
    requires !IsRed(path[|path| - 1].sibling.left) && !IsRed(path[|path| - 1].sibling.right)
    ensures var p := path[|path| - 1];
            var up := Attach(p.(sibling := Paint(p.sibling, true)), child);
            && Short(up, path[..|path| - 1]) && IsRed(up) == p.red
            && Elements(up) + PathElements(path[..|path| - 1]) == Elements(child) + PathElements(path)
  {
    var k := |path|;
    var p := path[k - 1];
    var init := path[..k - 1];
    var s := p.sibling;
    var up := Attach(p.(sibling := Paint(s, true)), child);
    UpOrdered(child, path);
    AttachContents(p, child);
    AttachContents(p.(sibling := Paint(s, true)), child);
    assert Ordered(up);
    assert Paint(child, false) == child;
    assert BlackHeight(s) == BlackHeight(child) + 1;
    assert BlackHeight(Paint(s, true)) == BlackHeight(child);
    assert BlackHeight(up) == BlackHeight(child) + (if p.red then 0 else 1);
    assert NoRedRed(Paint(up, false));
    assert PathNoRedRed(init, p.red);
    if p.red {
      PathNoRedRedWeaker(init);
    }
  }

  /** The sibling after the inner rotation of the last case: its red child moved to the far side. */
  function FarRed(s: Tree, goLeft: bool): (r: Tree)
    requires s.Node? && (IsRed(s.left) || IsRed(s.right))
    ensures r.Node? && Keys(r) == Keys(s) && Elements(r) == Elements(s) && (Ordered(s) ==> Ordered(r))
  {
    if goLeft then
      if IsRed(s.right) then s else RotateRight(s.(red := true, left := Paint(s.left, false)))
    else
      if IsRed(s.left) then s else RotateLeft(s.(red := true, right := Paint(s.right, false)))
  }

  /**
   * The black sibling with a red child, the short child on the left: make
   * the sibling's right child red (rotating the sibling right if needed),
   * give the sibling the parent's colour, paint the parent and the
   * sibling's right child black, and rotate the parent left; the repair is
   * done.
   */
  lemma FinishLeft(child: Tree, path: seq<Frame>)
    requires Short(child, path) && !IsRed(child) && path != [] && path[|path| - 1].goLeft
    requires path[|path| - 1].sibling.Node? && !IsRed(path[|path| - 1].sibling)
    requires IsRed(path[|path| - 1].sibling.left) || IsRed(path[|path| - 1].sibling.right)
    ensures var p := path[|path| - 1];
            var s := FarRed(p.sibling, true);
            var n := RotateLeft(Node(false, child, p.key, p.value, s.(red := p.red, right := Paint(s.right, false))));
            && Sound(n, path[..|path| - 1])
            && Elements(n) + PathElements(path[..|path| - 1]) == Elements(child) + PathElements(path)
  {
    var k := |path|;
    var p := path[k - 1];
    var init := path[..k - 1];
    var s0 := p.sibling;
    assert Paint(child, false) == child;
    var h := BlackHeight(child);
    assert BlackHeight(s0) == h + 1;
    assert PathBalanced(init, h + 1 + (if p.red then 0 else 1));
    assert PathNoRedRed(init, p.red);
    FinishOrderedLeft(child, path);
    FinishedLeft(child, p.red, p.key, p.value, s0);
  }

  /** The search-tree half of `FinishLeft`: the rotated node is ordered, fits the path and holds the same elements. */
  lemma FinishOrderedLeft(child: Tree, path: seq<Frame>)
    requires Short(child, path) && path != [] && path[|path| - 1].goLeft
    requires path[|path| - 1].sibling.Node? && (IsRed(path[|path| - 1].sibling.left) || IsRed(path[|path| - 1].sibling.right))
    ensures var p := path[|path| - 1];
            var s := FarRed(p.sibling, true);
            var n := RotateLeft(Node(false, child, p.key, p.value, s.(red := p.red, right := Paint(s.right, false))));
            && Ordered(n) && AllFit(path[..|path| - 1], Keys(n)) && PathOrdered(path[..|path| - 1])
            && Elements(n) + PathElements(path[..|path| - 1]) == Elements(child) + PathElements(path)
  {
    var k := |path|;
    var p := path[k - 1];
    var s0 := p.sibling;
    var s := FarRed(s0, true);
    var s2 := s.(red := p.red, right := Paint(s.right, false));
    var top := Node(false, child, p.key, p.value, s2);
    UpOrdered(child, path);
    AttachContents(p, child);
    assert Keys(s2) == Keys(s) && Elements(s2) == Elements(s);
    assert Ordered(s0) && Ordered(s2);
    assert Ordered(top);
  }

  /** The colours and black heights of that last rotation. */
  lemma FinishedLeft(child: Tree, red: bool, key: int, value: Entry, s0: Tree)
    requires Balanced(child) && NoRedRed(child) && !IsRed(child)
    requires s0.Node? && !s0.red && Balanced(s0) && NoRedRed(s0) && BlackHeight(s0) == BlackHeight(child) + 1
    requires IsRed(s0.left) || IsRed(s0.right)
    ensures var s := FarRed(s0, true);
            var n := RotateLeft(Node(false, child, key, value, s.(red := red, right := Paint(s.right, false))));
            && Balanced(n) && NoRedRed(n) && IsRed(n) == red
            && BlackHeight(n) == BlackHeight(child) + 1 + (if red then 0 else 1)
  {
    var s := FarRed(s0, true);
    var n := RotateLeft(Node(false, child, key, value, s.(red := red, right := Paint(s.right, false))));
    var h := BlackHeight(child);
    assert BlackHeight(s0.left) == h && BlackHeight(s0.right) == h;
    if IsRed(s0.right) {
      var r := Paint(s0.right, false);
      assert BlackHeight(r) == h + 1 && Balanced(r) && NoRedRed(r);
      var l := Node(false, child, key, value, s0.left);
      assert Balanced(s0.left) && NoRedRed(s0.left) && Balanced(l) && NoRedRed(l) && BlackHeight(l) == h + 1;
      assert n == Node(red, l, s0.key, s0.value, r);
      assert Balanced(n) && NoRedRed(n);
    } else {
      var c := s0.left;
      assert BlackHeight(c.left) == h && BlackHeight(c.right) == h && NoRedRed(c.left) && NoRedRed(c.right);
      assert Balanced(c.left) && Balanced(c.right) && Balanced(s0.right) && NoRedRed(s0.right);
      var l := Node(false, child, key, value, c.left);
      var r := Node(false, c.right, s0.key, s0.value, s0.right);
      assert Balanced(l) && NoRedRed(l) && BlackHeight(l) == h + 1;
      assert Balanced(r) && NoRedRed(r) && BlackHeight(r) == h + 1;
      assert n == Node(red, l, c.key, c.value, r);
      assert Balanced(n) && NoRedRed(n);
    }
  }

  /** The mirror of `FinishLeft`. */
  lemma FinishRight(child: Tree, path: seq<Frame>)
    requires Short(child, path) && !IsRed(child) && path != [] && !path[|path| - 1].goLeft
    requires path[|path| - 1].sibling.Node? && !IsRed(path[|path| - 1].sibling)
    requires IsRed(path[|path| - 1].sibling.left) || IsRed(path[|path| - 1].sibling.right)
    ensures var p := path[|path| - 1];
            var s := FarRed(p.sibling, false);
            var n := RotateRight(Node(false, s.(red := p.red, left := Paint(s.left, false)), p.key, p.value, child));
            && Sound(n, path[..|path| - 1])
            && Elements(n) + PathElements(path[..|path| - 1]) == Elements(child) + PathElements(path)
  {
    var k := |path|;
    var p := path[k - 1];
    var init := path[..k - 1];
    var s0 := p.sibling;
    assert Paint(child, false) == child;
    var h := BlackHeight(child);
    assert BlackHeight(s0) == h + 1;
    assert PathBalanced(init, h + 1 + (if p.red then 0 else 1));
    assert PathNoRedRed(init, p.red);
    FinishOrderedRight(child, path);
    FinishedRight(child, p.red, p.key, p.value, s0);
  }

  /** The search-tree half of `FinishRight`: the rotated node is ordered, fits the path and holds the same elements. */
  lemma FinishOrderedRight(child: Tree, path: seq<Frame>)
    requires Short(child, path) && path != [] && !path[|path| - 1].goLeft
    requires path[|path| - 1].sibling.Node? && (IsRed(path[|path| - 1].sibling.left) || IsRed(path[|path| - 1].sibling.right))
    ensures var p := path[|path| - 1];
            var s := FarRed(p.sibling, false);
            var n := RotateRight(Node(false, s.(red := p.red, left := Paint(s.left, false)), p.key, p.value, child));
            && Ordered(n) && AllFit(path[..|path| - 1], Keys(n)) && PathOrdered(path[..|path| - 1])
            && Elements(n) + PathElements(path[..|path| - 1]) == Elements(child) + PathElements(path)
  {
    var k := |path|;
    var p := path[k - 1];
    var s0 := p.sibling;
    var s := FarRed(s0, false);
    var s2 := s.(red := p.red, left := Paint(s.left, false));
    var top := Node(false, s2, p.key, p.value, child);
    UpOrdered(child, path);
    AttachContents(p, child);
    assert Keys(s2) == Keys(s) && Elements(s2) == Elements(s);
    assert Ordered(s0) && Ordered(s2);
    assert Ordered(top);
  }

  /** The colours and black heights of that last rotation. */
  lemma FinishedRight(child: Tree, red: bool, key: int, value: Entry, s0: Tree)
    requires Balanced(child) && NoRedRed(child) && !IsRed(child)
    requires s0.Node? && !s0.red && Balanced(s0) && NoRedRed(s0) && BlackHeight(s0) == BlackHeight(child) + 1
    requires IsRed(s0.left) || IsRed(s0.right)
    ensures var s := FarRed(s0, false);
            var n := RotateRight(Node(false, s.(red := red, left := Paint(s.left, false)), key, value, child));
            && Balanced(n) && NoRedRed(n) && IsRed(n) == red
            && BlackHeight(n) == BlackHeight(child) + 1 + (if red then 0 else 1)
  {
    var s := FarRed(s0, false);
    var n := RotateRight(Node(false, s.(red := red, left := Paint(s.left, false)), key, value, child));
    var h := BlackHeight(child);
    assert BlackHeight(s0.left) == h && BlackHeight(s0.right) == h;
    if IsRed(s0.left) {
      var l := Paint(s0.left, false);
      assert BlackHeight(l) == h + 1 && Balanced(l) && NoRedRed(l);
      var r := Node(false, s0.right, key, value, child);
      assert Balanced(s0.right) && NoRedRed(s0.right) && Balanced(r) && NoRedRed(r) && BlackHeight(r) == h + 1;
      assert n == Node(red, l, s0.key, s0.value, r);
      assert Balanced(n) && NoRedRed(n);
    } else {
      var c := s0.right;
      assert BlackHeight(c.left) == h && BlackHeight(c.right) == h && NoRedRed(c.left) && NoRedRed(c.right);
      assert Balanced(c.left) && Balanced(c.right) && Balanced(s0.left) && NoRedRed(s0.left);
      var l := Node(false, s0.left, s0.key, s0.value, c.left);
      var r := Node(false, c.right, key, value, child);
      assert Balanced(l) && NoRedRed(l) && BlackHeight(l) == h + 1;
      assert Balanced(r) && NoRedRed(r) && BlackHeight(r) == h + 1;
      assert n == Node(red, l, c.key, c.value, r);
      assert Balanced(n) && NoRedRed(n);
    }
  }
}
