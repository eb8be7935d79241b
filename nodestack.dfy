/**
 * NodeStack (src/main/java/com/readytalk/revori/imp/NodeStack.java): the
 * explicit stack the tree walks keep.  The node in hand is `top`; the
 * nodes above it sit in a fixed array of 64 slots from `base` up to
 * `index`.  A stack started on another one (`Nested`) shares the other's
 * array and begins where the other one's entries end, so the walk of a
 * nested tree runs on the same array as the walk it came from.
 *
 * The ghost field `nodes` is the whole stack, first slot first and the
 * node in hand last.  When those nodes run from a root down, each the
 * child of the one before (`Chain`), the stack stands for the entries an
 * in-order walk still has to visit (`PendingOf`), and `Next` and
 * `AscendNext` are proved to move along that sequence.
 */
module NodeStacks {
  import opened Wire
  import opened Trees
  import opened Chains

  /** `Size`: the length of a fresh stack's array. */
  const Size := 64

  class NodeStack {
    /** The shared slots (`array` in the source). */
    var slots: array?<Tree>
    const base: int
    /** The stack this one was started on (`next` in the source). */
    const basis: NodeStack?
    /** The stack started on this one, while it is in use. */
    var previous: NodeStack?
    /** The node in hand; `None` is the source's `null`. */
    var top: Option<Tree>
    var index: int
    /** Set once `PopStack` has retired this stack. */
    var obsolete: bool
    /** The whole stack: the nodes in the slots from `base` up, then the node in hand. */
    ghost var nodes: seq<Tree>

    ghost predicate Valid()
      reads this, slots
    {
      && 0 <= base <= index
      && (slots == null ==> index == base)
      && (slots != null ==> index <= slots.Length)
      && (top.None? ==> index == base)
      && |nodes| == index - base + (if top.Some? then 1 else 0)
      && (top.Some? ==> top.value == nodes[|nodes| - 1])
      && (slots != null ==> forall i :: 0 <= i < index - base ==> slots[base + i] == nodes[i])
    }

    /** `NodeStack(Node[] array)`: an empty stack over `slots` (no array for the shared `Null` stack). */
    constructor Over(slots: array?<Tree>)
      requires slots != null ==> 0 < slots.Length
      ensures Valid() && nodes == []
      ensures this.slots == slots && base == 0 && basis == null
      ensures previous == null && !obsolete
    {
      this.slots := slots;
      base := 0;
      basis := null;
      previous := null;
      top := None;
      index := 0;
      obsolete := false;
      nodes := [];
    }

    /** `NodeStack()`: an empty stack over a fresh array of `Size` slots. */
    constructor ()
      ensures Valid() && nodes == []
      ensures slots != null && fresh(slots) && slots.Length == Size
      ensures base == 0 && basis == null && previous == null && !obsolete
    {
      slots := new Tree[Size](_ => Null);
      base := 0;
      basis := null;
      previous := null;
      top := None;
      index := 0;
      obsolete := false;
      nodes := [];
    }

    /**
     * `NodeStack(NodeStack basis)`: an empty stack on the same array,
     * starting where `basis`'s entries end; `basis` records it as the
     * stack in use above it.  `basis` must not be retired, nor already
     * carry a stack in use.
     */
    constructor Nested(basis: NodeStack)
      requires basis.Valid()
      requires basis.slots == null || basis.previous == null
      requires !basis.obsolete
      modifies basis`previous
      ensures Valid() && nodes == []
      ensures slots == basis.slots && base == basis.index && this.basis == basis
      ensures previous == null && !obsolete
      ensures basis.previous == (if basis.slots != null then this else old(basis.previous))
    {
      slots := basis.slots;
      base := basis.index;
      index := basis.index;
      this.basis := basis;
      previous := null;
      top := None;
      obsolete := false;
      nodes := [];
      new;
      if basis.slots != null {
        basis.previous := this;
      }
    }

    /**
     * `popStack`: retire this stack and hand back the one it was started
     * on, which no longer has a stack in use above it.
     */
    method PopStack() returns (s: NodeStack)
      requires previous == null && basis != null
      requires slots == null || basis.previous == this
      modifies this`slots, this`obsolete, basis`previous
      ensures s == basis && s.previous == null
      ensures slots == null && obsolete
    {
      s := basis;
      s.previous := null;
      slots := null;
      obsolete := true;
    }

    /**
     * `push`: the node in hand, if any, goes into the slot at `index`,
     * and `n` becomes the node in hand.  Only that one slot is written.
     */
    method Push(n: Tree)
      requires Valid()
      requires top.Some? ==> slots != null && index < slots.Length
      modifies this`top, this`index, this`nodes, slots
      ensures Valid() && nodes == old(nodes) + [n]
      ensures top == Some(n) && index == old(index) + (if old(top).Some? then 1 else 0)
      ensures slots == null || slots[..] == (if old(top).Some? then old(slots[..])[old(index) := old(top).value] else old(slots[..]))
    {
      if top.Some? {
        slots[index] := top.value;
        index := index + 1;
      }
      top := Some(n);
      nodes := nodes + [n];
    }

    /** `peek(depth)`: the node `depth + 1` places below the node in hand. */
    function Peek(depth: int): (r: Tree)
      reads this, slots
      requires Valid() && index - depth > base
      requires slots != null && index - depth - 1 < slots.Length
      ensures 0 <= depth ==> r == nodes[index - base - 1 - depth]
    {
      slots[index - depth - 1]
    }

    /**
     * `pop(count)`: drop `count` nodes from the stack, the node in hand
     * first; the next one down becomes the node in hand.  A stack of
     * exactly `count` nodes is left empty; a shorter one is refused.
     */
    method Pop(count: int)
      requires Valid() && count > 0 && top.Some?
      requires index - count >= base - 1
      modifies this`top, this`index, this`nodes
      ensures Valid() && nodes == old(nodes)[..|old(nodes)| - count]
      ensures index == old(index) - count + (if old(index) - count < base then 1 else 0)
    {
      if index - count < base {
        index := index - (count - 1);
        top := None;
      } else {
        index := index - count;
        top := Some(slots[index]);
      }
      nodes := nodes[..|nodes| - count];
    }

    /** `clear`: empty the stack. */
    method Clear()
      requires Valid()
      modifies this`top, this`index, this`nodes
      ensures Valid() && nodes == [] && index == base
    {
      top := None;
      index := base;
      nodes := [];
    }

    /** `descend`: step down to the left child when `oppositeDirection` is positive, else to the right one. */
    method Descend(oppositeDirection: int)
      requires Valid() && top.Some? && top.value.Node?
      requires slots != null && index < slots.Length
      modifies this`top, this`index, this`nodes, slots
      ensures Valid() && index == old(index) + 1
      ensures nodes == old(nodes) + [if oppositeDirection > 0 then old(top).value.left else old(top).value.right]
      ensures slots[..base] == old(slots[..base])
    {
      if oppositeDirection > 0 {
        Push(top.value.left);
      } else {
        Push(top.value.right);
      }
    }

    /**
     * `next`: move to the in-order successor of the node in hand, or
     * leave the stack empty when there is none: the pending entries lose
     * exactly their first one.  The tree must be shallow enough for the
     * array.
     */
    method Next()
      requires Valid() && slots != null
      requires top.Some? ==> Chain(nodes) && base + Height(nodes[0]) <= slots.Length
      modifies this`top, this`index, this`nodes, slots
      ensures Valid() && Chain(nodes)
      ensures old(top).None? ==> nodes == []
      ensures nodes != [] ==> old(nodes) != [] && nodes[0] == old(nodes)[0]
      ensures old(top).Some? ==> |old(PendingOf(nodes))| > 0 && PendingOf(nodes) == old(PendingOf(nodes))[1..]
      ensures slots[..base] == old(slots[..base])
    {
      if top.Some? {
        NextStep(nodes);
        if top.value.right != Null {
          Push(top.value.right);
          DescendToLeftmost();
        } else {
          AscendNext();
        }
      }
    }

    /**
     * `descendToLeftmost`, the loop `next` runs after stepping right:
     * step left until the node in hand has no left child.  The node in
     * hand's left subtree joins the front of the pending entries.
     */
    method DescendToLeftmost()
      requires Valid() && slots != null && top.Some? && Chain(nodes)
      requires base + Height(nodes[0]) <= slots.Length
      modifies this`top, this`index, this`nodes, slots
      ensures Valid() && top.Some? && Chain(nodes) && nodes[0] == old(nodes)[0]
      ensures top.value.left == Null
      ensures PendingOf(nodes) == old(InOrder(top.value.left) + PendingOf(nodes))
      ensures slots[..base] == old(slots[..base])
    {
      ghost var root := nodes[0];
      ghost var target := InOrder(top.value.left) + PendingOf(nodes);
      ChainLast(nodes);
      while top.value.left != Null
        invariant Valid() && slots != null && top.Some? && top.value.Node?
        invariant Chain(nodes) && nodes[0] == root && base + Height(root) <= slots.Length
        invariant InOrder(top.value.left) + PendingOf(nodes) == target
        invariant slots[..base] == old(slots[..base])
        decreases Height(top.value)
      {
        DescendStep(nodes, top.value.left);
        Push(top.value.left);
      }
    }

    /**
     * `ascendNext`: climb past every ancestor the walk has come back to
     * from the right, then step to the next one up, or leave the stack
     * empty at the bottom: the node in hand and its right subtree are
     * skipped, and what follows them is pending.
     */
    method AscendNext()
      requires Valid() && top.Some? && Chain(nodes)
      modifies this`top, this`index, this`nodes
      ensures Valid() && Chain(nodes)
      ensures PendingOf(nodes) == old(After(nodes))
      ensures nodes != [] ==> nodes[0] == old(nodes)[0]
    {
      ghost var root := nodes[0];
      ghost var target := After(nodes);
      while index != base && RightOf(Peek(0)) == top.value
        invariant Valid() && top.Some? && Chain(nodes) && nodes[0] == root && After(nodes) == target
        decreases index
      {
        AscendStep(nodes);
        Pop(1);
      }
      if index == base {
        Clear();
      } else {
        AscendStop(nodes);
        Pop(1);
      }
    }
  }
}
