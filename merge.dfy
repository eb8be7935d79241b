/**
 * The three-way merge rule of
 * src/main/java/com/readytalk/revori/imp/Merge.java: the short cuts taken
 * on whole revisions, and the decision taken for each key the merge walk
 * meets, given the node the base, the left fork and the right fork hold
 * for it (`Null` where a side holds none).
 *
 * The merged revision starts as the left fork; each decision says what
 * to do to it at that key.  At the bottom level (column values) the rule
 * is the classic three-way merge in which a delete beats a concurrent
 * update; what neither side settles goes to the conflict resolver.
 */
module Merges {
  import opened Wire
  import opened Trees

  /** The tree level of the index trees, under the table level. */
  const IndexDataDepth := 1

  /** The three-way rule: a side that did not change yields the other side. */
  function ThreeWay<T(==)>(b: T, l: T, r: T): (m: Option<T>)
    ensures m.Some? <==> l == r || b == l || b == r
    ensures m.Some? ==> m.value == (if b == l then r else l)
  {
    if l == r then Some(l)
    else if b == l then Some(r)
    else if b == r then Some(l)
    else None
  }

  /**
   * The short cuts of `mergeRevisions`: `Some` is the merged revision,
   * `None` means the revisions have to be merged key by key.
   */
  function ShortCircuit<R(==)>(base: R, left: R, right: R): (r: Option<R>)
    ensures base == right || left == right ==> r == Some(left)
    ensures base == left ==> r == Some(right)
    ensures r.None? <==> base != left && base != right && left != right
    ensures r == ThreeWay(base, left, right)
  {
    if base == right || left == right then Some(left)
    else if base == left then
      // Never false here: `left == right` was handled above.
      if left == right then Some(left) else Some(right)
    else None
  }

  /** What the merge does to the left fork at one key. */
  datatype Action = Keep | Put(key: int, value: Entry) | Delete(key: int) | Descend | Conflict

  /** The value a side holds at the key, if any. */
  function ValueOf(t: Tree): Option<Entry>
  {
    if t.Node? then Some(t.value) else None
  }

  /** The value the merged revision holds at the key after a settled action on the left fork's value. */
  function Applied(a: Action, left: Option<Entry>): Option<Entry>
    requires !a.Descend? && !a.Conflict?
  {
    match a
    case Keep => left
    case Put(_, v) => Some(v)
    case Delete(_) => None
  }

  /** The nodes the walk pairs up share their key. */
  predicate SameKey(base: Tree, left: Tree, right: Tree)
  {
    && (base.Node? && left.Node? ==> base.key == left.key)
    && (base.Node? && right.Node? ==> base.key == right.key)
    && (left.Node? && right.Node? ==> left.key == right.key)
  }

  /**
   * The decision for one key at tree level `depth`, where `bottom` is the
   * level of column values and `rightPrimary` says whether the right
   * node's key, at the index level, is the table's primary key.
   */
  function Decide(base: Tree, left: Tree, right: Tree, depth: int, bottom: int, rightPrimary: bool): (a: Action)
    requires base.Node? || left.Node? || right.Node?
    // A key only the right fork has is inserted, unless it is a
    // secondary index (rebuilt from the merged data instead).
    ensures base.Null? && left.Null? ==>
      a == (if depth != IndexDataDepth || rightPrimary then Put(right.key, right.value) else Keep)
    // Identical inserts in both forks agree.
    ensures base.Null? && left.Node? && right.Node? && depth == bottom && left.value == right.value ==> a == Keep
    // A side that deleted the key against an update on the other: the key goes.
    ensures base.Node? && depth == bottom && left.Node? && right.Null? ==> a == Delete(left.key)
    ensures base.Node? && depth == bottom && left.Null? ==> a == Keep
    // Only differing column values both forks hold conflict.
    ensures a.Conflict? ==> depth == bottom && left.Node? && right.Node? && left.value != right.value
    ensures a.Descend? ==> depth != bottom
    // Above the bottom a subtree is taken whole only from a side the other left unchanged.
    ensures a.Put? && base.Node? ==> right.Node? && (left == base || depth == bottom)
  {
    if base.Null? then
      if left.Null? then
        if depth != IndexDataDepth || rightPrimary then Put(right.key, right.value) else Keep
      else if right.Null? then Keep
      else if depth == bottom then
        if left.value == right.value then Keep else Conflict
      else Descend
    else if left.Node? then
      if right.Node? then
        if left == base then Put(right.key, right.value)
        else if right == base then Keep
        else if depth == bottom then
          if left.value == right.value || base.value == right.value then Keep
          else if base.value == left.value then Put(right.key, right.value)
          else Conflict
        else Descend
      else if depth != bottom then Descend
      else Delete(left.key)
    else if depth != bottom then Descend
    else Keep
  }

  /** The bottom-level rule: the three-way rule, with a delete beating a concurrent update. */
  function LeafMerge(b: Option<Entry>, l: Option<Entry>, r: Option<Entry>): (m: Option<Option<Entry>>)
    ensures m.None? ==> l.Some? && r.Some?
  {
    var plain := ThreeWay(b, l, r);
    if plain.None? && (l.None? || r.None?) then Some(None) else plain
  }

  /**
   * At the bottom level the decision is the bottom-level rule: it asks
   * the resolver exactly when the rule leaves the key unsettled, and
   * otherwise leaves the merged revision with the value the rule picks.
   */
  lemma DecideIsLeafMerge(base: Tree, left: Tree, right: Tree, depth: int, bottom: int, rightPrimary: bool)
    requires base.Node? || left.Node? || right.Node?
    requires depth == bottom && depth != IndexDataDepth
    ensures var a := Decide(base, left, right, depth, bottom, rightPrimary);
      && !a.Descend?
      && (a.Conflict? <==> LeafMerge(ValueOf(base), ValueOf(left), ValueOf(right)).None?)
      && (!a.Conflict? ==> Applied(a, ValueOf(left)) == LeafMerge(ValueOf(base), ValueOf(left), ValueOf(right)).value)
  {
  }

  /** The key the walk is at: the base's, else the left fork's, else the right fork's. */
  function KeyOf(base: Tree, left: Tree, right: Tree): (k: int)
    requires base.Node? || left.Node? || right.Node?
    requires SameKey(base, left, right)
    ensures base.Node? ==> k == base.key
    ensures left.Node? ==> k == left.key
    ensures right.Node? ==> k == right.key
  {
    if base.Null? then (if left.Null? then right.key else left.key) else base.key
  }

  /** What is done with the resolver's answer for a conflicting key. */
  function Resolved(key: int, result: Option<Entry>, leftValue: Entry): (a: Action)
    ensures !a.Descend? && !a.Conflict?
    ensures Applied(a, Some(leftValue)) == result
    ensures result.None? ==> a == Delete(key)
    ensures a.Put? ==> a.key == key
  {
    if result == Some(leftValue) then Keep
    else if result.None? then Delete(key)
    else Put(key, result.value)
  }

  /**
   * One key of the merge walk, with the conflict resolver, which sees the
   * base value (if any) and both forks' values, as a parameter.
   */
  function MergeKey(base: Tree, left: Tree, right: Tree, depth: int, bottom: int, rightPrimary: bool,
                    resolve: (Option<Entry>, Entry, Entry) -> Option<Entry>): (a: Action)
    requires base.Node? || left.Node? || right.Node?
    requires SameKey(base, left, right)
    ensures !a.Conflict?
    ensures a.Descend? <==> Decide(base, left, right, depth, bottom, rightPrimary).Descend?
    ensures !Decide(base, left, right, depth, bottom, rightPrimary).Conflict? ==>
      a == Decide(base, left, right, depth, bottom, rightPrimary)
    ensures Decide(base, left, right, depth, bottom, rightPrimary).Conflict? ==>
      Applied(a, ValueOf(left)) == resolve(ValueOf(base), left.value, right.value)
  {
    var d := Decide(base, left, right, depth, bottom, rightPrimary);
    if d.Conflict? then
      Resolved(KeyOf(base, left, right), resolve(ValueOf(base), left.value, right.value), left.value)
    else d
  }

  /**
   * The whole bottom level: every key ends with the value the bottom-level
   * rule picks, or with the resolver's answer where the rule leaves it
   * unsettled.
   */
  lemma MergeKeyAtBottom(base: Tree, left: Tree, right: Tree, depth: int, bottom: int, rightPrimary: bool,
                         resolve: (Option<Entry>, Entry, Entry) -> Option<Entry>)
    requires base.Node? || left.Node? || right.Node?
    requires SameKey(base, left, right)
    requires depth == bottom && depth != IndexDataDepth
    ensures var a := MergeKey(base, left, right, depth, bottom, rightPrimary, resolve);
      var m := LeafMerge(ValueOf(base), ValueOf(left), ValueOf(right));
      && !a.Descend?
      && Applied(a, ValueOf(left)) == (if m.Some? then m.value else resolve(ValueOf(base), left.value, right.value))
  {
    DecideIsLeafMerge(base, left, right, depth, bottom, rightPrimary);
  }
}
