/**
 * The predicate adapters that evaluate a query's test and turn it into an
 * index scan: ComparisonAdapter
 * (src/com/readytalk/oss/dbms/imp/ComparisonAdapter.java),
 * BooleanBinaryAdapter and BooleanUnaryAdapter
 * (server/src/main/java/com/readytalk/revori/imp/).
 *
 * Evaluation is three-valued: a test over a column whose value is not
 * known yet evaluates to `Undefined`.  A column reference evaluates to the
 * value the iterator has put in it (`row`); constants and column references
 * are the leaves (ConstantAdapter and ColumnReferenceAdapter, which are not
 * part of this model beyond what the three adapters ask of them).
 */
module Adapters {
  import opened Compare
  import opened Intervals
  import opened Scans

  /** The objects an expression evaluates to: `null`, a `Boolean`, or a key or sentinel. */
  datatype Obj = Null | Truth(b: bool) | Val(v: Value)

  /** The class `type()` reports. */
  datatype Class = NoClass | BooleanClass | KeyClass | SentinelClass

  datatype BinaryType = And | Or | Equal | NotEqual | LessThan | LessThanOrEqual | GreaterThan | GreaterThanOrEqual
  datatype UnaryType = Not | IsNull
  datatype OperationClass = Boolean | Comparison

  function ClassOf(t: BinaryType): OperationClass
  {
    if t == And || t == Or then Boolean else Comparison
  }

  datatype Expr =
    | Constant(value: Obj)
    | Reference(column: nat, columnClass: Class)
    | Compared(op: BinaryType, left: Expr, right: Expr)
    | Connected(op: BinaryType, left: Expr, right: Expr)
    | Negated(unary: UnaryType, operand: Expr)

  /** The Java exceptions the adapters throw. */
  datatype Failure = IllegalArgument | ClassCast | UnsupportedOperation | Unexpected | NonKeyBound

  datatype Outcome<T> = Ok(value: T) | Raised(failure: Failure)

  /** `type()`. */
  function TypeOf(e: Expr): Class
  {
    match e
    case Constant(v) =>
      (match v
       case Null => NoClass
       case Truth(_) => BooleanClass
       case Val(Item(_)) => KeyClass
       case Val(_) => SentinelClass)
    case Reference(_, c) => c
    case _ => BooleanClass
  }

  /** The `ComparisonAdapter` constructor: only comparison operations. */
  function MakeComparison(op: BinaryType, left: Expr, right: Expr): (r: Outcome<Expr>)
    ensures r.Ok? <==> ClassOf(op) == Comparison
    ensures r.Raised? ==> r.failure == IllegalArgument
    ensures r.Ok? ==> r.value == Compared(op, left, right)
  {
    if ClassOf(op) != Comparison then Raised(IllegalArgument) else Ok(Compared(op, left, right))
  }

  /** The `BooleanBinaryAdapter` constructor: a Boolean operation over two Boolean operands. */
  function MakeConnective(op: BinaryType, left: Expr, right: Expr): (r: Outcome<Expr>)
    ensures r.Ok? <==> ClassOf(op) == Boolean && TypeOf(left) == BooleanClass && TypeOf(right) == BooleanClass
    ensures r.Raised? && ClassOf(op) == Boolean ==> r.failure == ClassCast
    ensures r.Raised? && ClassOf(op) != Boolean ==> r.failure == IllegalArgument
  {
    if ClassOf(op) != Boolean then Raised(IllegalArgument)
    else if TypeOf(left) != BooleanClass then Raised(ClassCast)
    else if TypeOf(right) != BooleanClass then Raised(ClassCast)
    else Ok(Connected(op, left, right))
  }

  // ---------------------------------------------------------------------
  // Evaluation.

  /** `Comparable.compareTo` on the objects a comparison sees. */
  function CompareTo(a: Obj, b: Obj): (r: Outcome<int>)
    ensures a.Val? && a.v.Item? && b.Val? && b.v.Item? ==> r.Ok? && (r.value < 0 <==> a.v.key < b.v.key) && (r.value == 0 <==> a == b)
  {
    match (a, b)
    case (Val(Item(x)), Val(Item(y))) => Ok(Order(x, y))
    case (Truth(x), Truth(y)) => Ok(if x == y then 0 else if y then -1 else 1)
    case (Val(Dummy), _) => Raised(UnsupportedOperation)
    case (Val(Undefined), _) => Raised(UnsupportedOperation)
    case _ => Raised(ClassCast)
  }

  /** The switch in `ComparisonAdapter.evaluate`, on two objects neither `null` nor `Undefined`. */
  function CompareObjects(op: BinaryType, a: Obj, b: Obj): Outcome<Obj>
  {
    match op
    case Equal => Ok(Truth(a == b))
    case NotEqual => Ok(Truth(a != b))
    case GreaterThan => (match CompareTo(a, b) case Ok(c) => Ok(Truth(c > 0)) case Raised(f) => Raised(f))
    case GreaterThanOrEqual => (match CompareTo(a, b) case Ok(c) => Ok(Truth(c >= 0)) case Raised(f) => Raised(f))
    case LessThan => (match CompareTo(a, b) case Ok(c) => Ok(Truth(c < 0)) case Raised(f) => Raised(f))
    case LessThanOrEqual => (match CompareTo(a, b) case Ok(c) => Ok(Truth(c <= 0)) case Raised(f) => Raised(f))
    case _ => Raised(Unexpected)
  }

  /** `evaluate(convertDummyToNull)` of each adapter; the left operand is evaluated first. */
  function Evaluate(e: Expr, row: nat -> Obj, convertDummyToNull: bool): (r: Outcome<Obj>)
    ensures e.Compared? && r.Ok? ==> r.value.Truth? || r.value == Val(Undefined)
    ensures e.Connected? && r.Ok? ==> r.value.Truth? || r.value == Val(Undefined)
    ensures e.Negated? && r.Ok? ==> r.value.Truth? || r.value == Val(Undefined)
    decreases e
  {
    match e
    case Constant(v) => Ok(v)
    case Reference(c, _) => if convertDummyToNull && row(c) == Val(Dummy) then Ok(Null) else Ok(row(c))
    case Compared(op, left, right) =>
      (match Evaluate(left, row, convertDummyToNull)
       case Raised(f) => Raised(f)
       case Ok(a) =>
         match Evaluate(right, row, convertDummyToNull)
         case Raised(f) => Raised(f)
         case Ok(b) =>
           if a == Null || b == Null then Ok(Truth(false))
           else if a == Val(Undefined) || b == Val(Undefined) then Ok(Val(Undefined))
           else CompareObjects(op, a, b))
    case Connected(op, left, right) =>
      (match Evaluate(left, row, convertDummyToNull)
       case Raised(f) => Raised(f)
       case Ok(a) =>
         match Evaluate(right, row, convertDummyToNull)
         case Raised(f) => Raised(f)
         case Ok(b) =>
           if a == Null || b == Null then Ok(Truth(false))
           else if a == Val(Undefined) || b == Val(Undefined) then Ok(Val(Undefined))
           else if op == And then Ok(Truth(a == Truth(true) && b == Truth(true)))
           else if op == Or then Ok(Truth(a == Truth(true) || b == Truth(true)))
           else Raised(Unexpected))
    case Negated(op, operand) =>
      match Evaluate(operand, row, convertDummyToNull)
      case Raised(f) => Raised(f)
      case Ok(a) =>
        if a == Null then Ok(Truth(op == IsNull))
        else if a == Val(Undefined) then Ok(Val(Undefined))
        else if op == Not then Ok(Truth(a != Truth(true)))
        else Ok(Truth(false))
  }

  /** `null` makes a comparison or a connective false and `Undefined` propagates; `null` is null and not false. */
  lemma NullAndUndefined(op: BinaryType, unary: UnaryType, known: Obj, row: nat -> Obj, convert: bool)
    ensures Evaluate(Compared(op, Constant(Null), Constant(known)), row, convert) == Ok(Truth(false))
    ensures Evaluate(Connected(op, Constant(known), Constant(Null)), row, convert) == Ok(Truth(false))
    ensures known != Null ==>
      Evaluate(Compared(op, Constant(Val(Undefined)), Constant(known)), row, convert) == Ok(Val(Undefined)) &&
      Evaluate(Connected(op, Constant(known), Constant(Val(Undefined))), row, convert) == Ok(Val(Undefined))
    ensures Evaluate(Negated(unary, Constant(Null)), row, convert) == Ok(Truth(unary == IsNull))
    ensures Evaluate(Negated(unary, Constant(Val(Undefined))), row, convert) == Ok(Val(Undefined))
  {
  }

  // ---------------------------------------------------------------------
  // Scans.

  /** The key a bound expression stands for, as the interval scan casts it. */
  function Bound(o: Obj): Outcome<Value>
  {
    if o.Val? then Ok(o.v) else Raised(NonKeyBound)
  }

  /**
   * The scan for `left op right` with the reference on the left (on the
   * right, `Mirror` swaps the operation first); `bound` is what the other
   * side evaluates to when the plan is made.
   */
  function ComparisonScan(op: BinaryType, bound: Obj): (r: Outcome<Scan>)
    ensures bound == Val(Undefined) ==> r == Ok(UnknownScan)
    ensures bound != Val(Undefined) ==> (r.Ok? <==> bound.Val? && ClassOf(op) == Comparison)
    ensures r.Raised? ==> r.failure == if bound.Val? then Unexpected else NonKeyBound
  {
    if bound == Val(Undefined) then Ok(UnknownScan)
    else
      match Bound(bound)
      case Raised(f) => Raised(f)
      case Ok(v) =>
        match op
        case Equal => Ok(IntervalScan(Interval(v, Inclusive, v, Inclusive)))
        case NotEqual => Ok(IntervalScan(Unbounded))
        case GreaterThan => Ok(IntervalScan(Interval(v, Exclusive, Undefined, Inclusive)))
        case GreaterThanOrEqual => Ok(IntervalScan(Interval(v, Inclusive, Undefined, Inclusive)))
        case LessThan => Ok(IntervalScan(Interval(Undefined, Inclusive, v, Exclusive)))
        case LessThanOrEqual => Ok(IntervalScan(Interval(Undefined, Inclusive, v, Inclusive)))
        case _ => Raised(Unexpected)
  }

  /** `a op b` says the same as `b (Mirror op) a`. */
  function Mirror(op: BinaryType): BinaryType
  {
    match op
    case GreaterThan => LessThan
    case GreaterThanOrEqual => LessThanOrEqual
    case LessThan => GreaterThan
    case LessThanOrEqual => GreaterThanOrEqual
    case _ => op
  }

  /**
   * `makeScan(reference)` of each adapter, with every column reference
   * holding `plan` while the plan is made.  A constant gives the unbounded
   * scan for `true` and the empty scan for `false`; a column reference
   * cannot make a scan.
   */
  function MakeScan(e: Expr, column: nat, plan: nat -> Obj): (r: Outcome<Scan>)
    ensures e.Constant? ==> (r.Ok? <==> e.value.Truth?)
    ensures e.Reference? ==> r == Raised(UnsupportedOperation)
    ensures e.Negated? && e.unary == IsNull ==> r == Ok(IntervalScan(Unbounded))
    ensures e.Connected? && r.Ok? ==> r.value.IntersectionScan? || r.value.UnionScan?
    decreases e
  {
    match e
    case Constant(v) =>
      if v == Truth(true) then Ok(IntervalScan(Unbounded))
      else if v == Truth(false) then Ok(IntervalScan(Empty))
      else Raised(UnsupportedOperation)
    case Reference(_, _) => Raised(UnsupportedOperation)
    case Compared(op, left, right) =>
      if left.Reference? && left.column == column then
        match Evaluate(right, plan, false)
        case Raised(f) => Raised(f)
        case Ok(b) => ComparisonScan(op, b)
      else if right.Reference? && right.column == column then
        match Evaluate(left, plan, false)
        case Raised(f) => Raised(f)
        case Ok(b) => ComparisonScan(Mirror(op), b)
      else Ok(IntervalScan(Unbounded))
    case Connected(op, left, right) =>
      (match MakeScan(left, column, plan)
       case Raised(f) => Raised(f)
       case Ok(l) =>
         match MakeScan(right, column, plan)
         case Raised(f) => Raised(f)
         case Ok(r) =>
           if op == And then Ok(IntersectionScan(l, r))
           else if op == Or then Ok(UnionScan(l, r))
           else Raised(Unexpected))
    case Negated(op, operand) =>
      if op == IsNull then Ok(IntervalScan(Unbounded))
      else
        match MakeScan(operand, column, plan)
        case Raised(f) => Raised(f)
        case Ok(s) => Ok(NegationScan(s))
  }

  // ---------------------------------------------------------------------
  // What the scan of a test on one column promises: a row whose column
  // holds the key `x` and passes the test lies in the scan.

  /** The row in which `column` holds the key `x`. */
  predicate Holds(row: nat -> Obj, column: nat, x: int)
  {
    row(column) == Val(Item(x))
  }

  /** A test on `column` alone: comparisons of it against integer constants, connectives and negations. */
  predicate OnColumn(e: Expr, column: nat)
  {
    match e
    case Constant(v) => v.Truth?
    case Reference(_, _) => false
    case Compared(op, left, right) =>
      ClassOf(op) == Comparison &&
      ((left.Reference? && left.column == column && right.Constant? && right.value.Val? && right.value.v.Item?) ||
       (right.Reference? && right.column == column && left.Constant? && left.value.Val? && left.value.v.Item?))
    case Connected(op, left, right) => ClassOf(op) == Boolean && OnColumn(left, column) && OnColumn(right, column)
    case Negated(_, operand) => OnColumn(operand, column)
  }

  /** A test on one column whose scan is exact: no `<>` and no `IS NULL`. */
  predicate Exact(e: Expr, column: nat)
  {
    OnColumn(e, column) &&
    match e
    case Compared(op, _, _) => op != NotEqual
    case Connected(_, left, right) => Exact(left, column) && Exact(right, column)
    case Negated(op, operand) => op == Not && Exact(operand, column)
    case _ => true
  }

  /** A test on one column evaluates to a Boolean wherever the column holds a key. */
  lemma {:induction false} OnColumnIsTwoValued(e: Expr, column: nat, row: nat -> Obj, x: int)
    requires OnColumn(e, column) && Holds(row, column, x)
    ensures Evaluate(e, row, false).Ok? && Evaluate(e, row, false).value.Truth?
    decreases e
  {
    match e
    case Constant(_) =>
    case Reference(_, _) =>
    case Compared(_, _, _) =>
    case Connected(_, left, right) =>
      OnColumnIsTwoValued(left, column, row, x);
      OnColumnIsTwoValued(right, column, row, x);
    case Negated(_, operand) =>
      OnColumnIsTwoValued(operand, column, row, x);
  }

  /** Comparing the column against a constant key gives the interval of exactly the keys that pass. */
  lemma ComparisonScanExact(op: BinaryType, c: int, x: int)
    requires ClassOf(op) == Comparison
    ensures ComparisonScan(op, Val(Item(c))).Ok?
    ensures op != NotEqual ==>
      (Keys(ComparisonScan(op, Val(Item(c))).value, x) <==> CompareObjects(op, Val(Item(x)), Val(Item(c))) == Ok(Truth(true)))
    ensures op != NotEqual ==>
      (Keys(ComparisonScan(Mirror(op), Val(Item(c))).value, x) <==> CompareObjects(op, Val(Item(c)), Val(Item(x))) == Ok(Truth(true)))
    ensures op == NotEqual ==> ComparisonScan(op, Val(Item(c))).value == IntervalScan(Unbounded)
  {
  }

  /**
   * For an exact test, the scan holds a key exactly when the row with that
   * key in the column passes the test, whatever the plan-time values.
   */
  lemma {:induction false} ExactScan(e: Expr, column: nat, plan: nat -> Obj, row: nat -> Obj, x: int)
    requires Exact(e, column) && Holds(row, column, x)
    ensures MakeScan(e, column, plan).Ok?
    ensures Keys(MakeScan(e, column, plan).value, x) <==> Evaluate(e, row, false) == Ok(Truth(true))
    decreases e
  {
    OnColumnIsTwoValued(e, column, row, x);
    match e
    case Constant(_) =>
    case Reference(_, _) =>
    case Compared(op, left, right) =>
      ComparisonScanExact(op, if left.Reference? && left.column == column then right.value.v.key else left.value.v.key, x);
    case Connected(_, left, right) =>
      ExactScan(left, column, plan, row, x);
      ExactScan(right, column, plan, row, x);
    case Negated(_, operand) =>
      ExactScan(operand, column, plan, row, x);
      OnColumnIsTwoValued(operand, column, row, x);
  }

  // ---------------------------------------------------------------------
  // Tests whose scans the walks evaluate exactly (`Scans.KeysExact`).

  /** A constant, a comparison, or the negation of one. */
  predicate Literal(e: Expr)
  {
    e.Constant? || e.Compared? || (e.Negated? && (e.operand.Constant? || e.operand.Compared?))
  }

  /** Literals joined by `OR`. */
  predicate Disjunction(e: Expr)
  {
    Literal(e) || (e.Connected? && e.op == Or && Disjunction(e.left) && Disjunction(e.right))
  }

  /** A disjunction, or the conjunction of two literals. */
  predicate Flat(e: Expr)
  {
    Disjunction(e) || (e.Connected? && e.op == And && Literal(e.left) && Literal(e.right))
  }

  /** The scan of an exact literal evaluates to a sorted list. */
  lemma LiteralScanSorted(e: Expr, column: nat, plan: nat -> Obj)
    requires Exact(e, column) && Literal(e)
    ensures MakeScan(e, column, plan).Ok?
    ensures SortedOut(MakeScan(e, column, plan).value) && KeysExact(MakeScan(e, column, plan).value)
  {
    UnboundedHoldsEverything(0);
  }

  /** The scan of an exact disjunction evaluates to proper intervals holding exactly its keys. */
  lemma {:induction false} DisjunctionScanProper(e: Expr, column: nat, plan: nat -> Obj)
    requires Exact(e, column) && Disjunction(e)
    ensures MakeScan(e, column, plan).Ok?
    ensures ProperOut(MakeScan(e, column, plan).value) && KeysExact(MakeScan(e, column, plan).value)
    decreases e
  {
    if Literal(e) {
      LiteralScanSorted(e, column, plan);
    } else {
      DisjunctionScanProper(e.left, column, plan);
      DisjunctionScanProper(e.right, column, plan);
    }
  }

  /**
   * The scan of an exact flat test is one whose evaluation holds exactly
   * its keys, so, with `ExactScan`, the evaluated scan holds exactly the
   * keys of the rows that pass the test.
   */
  lemma FlatScanExact(e: Expr, column: nat, plan: nat -> Obj)
    requires Exact(e, column) && Flat(e)
    ensures MakeScan(e, column, plan).Ok?
    ensures KeysExact(MakeScan(e, column, plan).value)
  {
    if Disjunction(e) {
      DisjunctionScanProper(e, column, plan);
    } else {
      LiteralScanSorted(e.left, column, plan);
      LiteralScanSorted(e.right, column, plan);
    }
  }

  /**
   * `NOT (column <> 5)`: the scan of `<>` is the unbounded interval, whose
   * negation holds no key, yet the row whose column holds 5 passes the test.
   */
  lemma NegatedInexactScan(column: nat, row: nat -> Obj, plan: nat -> Obj)
    requires Holds(row, column, 5)
    ensures var e := Negated(Not, Compared(NotEqual, Reference(column, KeyClass), Constant(Val(Item(5)))));
      Evaluate(e, row, false) == Ok(Truth(true)) &&
      MakeScan(e, column, plan) == Ok(NegationScan(IntervalScan(Unbounded))) &&
      !Keys(MakeScan(e, column, plan).value, 5)
  {
    var test := Compared(NotEqual, Reference(column, KeyClass), Constant(Val(Item(5))));
    assert Evaluate(test, row, false) == Ok(Truth(false));
  }

  /** `makeScan` with a negation taken only over an exact test; anything else scans everything. */
  function MakeScanGuarded(e: Expr, column: nat, plan: nat -> Obj): Outcome<Scan>
    decreases e
  {
    match e
    case Connected(op, left, right) =>
      (match MakeScanGuarded(left, column, plan)
       case Raised(f) => Raised(f)
       case Ok(l) =>
         match MakeScanGuarded(right, column, plan)
         case Raised(f) => Raised(f)
         case Ok(r) =>
           if op == And then Ok(IntersectionScan(l, r))
           else if op == Or then Ok(UnionScan(l, r))
           else Raised(Unexpected))
    case Negated(op, operand) =>
      if op == Not && Exact(operand, column) then
        match MakeScan(operand, column, plan)
        case Raised(f) => Raised(f)
        case Ok(s) => Ok(NegationScan(s))
      else Ok(IntervalScan(Unbounded))
    case _ => MakeScan(e, column, plan)
  }

  /** Every row that passes a test on one column lies in the guarded scan. */
  lemma {:induction false} GuardedScanCovers(e: Expr, column: nat, plan: nat -> Obj, row: nat -> Obj, x: int)
    requires OnColumn(e, column) && Holds(row, column, x)
    requires Evaluate(e, row, false) == Ok(Truth(true))
    ensures MakeScanGuarded(e, column, plan).Ok?
    ensures Keys(MakeScanGuarded(e, column, plan).value, x)
    decreases e
  {
    match e
    case Constant(_) =>
    case Reference(_, _) =>
    case Compared(op, left, right) =>
      ComparisonScanExact(op, if left.Reference? && left.column == column then right.value.v.key else left.value.v.key, x);
    case Connected(op, left, right) =>
      OnColumnIsTwoValued(left, column, row, x);
      OnColumnIsTwoValued(right, column, row, x);
      GuardedOk(left, column, plan);
      GuardedOk(right, column, plan);
      if Evaluate(left, row, false) == Ok(Truth(true)) {
        GuardedScanCovers(left, column, plan, row, x);
      }
      if Evaluate(right, row, false) == Ok(Truth(true)) {
        GuardedScanCovers(right, column, plan, row, x);
      }
    case Negated(op, operand) =>
      if op == Not && Exact(operand, column) {
        ExactScan(operand, column, plan, row, x);
        OnColumnIsTwoValued(operand, column, row, x);
      }
  }

  /** The guarded scan of a test on one column is always made. */
  lemma {:induction false} GuardedOk(e: Expr, column: nat, plan: nat -> Obj)
    requires OnColumn(e, column)
    ensures MakeScanGuarded(e, column, plan).Ok?
    decreases e
  {
    match e
    case Constant(_) =>
    case Reference(_, _) =>
    case Compared(op, left, right) =>
      ComparisonScanExact(op, if left.Reference? && left.column == column then right.value.v.key else left.value.v.key, 0);
    case Connected(_, left, right) =>
      GuardedOk(left, column, plan);
      GuardedOk(right, column, plan);
    case Negated(op, operand) =>
      if op == Not && Exact(operand, column) {
        ExactOk(operand, column, plan);
      }
  }

  /** The scan of an exact test is always made. */
  lemma {:induction false} ExactOk(e: Expr, column: nat, plan: nat -> Obj)
    requires Exact(e, column)
    ensures MakeScan(e, column, plan).Ok?
    decreases e
  {
    match e
    case Constant(_) =>
    case Reference(_, _) =>
    case Compared(op, left, right) =>
      ComparisonScanExact(op, if left.Reference? && left.column == column then right.value.v.key else left.value.v.key, 0);
    case Connected(_, left, right) =>
      ExactOk(left, column, plan);
      ExactOk(right, column, plan);
    case Negated(_, operand) =>
      ExactOk(operand, column, plan);
  }
}
