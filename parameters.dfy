/**
 * ParameterCounter (server/src/main/java/com/readytalk/revori/ParameterCounter.java):
 * counts the parameter placeholders of a list of expressions, refusing a
 * placeholder that occurs twice.  A parameter is identified by its `order`,
 * the serial number it was created with.
 */
module Parameters {
  import opened Wire

  /** The expressions a visitor walks: a placeholder, a leaf, or an operation over operands. */
  datatype Expression = Parameter(order: int) | Constant(value: int) | ColumnReference(column: nat) | Operation(operands: seq<Expression>)

  /** The order `e.visit(visitor)` hands expressions to the visitor: the expression, then its operands. */
  function Preorder(e: Expression): seq<Expression>
    decreases e, 1
  {
    match e
    case Operation(operands) => [e] + PreorderAll(operands)
    case _ => [e]
  }

  function PreorderAll(es: seq<Expression>): seq<Expression>
    decreases es, 0
  {
    if es == [] then [] else PreorderAll(es[..|es| - 1]) + Preorder(es[|es| - 1])
  }

  /** The parameter orders among visited expressions, in visiting order. */
  function Orders(visited: seq<Expression>): seq<int>
  {
    if visited == [] then []
    else Orders(visited[..|visited| - 1]) + (if visited[|visited| - 1].Parameter? then [visited[|visited| - 1].order] else [])
  }

  predicate Distinct(s: seq<int>)
  {
    forall i, j :: 0 <= i < j < |s| ==> s[i] != s[j]
  }

  lemma {:induction false} OrdersAppend(a: seq<Expression>, b: seq<Expression>)
    ensures Orders(a + b) == Orders(a) + Orders(b)
    decreases |b|
  {
    if b == [] {
      assert a + b == a;
    } else {
      assert (a + b)[..|a + b| - 1] == a + b[..|b| - 1];
      OrdersAppend(a, b[..|b| - 1]);
    }
  }

  /** An order is among the visited parameters exactly when a visited parameter carries it. */
  lemma {:induction false} OrdersMembers(visited: seq<Expression>, order: int)
    ensures order in Orders(visited) <==> Parameter(order) in visited
    decreases |visited|
  {
    if visited != [] {
      var init := visited[..|visited| - 1];
      OrdersMembers(init, order);
      assert visited == init + [visited[|visited| - 1]];
    }
  }

  class ParameterCounter {
    var parameters: set<int>
    var count: int

    /** `count` is the number of parameters seen. */
    predicate Valid()
      reads this
    {
      count == |parameters|
    }

    constructor()
      ensures Valid() && parameters == {} && count == 0
    {
      parameters := {};
      count := 0;
    }

    /**
     * `visit`: a parameter not seen before is recorded and counted; one
     * seen before is an `IllegalArgumentException` (`ok` false); any other
     * expression changes nothing.
     */
    method Visit(e: Expression) returns (ok: bool)
      requires Valid()
      modifies this
      ensures Valid()
      ensures ok <==> !(e.Parameter? && e.order in old(parameters))
      ensures ok && e.Parameter? ==> parameters == old(parameters) + {e.order} && count == old(count) + 1
      ensures !(ok && e.Parameter?) ==> parameters == old(parameters) && count == old(count)
    {
      if e.Parameter? {
        if e.order in parameters {
          return false;
        } else {
          parameters := parameters + {e.order};
          count := count + 1;
        }
      }
      return true;
    }
  }

  function Elems(s: seq<int>): set<int>
  {
    set k | k in s
  }

  /** The counter has seen exactly the distinct parameters `orders`. */
  predicate Counted(counter: ParameterCounter, orders: seq<int>)
    reads counter
  {
    Distinct(orders) && counter.parameters == Elems(orders) && counter.count == |orders|
  }

  lemma DistinctSnoc(s: seq<int>, x: int)
    requires Distinct(s) && x !in s
    ensures Distinct(s + [x])
  {
  }

  /** A duplicate stays a duplicate whatever follows it. */
  lemma DuplicateExtends(s: seq<int>, t: seq<int>)
    requires !Distinct(s)
    ensures !Distinct(s + t)
  {
    var i, j :| 0 <= i < j < |s| && s[i] == s[j];
    assert (s + t)[i] == (s + t)[j];
  }

  lemma RepeatNotDistinct(s: seq<int>, x: int)
    requires x in s
    ensures !Distinct(s + [x])
  {
    var i :| 0 <= i < |s| && s[i] == x;
    assert (s + [x])[i] == (s + [x])[|s|];
  }

  lemma {:induction false} PreorderAllAppend(a: seq<Expression>, b: seq<Expression>)
    ensures PreorderAll(a + b) == PreorderAll(a) + PreorderAll(b)
    decreases |b|
  {
    if b == [] {
      assert a + b == a;
    } else {
      var init, last := b[..|b| - 1], b[|b| - 1];
      assert (a + b)[..|a + b| - 1] == a + init;
      assert (a + b)[|a + b| - 1] == last;
      PreorderAllAppend(a, init);
      calc {
        PreorderAll(a + b);
        PreorderAll(a + init) + Preorder(last);
        PreorderAll(a) + PreorderAll(init) + Preorder(last);
        PreorderAll(a) + (PreorderAll(init) + Preorder(last));
        PreorderAll(a) + PreorderAll(b);
      }
    }
  }

  /**
   * Visit every expression of `visited` in turn, as `e.visit(counter)` does,
   * stopping at the first duplicate; `before` are the parameters counted so far.
   */
  method VisitAll(counter: ParameterCounter, visited: seq<Expression>, ghost before: seq<int>) returns (ok: bool)
    requires counter.Valid() && Counted(counter, before)
    modifies counter
    ensures counter.Valid()
    ensures ok <==> Distinct(before + Orders(visited))
    ensures ok ==> Counted(counter, before + Orders(visited))
  {
    var i := 0;
    while i < |visited|
      invariant 0 <= i <= |visited|
      invariant counter.Valid()
      invariant Counted(counter, before + Orders(visited[..i]))
    {
      VisitStep(before, visited, i);
      var visitedOk := counter.Visit(visited[i]);
      if !visitedOk {
        VisitFails(before, visited, i);
        return false;
      }
      if visited[i].Parameter? {
        DistinctSnoc(before + Orders(visited[..i]), visited[i].order);
      }
      i := i + 1;
    }
    assert visited[..i] == visited;
    return true;
  }

  /** One more visited expression adds its order when it is a parameter. */
  lemma VisitStep(before: seq<int>, visited: seq<Expression>, i: int)
    requires 0 <= i < |visited|
    ensures before + Orders(visited[..i + 1]) ==
      before + Orders(visited[..i]) + (if visited[i].Parameter? then [visited[i].order] else [])
  {
    assert visited[..i + 1][..i] == visited[..i];
  }

  /** A parameter met again makes the orders of the whole walk repeat. */
  lemma VisitFails(before: seq<int>, visited: seq<Expression>, i: int)
    requires 0 <= i < |visited| && visited[i].Parameter?
    requires visited[i].order in before + Orders(visited[..i])
    ensures !Distinct(before + Orders(visited))
  {
    var seen := before + Orders(visited[..i]);
    VisitStep(before, visited, i);
    RepeatNotDistinct(seen, visited[i].order);
    assert visited == visited[..i + 1] + visited[i + 1..];
    OrdersAppend(visited[..i + 1], visited[i + 1..]);
    assert before + Orders(visited) == (seen + [visited[i].order]) + Orders(visited[i + 1..]);
    DuplicateExtends(seen + [visited[i].order], Orders(visited[i + 1..]));
  }

  /**
   * `countParameters`: the number of parameters in the expressions and
   * their operands, or `None` for the `IllegalArgumentException` a
   * duplicate raises.
   */
  method CountParameters(expressions: seq<Expression>) returns (r: Option<int>)
    ensures r.Some? <==> Distinct(Orders(PreorderAll(expressions)))
    ensures r.Some? ==> r.value == |Orders(PreorderAll(expressions))|
    ensures r.Some? ==> r.value == |Elems(Orders(PreorderAll(expressions)))|
    ensures expressions == [] ==> r == Some(0)
  {
    var counter := new ParameterCounter();
    var i := 0;
    while i < |expressions|
      invariant 0 <= i <= |expressions|
      invariant counter.Valid()
      invariant Counted(counter, Orders(PreorderAll(expressions[..i])))
    {
      ghost var done := PreorderAll(expressions[..i]);
      var next := Preorder(expressions[i]);
      assert expressions[..i + 1][..i] == expressions[..i];
      assert PreorderAll(expressions[..i + 1]) == done + next;
      OrdersAppend(done, next);
      var ok := VisitAll(counter, next, Orders(done));
      if !ok {
        assert expressions == expressions[..i + 1] + expressions[i + 1..];
        PreorderAllAppend(expressions[..i + 1], expressions[i + 1..]);
        OrdersAppend(done + next, PreorderAll(expressions[i + 1..]));
        DuplicateExtends(Orders(done + next), Orders(PreorderAll(expressions[i + 1..])));
        return None;
      }
      i := i + 1;
    }
    assert expressions[..i] == expressions;
    return Some(counter.count);
  }
}
