/**
 * Foldables (src/com/readytalk/revori/Foldables.java): the `Count` and
 * `Sum` aggregates.  An accumulation is a Java `Integer`, missing (`null`)
 * before the first row; arithmetic wraps around at 32 bits.
 */
module Foldables {
  import opened Wire

  /** The accumulation a fold starts from: a missing one counts as 0. */
  function Start(accumulation: Option<int32>): (r: int32)
    ensures accumulation.None? ==> r == 0
    ensures accumulation.Some? ==> r == accumulation.value
  {
    if accumulation.None? then 0 else accumulation.value
  }

  /** A row value passed to a fold: `null`, an `Integer`, or any other object. */
  datatype Obj = Null | Integer(n: int32) | Other

  /** The exceptions `Sum` can throw on its values. */
  datatype Thrown = ArrayIndexOutOfBounds | NullPointer | ClassCast

  /** What a fold step returns: the new accumulation, or the exception it throws. */
  datatype Folded = Folded(value: int32) | Failed(exception: Thrown)

  /** `Count.add`: one row more, whatever its values. */
  function CountAdd(accumulation: Option<int32>, values: seq<Obj>): (r: int32)
    ensures Start(accumulation) < 0x7fff_ffff ==> r == Start(accumulation) + 1
    ensures Start(accumulation) == 0x7fff_ffff ==> r == -0x8000_0000
  {
    Signed32(Start(accumulation) + 1)
  }

  /** `Count.subtract`: one row fewer, whatever its values. */
  function CountSubtract(accumulation: Option<int32>, values: seq<Obj>): (r: int32)
    ensures Start(accumulation) > -0x8000_0000 ==> r == Start(accumulation) - 1
    ensures Start(accumulation) == -0x8000_0000 ==> r == 0x7fff_ffff
  {
    Signed32(Start(accumulation) - 1)
  }

  /**
   * `(Integer) values[0]` as `Sum` reads it: no value at all is out of the
   * array's bounds, `null` fails on unboxing and any other object fails
   * the cast.
   */
  function FirstInteger(values: seq<Obj>): (r: Folded)
    ensures r == Failed(ArrayIndexOutOfBounds) <==> |values| == 0
    ensures r == Failed(NullPointer) <==> |values| > 0 && values[0].Null?
    ensures r == Failed(ClassCast) <==> |values| > 0 && values[0].Other?
    ensures r.Folded? <==> |values| > 0 && values[0].Integer?
    ensures r.Folded? ==> r.value == values[0].n
  {
    if |values| == 0 then Failed(ArrayIndexOutOfBounds)
    else
      match values[0]
      case Null => Failed(NullPointer)
      case Other => Failed(ClassCast)
      case Integer(n) => Folded(n)
  }

  /** `Sum.add`: the first value added in, or the exception reading it throws. */
  function SumAdd(accumulation: Option<int32>, values: seq<Obj>): (r: Folded)
    ensures r.Failed? ==> r == FirstInteger(values)
    ensures r.Folded? <==> |values| > 0 && values[0].Integer?
    ensures r.Folded? ==> (r.value - Start(accumulation) - values[0].n) % Two32 == 0
    ensures r.Folded? && -0x8000_0000 <= Start(accumulation) + values[0].n < 0x8000_0000 ==> r.value == Start(accumulation) + values[0].n
  {
    match FirstInteger(values)
    case Failed(e) => Failed(e)
    case Folded(n) => Folded(Signed32(Start(accumulation) + n))
  }

  /** `Sum.subtract`: the first value taken out, or the exception reading it throws. */
  function SumSubtract(accumulation: Option<int32>, values: seq<Obj>): (r: Folded)
    ensures r.Failed? ==> r == FirstInteger(values)
    ensures r.Folded? <==> |values| > 0 && values[0].Integer?
    ensures r.Folded? ==> (r.value - Start(accumulation) + values[0].n) % Two32 == 0
    ensures r.Folded? && -0x8000_0000 <= Start(accumulation) - values[0].n < 0x8000_0000 ==> r.value == Start(accumulation) - values[0].n
  {
    match FirstInteger(values)
    case Failed(e) => Failed(e)
    case Folded(n) => Folded(Signed32(Start(accumulation) - n))
  }

  /** Two numbers that agree modulo 2^32 narrow to the same 32-bit word. */
  lemma NarrowingCongruent(u: int, a: int32)
    requires (u - a) % Two32 == 0
    ensures Signed32(u) == a
  {
    var v := Signed32(u);
    var q1 := (v - u) / Two32;
    var q2 := (u - a) / Two32;
    assert v - u == Two32 * q1;
    assert u - a == Two32 * q2;
    assert v - a == Two32 * (q1 + q2);
  }

  /** Subtracting a row undoes adding it, wrap-around included. */
  lemma CountRoundTrip(accumulation: Option<int32>, values: seq<Obj>)
    ensures CountSubtract(Some(CountAdd(accumulation, values)), values) == Start(accumulation)
  {
    NarrowingCongruent(CountAdd(accumulation, values) - 1, Start(accumulation));
  }

  /** Subtracting a value undoes adding it, wrap-around included. */
  lemma SumRoundTrip(accumulation: Option<int32>, values: seq<Obj>)
    requires |values| > 0 && values[0].Integer?
    ensures SumSubtract(Some(SumAdd(accumulation, values).value), values) == Folded(Start(accumulation))
  {
    NarrowingCongruent(SumAdd(accumulation, values).value - values[0].n, Start(accumulation));
  }
}
