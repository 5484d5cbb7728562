/** The Java numeric conversions used by the lookup-table builder, stated
    over mathematical integers and reals: a Java `int` is a 32-bit
    two's-complement value, a `double` is modelled as a `real`, `Math.round`
    rounds half up and saturates at the bounds of `long`, and the `(int)`
    cast of a `long` keeps its low 32 bits. */
module JavaNumerics {

  const INT_MIN: int := -0x8000_0000
  const INT_MAX: int := 0x7FFF_FFFF
  const LONG_MIN: int := -0x8000_0000_0000_0000
  const LONG_MAX: int := 0x7FFF_FFFF_FFFF_FFFF

  /** A Java `int`. */
  newtype int32 = x: int | -0x8000_0000 <= x < 0x8000_0000

  /** `Math.round(double)`: the integer nearest to `x`, halves rounded up,
      clamped to the range of `long`. */
  function MathRound(x: real): (r: int)
    ensures LONG_MIN <= r <= LONG_MAX
    ensures LONG_MIN as real - 0.5 <= x < LONG_MAX as real + 0.5 ==>
              r as real - 0.5 <= x < r as real + 0.5
    ensures x < LONG_MIN as real - 0.5 ==> r == LONG_MIN
    ensures LONG_MAX as real + 0.5 <= x ==> r == LONG_MAX
  {
    var f := (x + 0.5).Floor;
    if f < LONG_MIN then LONG_MIN else if f > LONG_MAX then LONG_MAX else f
  }

  /** The narrowing cast `(int) l` of a `long`: the `int` whose low 32 bits
      are those of `l`. */
  function IntCast(l: int): (r: int32)
    ensures r as int % 0x1_0000_0000 == l % 0x1_0000_0000
    ensures INT_MIN <= l <= INT_MAX ==> r as int == l
  {
    var m := l % 0x1_0000_0000;
    if m < 0x8000_0000 then m as int32 else (m - 0x1_0000_0000) as int32
  }

  /** `(int) Math.round(x)`: the rounding step that turns an evaluated
      double back into a table entry. */
  function Narrow(x: real): (r: int32)
    ensures INT_MIN as real - 0.5 <= x < INT_MAX as real + 0.5 ==>
              r as real - 0.5 <= x < r as real + 0.5
  {
    IntCast(MathRound(x))
  }

  /** The element-by-element widening of an `int[]` to a `double[]`. */
  function Widened(s: seq<int32>): (r: seq<real>)
    ensures |r| == |s|
    ensures forall i :: 0 <= i < |s| ==> r[i] == s[i] as real
  {
    if s == [] then [] else [s[0] as real] + Widened(s[1..])
  }

  /** The element-by-element rounding of a `double[]` to an `int[]`. */
  function Narrowed(c: seq<real>): (r: seq<int32>)
    ensures |r| == |c|
    ensures forall i :: 0 <= i < |c| ==> r[i] == Narrow(c[i])
  {
    if c == [] then [] else [Narrow(c[0])] + Narrowed(c[1..])
  }

  /** Widening and then rounding an `int[]` gives back the same values in
      the same order. */
  lemma NarrowedWidened(s: seq<int32>)
    ensures Narrowed(Widened(s)) == s
  {
  }

  /** The index loop that copies an `int[]` into a new `double[]` of the
      same length. */
  method WidenToDouble(a: array<int32>) returns (d: array<real>)
    ensures d.Length == a.Length
    ensures d[..] == Widened(a[..])
  {
    d := new real[a.Length];
    var i := 0;
    while i < a.Length
      invariant 0 <= i <= a.Length
      invariant forall k :: 0 <= k < i ==> d[k] == a[k] as real
    {
      d[i] := a[i] as real;
      i := i + 1;
    }
  }
}
