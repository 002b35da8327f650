/**
 * Python floats as the model sees them: an exact real, or one of the
 * non-finite values (inf, -inf, nan) that `float()` accepts.  Rounding of
 * double-precision arithmetic is not modelled.
 */
module Floats {
  import opened Wrappers

  datatype Float = Finite(value: real) | NonFinite

  /** Python's `int()` of a finite float: truncation toward zero. */
  function Trunc(v: real): (n: int)
    ensures 0.0 <= v ==> 0 <= n && n as real <= v < n as real + 1.0
    ensures v < 0.0 ==> n <= 0 && n as real - 1.0 < v <= n as real
  {
    if 0.0 <= v then v.Floor else -((-v).Floor)
  }

  /** `int(f)`: raises (None here) on inf and nan. */
  function IntOf(f: Float): (r: Option<int>)
    ensures r.Some? <==> f.Finite?
  {
    match f
    case Finite(v) => Some(Trunc(v))
    case NonFinite => None
  }

  /** `int(dim * (pct / 100))` for a non-negative pixel count `dim`.  A
      non-finite percentage makes the product non-finite, and int() raises. */
  function Scaled(dim: nat, pct: Float): (r: Option<int>)
    ensures r.Some? <==> pct.Finite?
  {
    match pct
    case Finite(p) => IntOf(Finite(dim as real * (p / 100.0)))
    case NonFinite => None
  }
}
