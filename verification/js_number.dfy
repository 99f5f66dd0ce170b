/**
 * JavaScript Numbers as far as the page scripts need them: finite values are exact
 * reals (float rounding and the sign of zero are not modelled), and a division by
 * zero yields an infinity or NaN, which `Math.max`, `Math.min` and `||` then handle.
 */
module JsNumber {

  datatype Num = Finite(value: real) | PosInf | NegInf | NaN

  /** `a / b` on finite operands. */
  function Div(a: real, b: real): (r: Num)
    ensures r.Finite? <==> b != 0.0
    ensures r.Finite? ==> r.value * b == a
    ensures r.NaN? <==> (a == 0.0 && b == 0.0)
  {
    if b != 0.0 then Finite(a / b)
    else if a > 0.0 then PosInf
    else if a < 0.0 then NegInf
    else NaN
  }

  /** `a * b` for a finite left operand; zero times an infinity is NaN. */
  function Mul(a: real, b: Num): (r: Num)
    ensures r.NaN? <==> (b.NaN? || (a == 0.0 && !b.Finite?))
  {
    match b
    case Finite(v) => Finite(a * v)
    case PosInf => if a > 0.0 then PosInf else if a < 0.0 then NegInf else NaN
    case NegInf => if a > 0.0 then NegInf else if a < 0.0 then PosInf else NaN
    case NaN => NaN
  }

  /** `a - b` for a finite left operand. */
  function Sub(a: real, b: Num): (r: Num)
    ensures r.NaN? <==> b.NaN?
    ensures b.Finite? ==> r.Finite? && r.value + b.value == a
  {
    match b
    case Finite(v) => Finite(a - v)
    case PosInf => NegInf
    case NegInf => PosInf
    case NaN => NaN
  }

  /** `Math.max(a, b)` for a finite `a`: never below `a`, and NaN exactly when `b` is. */
  function Max(a: real, b: Num): (r: Num)
    ensures r.NaN? <==> b.NaN?
    ensures !r.NegInf?
    ensures r.Finite? ==> r.value >= a && (r.value == a || b == r)
  {
    match b
    case Finite(v) => Finite(if v > a then v else a)
    case PosInf => PosInf
    case NegInf => Finite(a)
    case NaN => NaN
  }

  /** `Math.min(a, b)` for a finite `a`: never above `a`, and NaN exactly when `b` is. */
  function Min(a: real, b: Num): (r: Num)
    ensures r.NaN? <==> b.NaN?
    ensures !r.PosInf?
    ensures r.Finite? ==> r.value <= a && (r.value == a || b == r)
  {
    match b
    case Finite(v) => Finite(if v < a then v else a)
    case PosInf => Finite(a)
    case NegInf => NegInf
    case NaN => NaN
  }

  /** JavaScript truthiness of a Number: everything except zero and NaN. */
  predicate Truthy(n: Num) {
    !n.NaN? && n != Finite(0.0)
  }

  /** `n || d`. */
  function OrElse(n: Num, d: real): (r: Num)
    ensures Truthy(n) ==> r == n
    ensures !Truthy(n) ==> r == Finite(d)
  {
    if Truthy(n) then n else Finite(d)
  }

  /** `Math.max(lo, Math.min(hi, v))`: anything but NaN lands in `[lo, hi]`, and a
      value already there is kept. */
  function Clamp(v: Num, lo: real, hi: real): (r: Num)
    requires lo <= hi
    ensures r.NaN? <==> v.NaN?
    ensures !v.NaN? ==> r.Finite? && lo <= r.value <= hi
    ensures v.Finite? && lo <= v.value <= hi ==> r == v
    ensures v.PosInf? ==> r == Finite(hi)
    ensures v.NegInf? ==> r == Finite(lo)
    ensures v.Finite? && v.value < lo ==> r == Finite(lo)
    ensures v.Finite? && v.value > hi ==> r == Finite(hi)
  {
    Max(lo, Min(hi, v))
  }
}
