/**
 * The JavaScript `number` as far as this model needs it: a finite value, one of the two
 * infinities, or NaN. Finite values are exact reals (no rounding to double precision) and
 * negative zero is not told apart from zero.
 */
module JsNumber {

  datatype Number = Finite(v: real) | PosInf | NegInf | NaN

  function Neg(a: Number): Number {
    match a
    case Finite(x) => Finite(-x)
    case PosInf => NegInf
    case NegInf => PosInf
    case NaN => NaN
  }

  function Add(a: Number, b: Number): Number {
    match (a, b)
    case (NaN, _) => NaN
    case (_, NaN) => NaN
    case (PosInf, NegInf) => NaN
    case (NegInf, PosInf) => NaN
    case (PosInf, _) => PosInf
    case (NegInf, _) => NegInf
    case (_, PosInf) => PosInf
    case (_, NegInf) => NegInf
    case (Finite(x), Finite(y)) => Finite(x + y)
  }

  /** `a - b` */
  function Sub(a: Number, b: Number): Number {
    Add(a, Neg(b))
  }

  /** -1, 0 or 1 for the sign of a non-NaN number (0 for NaN). */
  function Sign(a: Number): int {
    match a
    case Finite(x) => if x > 0.0 then 1 else if x < 0.0 then -1 else 0
    case PosInf => 1
    case NegInf => -1
    case NaN => 0
  }

  function Infinity(sign: int): Number {
    if sign >= 0 then PosInf else NegInf
  }

  /** `a * b`: an infinity times zero is NaN. */
  function Mul(a: Number, b: Number): Number {
    if a == NaN || b == NaN then NaN
    else if a.Finite? && b.Finite? then Finite(a.v * b.v)
    else if Sign(a) == 0 || Sign(b) == 0 then NaN
    else Infinity(Sign(a) * Sign(b))
  }

  /** `a / b`: a non-zero value over zero is an infinity, zero over zero is NaN. */
  function Div(a: Number, b: Number): Number {
    match (a, b)
    case (NaN, _) => NaN
    case (_, NaN) => NaN
    case (Finite(x), Finite(y)) =>
      if y != 0.0 then Finite(x / y)
      else if x == 0.0 then NaN
      else Infinity(Sign(a))
    case (Finite(_), _) => Finite(0.0)
    case (_, Finite(y)) => Infinity(if y < 0.0 then -Sign(a) else Sign(a))
    case (_, _) => NaN
  }

  /** `Math.abs(a)` */
  function Abs(a: Number): Number {
    match a
    case Finite(x) => Finite(if x < 0.0 then -x else x)
    case NaN => NaN
    case _ => PosInf
  }

  /** `a < b`: every comparison with NaN is false. */
  predicate Less(a: Number, b: Number) {
    match (a, b)
    case (NaN, _) => false
    case (_, NaN) => false
    case (Finite(x), Finite(y)) => x < y
    case (NegInf, NegInf) => false
    case (NegInf, _) => true
    case (PosInf, _) => false
    case (Finite(_), PosInf) => true
    case (Finite(_), NegInf) => false
  }

  /** `a > b` */
  predicate Greater(a: Number, b: Number) {
    Less(b, a)
  }

  /** `a === b`: NaN equals nothing, itself included. */
  predicate StrictEquals(a: Number, b: Number) {
    a == b && !a.NaN?
  }

  /** `!a` for a number: true for 0 and NaN. */
  predicate Falsy(a: Number) {
    a == Finite(0.0) || a.NaN?
  }

  /** `Math.min(a, b)`: NaN when either is NaN, otherwise the smaller of the two. */
  function Min(a: Number, b: Number): (m: Number)
    ensures m.NaN? <==> a.NaN? || b.NaN?
    ensures !m.NaN? ==> (m == a || m == b) && !Less(a, m) && !Less(b, m)
  {
    if a.NaN? || b.NaN? then NaN else if Less(b, a) then b else a
  }

  /** `Math.max(a, b)`: NaN when either is NaN, otherwise the larger of the two. */
  function Max(a: Number, b: Number): (m: Number)
    ensures m.NaN? <==> a.NaN? || b.NaN?
    ensures !m.NaN? ==> (m == a || m == b) && !Less(m, a) && !Less(m, b)
  {
    if a.NaN? || b.NaN? then NaN else if Less(a, b) then b else a
  }
}
