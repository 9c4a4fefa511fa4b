/** Doubles without rounding: exact reals and the values that dividing by zero produces. */
module Doubles {

  datatype Double = Fin(r: real) | PosInf | NegInf | NaN

  function Divide(a: real, b: real): Double {
    if b != 0.0 then Fin(a / b)
    else if a > 0.0 then PosInf
    else if a < 0.0 then NegInf
    else NaN
  }

  function Negate(a: Double): Double {
    match a
    case Fin(r) => Fin(-r)
    case PosInf => NegInf
    case NegInf => PosInf
    case NaN => NaN
  }

  function Multiply(a: Double, b: Double): Double {
    match (a, b)
    case (NaN, _) => NaN
    case (_, NaN) => NaN
    case (Fin(x), Fin(y)) => Fin(x * y)
    case (Fin(x), _) => if x > 0.0 then b else if x < 0.0 then Negate(b) else NaN
    case (_, Fin(y)) => if y > 0.0 then a else if y < 0.0 then Negate(a) else NaN
    case (_, _) => if a == b then PosInf else NegInf
  }

  /** `a - b` for a finite a. */
  function Subtract(a: real, b: Double): Double {
    if b.Fin? then Fin(a - b.r) else Negate(b)
  }

  /** `a < b`; false as soon as one side is not a number. */
  predicate Less(a: Double, b: Double) {
    match (a, b)
    case (Fin(x), Fin(y)) => x < y
    case (NegInf, _) => b.Fin? || b.PosInf?
    case (Fin(_), PosInf) => true
    case (_, _) => false
  }

  /** `a >= b`; false as soon as one side is not a number. */
  predicate AtLeast(a: Double, b: Double) {
    a != NaN && b != NaN && !Less(a, b)
  }

  /** The macro min(a,b). */
  function MinDouble(a: Double, b: Double): Double {
    if Less(a, b) then a else b
  }
}
