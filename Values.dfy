/**
 * Values shared by the parser and the formatter: the exceptions the conversion code
 * can raise, a failure-compatible Result that carries them, and a model of a
 * 64-bit floating-point value over exact reals that keeps the two special values
 * the conversion code can produce, NaN and the infinities.
 */
module Values {

  /** The .NET exceptions that the conversion code can let escape. */
  datatype Exception =
    | FormatException        // int.Parse on a malformed integer
    | OverflowException      // int.Parse on an integer outside the 32-bit range
    | IndexOutOfRange        // indexing an empty array of parts
    | InvalidOperation       // a smallest fractional denominator below 1

  /** Either a value or the exception that was thrown instead. */
  datatype Result<+T> = Success(value: T) | Failure(error: Exception) {
    predicate IsFailure() {
      Failure?
    }

    function PropagateFailure<U>(): Result<U>
      requires Failure?
    {
      Failure(error)
    }

    function Extract(): T
      requires Success?
    {
      value
    }
  }

  datatype Option<+T> = None | Some(value: T)

  /**
   * A double: a finite value (held exactly, without rounding), an infinity of
   * either sign, or NaN. Signed zero is not distinguished.
   */
  datatype Double = Finite(value: real) | Infinity(negative: bool) | NaN

  /** IEEE-754 addition over the exact model. */
  function Plus(a: Double, b: Double): (r: Double)
    ensures a.Finite? && b.Finite? ==> r == Finite(a.value + b.value)
    ensures a.NaN? || b.NaN? ==> r.NaN?
    ensures a.Finite? && b.Infinity? ==> r == b
    ensures a.Infinity? && b.Finite? ==> r == a
  {
    match (a, b)
    case (NaN, _) => NaN
    case (_, NaN) => NaN
    case (Infinity(s), Infinity(t)) => if s == t then a else NaN
    case (Infinity(_), Finite(_)) => a
    case (Finite(_), Infinity(_)) => b
    case (Finite(x), Finite(y)) => Finite(x + y)
  }

  /** IEEE-754 division over the exact model; a zero divisor is taken as +0. */
  function Quotient(a: Double, b: Double): (r: Double)
    ensures a.Finite? && b.Finite? && b.value != 0.0 ==> r == Finite(a.value / b.value)
    ensures a.Finite? && b.Finite? && b.value == 0.0 ==>
              r == (if a.value == 0.0 then NaN else Infinity(a.value < 0.0))
    ensures a.NaN? || b.NaN? ==> r.NaN?
  {
    match (a, b)
    case (NaN, _) => NaN
    case (_, NaN) => NaN
    case (Infinity(_), Infinity(_)) => NaN
    case (Infinity(s), Finite(y)) => Infinity(if y < 0.0 then !s else s)
    case (Finite(_), Infinity(_)) => Finite(0.0)
    case (Finite(x), Finite(y)) =>
      if y != 0.0 then Finite(x / y)
      else if x == 0.0 then NaN
      else Infinity(x < 0.0)
  }
}
