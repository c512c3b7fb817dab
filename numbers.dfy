/** The JavaScript numbers that the metrics can evaluate to.  Arithmetic on
    finite values is exact (over `real`); IEEE-754 rounding is not modelled.
    Only non-negative quantities occur in the metrics, so negative infinity
    is not needed. */
module Numbers {

  datatype Number = Finite(value: real) | NaN | Infinity

  /** JavaScript `x / d` for a non-negative dividend and a divisor that is a
      non-negative count or constant (a zero divisor is +0):
      0 / 0 is NaN, a positive number / 0 is Infinity, NaN and Infinity
      propagate. */
  function Div(x: Number, d: real): (q: Number)
    requires d >= 0.0
    requires x.Finite? ==> x.value >= 0.0
    ensures q.Finite? <==> x.Finite? && d > 0.0
    ensures q.Finite? ==> q.value >= 0.0
    ensures q.NaN? <==> x.NaN? || (x == Finite(0.0) && d == 0.0)
  {
    match x
    case Finite(v) =>
      if d > 0.0 then Finite(v / d)
      else if v == 0.0 then NaN
      else Infinity
    case NaN => NaN
    case Infinity => Infinity
  }

  /** A finite quotient times the divisor gives back the dividend. */
  lemma DivUndone(x: Number, d: real)
    requires d >= 0.0
    requires x.Finite? ==> x.value >= 0.0
    ensures Div(x, d).Finite? ==> Div(x, d).value * d == x.value
  {
  }
}
