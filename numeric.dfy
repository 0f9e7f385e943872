/** Division as numpy carries it out on float64 values, over exact reals:
    a nonzero divisor gives the exact quotient, a zero divisor gives one of
    the IEEE special values instead of an exception. */
module Numeric {

  datatype Quotient = Finite(value: real) | PosInf | NegInf | NaN

  /** `a / b`: x/0 is +inf for x > 0, -inf for x < 0 and NaN for 0/0. */
  function Divide(a: real, b: real): (q: Quotient)
    ensures b != 0.0 ==> q.Finite? && q.value * b == a
    ensures b == 0.0 ==> (q == PosInf <==> a > 0.0) && (q == NegInf <==> a < 0.0) && (q == NaN <==> a == 0.0)
  {
    if b != 0.0 then Finite(a / b)
    else if a > 0.0 then PosInf
    else if a < 0.0 then NegInf
    else NaN
  }

  /** `q * k` for a positive constant `k`: infinities and NaN are absorbing. */
  function Scale(q: Quotient, k: real): (r: Quotient)
    requires k > 0.0
    ensures r.Finite? <==> q.Finite?
    ensures q.Finite? ==> r.value == q.value * k
    ensures !q.Finite? ==> r == q
  {
    match q
    case Finite(v) => Finite(v * k)
    case _ => q
  }

  /** `((current - base) / base) * 100`, with no guard against a zero base. */
  function PercentChange(base: real, current: real): (q: Quotient)
    ensures base != 0.0 ==> q.Finite? && q.value * base == (current - base) * 100.0
    ensures base == 0.0 ==> (q == PosInf <==> current > 0.0) && (q == NegInf <==> current < 0.0) && (q == NaN <==> current == 0.0)
  {
    Scale(Divide(current - base, base), 100.0)
  }

  /** For a positive base the sign of the change is the sign of the difference. */
  lemma PercentChangeSign(base: real, current: real)
    requires base > 0.0
    ensures PercentChange(base, current).Finite?
    ensures PercentChange(base, current).value < 0.0 <==> current < base
    ensures PercentChange(base, current).value > 0.0 <==> current > base
    ensures PercentChange(base, current).value == 0.0 <==> current == base
  {
    var v := PercentChange(base, current).value;
    assert v * base == (current - base) * 100.0;
    if v < 0.0 { assert v * base < 0.0; }
    if v > 0.0 { assert v * base > 0.0; }
  }
}
