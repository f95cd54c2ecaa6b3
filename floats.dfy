/** The part of IEEE-754 doubles the simulations depend on: comparisons that
    may be unordered. Finite values are modelled as reals, without rounding. */
module Floats {
  import opened Wrappers

  datatype F64 = Finite(value: real) | PosInf | NegInf | NaN

  datatype Ordering = Less | Equal | Greater

  /** Position of a non-NaN double on the extended real line. */
  function Rank(a: F64): (r: (int, real))
    requires !a.NaN?
  {
    match a
    case NegInf => (-1, 0.0)
    case Finite(x) => (0, x)
    case PosInf => (1, 0.0)
  }

  /** `f64::partial_cmp`: `None` exactly when either operand is NaN. */
  function PartialCmp(a: F64, b: F64): (r: Option<Ordering>)
    ensures r.None? <==> a.NaN? || b.NaN?
    ensures a.Finite? && b.Finite? ==>
              (r == Some(Less) <==> a.value < b.value) &&
              (r == Some(Equal) <==> a.value == b.value) &&
              (r == Some(Greater) <==> a.value > b.value)
  {
    if a.NaN? || b.NaN? then None
    else
      var (ka, xa) := Rank(a);
      var (kb, xb) := Rank(b);
      if ka < kb || (ka == kb && xa < xb) then Some(Less)
      else if ka == kb && xa == xb then Some(Equal)
      else Some(Greater)
  }
}
