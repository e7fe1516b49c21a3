/** Reals with HUGE_VAL and its negation: bounds and running extremes of the solvers. */
module ExtReal {
  datatype Ext = NegInf | Fin(r: real) | PosInf

  /** x < y */
  predicate Below(x: Ext, y: Ext) {
    match (x, y)
    case (NegInf, NegInf) => false
    case (NegInf, _) => true
    case (Fin(_), NegInf) => false
    case (Fin(a), Fin(b)) => a < b
    case (Fin(_), PosInf) => true
    case (PosInf, _) => false
  }

  predicate AtMost(x: Ext, y: Ext) {
    !Below(y, x)
  }

  function MaxE(x: Ext, y: Ext): Ext {
    if Below(y, x) then x else y
  }

  function MinE(x: Ext, y: Ext): Ext {
    if Below(x, y) then x else y
  }

  function Neg(x: Ext): Ext {
    match x
    case NegInf => PosInf
    case Fin(a) => Fin(-a)
    case PosInf => NegInf
  }
}
