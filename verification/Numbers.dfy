/** Floating-point numbers as the safety checks see them: finite, infinite or not a number. */
module Numbers {

  datatype Num = NaN | PosInf | NegInf | Fin(value: real)
  {
    predicate Finite() {
      Fin?
    }

    /** Comparisons with NaN are false. */
    predicate Less(other: Num) {
      match (this, other)
      case (NaN, _) => false
      case (_, NaN) => false
      case (Fin(a), Fin(b)) => a < b
      case _ => this != other && (NegInf? || other.PosInf?)
    }

    predicate Same(other: Num) {
      !NaN? && this == other
    }

    predicate AtMost(other: Num) {
      Less(other) || Same(other)
    }

    function Magnitude(): Num {
      match this
      case Fin(a) => Fin(if a < 0.0 then -a else a)
      case NegInf => PosInf
      case _ => this
    }
  }

  const ZERO: Num := Fin(0.0)

  /** Finite and not negative. */
  predicate IsAge(n: Num) {
    n.Finite() && n.value >= 0.0
  }

  predicate IsPositive(n: Num) {
    n.Finite() && n.value > 0.0
  }
}
