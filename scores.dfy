/** Search scores. The agent scores positions with Python floats; the only
    non-finite floats that occur are -inf and +inf, and every finite score the
    modelled heuristics produce is an integer difference. */
module Scores {

  datatype Ext = NegInf | Fin(n: int) | PosInf

  /** The float comparison `a < b` on extended integers. */
  predicate Lt(a: Ext, b: Ext) {
    match a
    case NegInf => !b.NegInf?
    case Fin(x) => b.PosInf? || (b.Fin? && x < b.n)
    case PosInf => false
  }

  /** The float comparison `a <= b`. */
  predicate Le(a: Ext, b: Ext) {
    a == b || Lt(a, b)
  }

  /** The larger score; on a tie, the first argument. */
  function Max(a: Ext, b: Ext): Ext {
    if Lt(a, b) then b else a
  }

  /** The smaller score; on a tie, the first argument. */
  function Min(a: Ext, b: Ext): Ext {
    if Lt(b, a) then b else a
  }

  lemma LtTotal(a: Ext, b: Ext, c: Ext)
    ensures !Lt(a, a)
    ensures Lt(a, b) ==> !Lt(b, a)
    ensures Lt(a, b) && Lt(b, c) ==> Lt(a, c)
    ensures Lt(a, b) || a == b || Lt(b, a)
  {
  }
}
