// Basic SAT vocabulary used by the polysat boolean-variable manager:
// three-valued truth values, variables, literals and decision levels.

module SatTypes {

  /** The largest 32-bit `unsigned`; as a level it means "not assigned". */
  const UINT_MAX: nat := 0xFFFF_FFFF

  /** Decision levels are 32-bit unsigned integers. */
  type Level = x: nat | x <= UINT_MAX

  /** A boolean variable is an index into the manager's tables. */
  type BoolVar = nat

  /** `lbool`: a truth value that may still be undefined. */
  datatype LBool = LFalse | LUndef | LTrue {
    /** Negation; the undefined value is its own negation. */
    function Not(): (r: LBool)
      ensures (r == LUndef) <==> (this == LUndef)
      ensures this != LUndef ==> r != this
      ensures r == LTrue <==> this == LFalse
    {
      match this
      case LFalse => LTrue
      case LUndef => LUndef
      case LTrue => LFalse
    }
  }

  /**
   * A literal: a variable and a sign (true for the negative literal). Its
   * index into per-literal tables is `2 * v` for the positive literal and
   * `2 * v + 1` for the negative one, so a literal and its negation occupy
   * adjacent slots.
   */
  datatype Literal = Literal(variable: BoolVar, sign: bool) {
    function Var(): BoolVar { variable }

    predicate Sign() { sign }

    /** `lit.index()` */
    function Index(): nat {
      2 * variable + (if sign then 1 else 0)
    }

    /** `~lit`: the literal whose index is this one's with the lowest bit flipped. */
    function Negate(): (r: Literal)
      ensures r.Var() == Var() && r.Sign() == !Sign()
      ensures r.Index() == if Sign() then Index() - 1 else Index() + 1
    {
      Literal(variable, !sign)
    }
  }

  /** `sat::literal(v)`: the positive literal of `v`. */
  function PositiveLit(v: BoolVar): (l: Literal)
    ensures l.Var() == v && !l.Sign() && l.Index() == 2 * v
    ensures l.Negate().Index() == 2 * v + 1
  {
    Literal(v, false)
  }

  /** A literal is determined by its index. */
  lemma IndexInjective(a: Literal, b: Literal)
    requires a.Index() == b.Index()
    ensures a == b
  {
  }

  lemma NegateInvolutive(l: Literal)
    ensures l.Negate().Negate() == l
  {
  }
}
