// Client scenarios of the boolean-variable manager, verified against its
// contracts: a decision undone by `unassign`, a clause propagation of a
// negative literal, and the two provenances of an external assertion.

module Scenarios {
  import opened SatTypes
  import opened BoolState
  import opened PolysatBoolean

  /** Allocate, decide positively at level 1, then unassign. */
  method DecideThenUnassign() {
    var m := new BoolVarManager();
    var v := m.NewVar();
    assert v == 0;
    var lit := PositiveLit(v);
    m.Decide(lit, 1);
    assert m.Value(lit) == LTrue && m.Value(lit.Negate()) == LFalse;
    assert m.RowOf(0).level == 1 && m.RowOf(0).kind == Decision;
    m.Unassign(lit);
    assert m.RowOf(0) == FreshRow();
  }

  /** A propagation of a negative literal records its clause. */
  method PropagateNegative(clauseX: Clause) {
    var m := new BoolVarManager();
    var v0 := m.NewVar();
    var v1 := m.NewVar();
    assert v1 == 1;
    var lit := PositiveLit(v1).Negate();
    m.Propagate(lit, 2, clauseX);
    assert m.RowOf(1).kind == BoolPropagation && m.RowOf(1).reason == ClauseAt(clauseX);
    assert m.Value(lit) == LTrue;
  }

  /** `asserted` records an assumption with a dependency and a decision without one. */
  method AssertedBothWays(d: DepTag) {
    var m := new BoolVarManager();
    var v0 := m.NewVar();
    var v1 := m.NewVar();
    m.Asserted(PositiveLit(v0), 0, Dep(d));
    assert m.RowOf(0).kind == Assumption && m.RowOf(0).dep == Dep(d);
    m.Asserted(PositiveLit(v1), 0, NullDependency);
    assert m.RowOf(1).kind == Decision && m.RowOf(1).dep == NullDependency;
  }
}
