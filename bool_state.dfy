// The state of the polysat boolean-variable manager as values: what one
// variable's slots hold, the effect of each transition on them, the
// parallel tables as a whole, and what `display` prints.

module BoolState {
  import opened SatTypes

  /** `kind_t`: the provenance of a variable's current value. */
  datatype Kind = Unassigned | BoolPropagation | ValuePropagation | Assumption | Decision

  /** Clauses are owned elsewhere; this component never looks inside one. */
  type Clause(==, !new)

  /** The payload of an external dependency handle. */
  type DepTag(==, !new)

  /** An element of a watch list, maintained by the propagation loop. */
  type Watcher(!new)

  /** `clause*`: a borrowed, nullable reference to a justifying clause. */
  datatype ClauseRef = NullClause | ClauseAt(clause: Clause)

  /** `dependency`, with `null_dependency` as its own constructor. */
  datatype Dependency = NullDependency | Dep(tag: DepTag)

  /**
   * The slice of every table that belongs to one variable: its two literal
   * values, level, kind, clause, dependency, two watch lists and activity.
   */
  datatype Row = Row(pos: LBool, neg: LBool, level: Level, kind: Kind,
                     reason: ClauseRef, dep: Dependency,
                     posWatch: seq<Watcher>, negWatch: seq<Watcher>,
                     activity: nat)
  {
    /** The value of the literal of this variable with the given sign. */
    function Value(sign: bool): LBool { if sign then neg else pos }

    predicate IsAssigned() { pos != LUndef }

    /**
     * The values of the two literals are complementary, and a variable is
     * unassigned exactly when its kind says so, in which case its level is
     * the sentinel and it has neither clause nor dependency.
     */
    predicate Consistent() {
      && neg == pos.Not()
      && (kind == Unassigned <==> pos == LUndef)
      && (kind == Unassigned ==> level == UINT_MAX && reason == NullClause && dep == NullDependency)
    }

    /** The clause and dependency fit the kind (see `WellTagged`). */
    predicate Tagged() { WellTagged(kind, reason, dep) }

    /** An assigned variable carries a real level, not the sentinel. */
    predicate RealLevel() { kind != Unassigned ==> level < UINT_MAX }
  }

  /**
   * Which clause and dependency each kind is recorded with by the entry
   * points: a propagation always has its clause, an evaluation and an
   * assumption never have one, a decision may have a case-split lemma, and
   * only an assumption has a dependency.
   */
  predicate WellTagged(k: Kind, reason: ClauseRef, dep: Dependency) {
    match k
    case Unassigned => reason == NullClause && dep == NullDependency
    case BoolPropagation => reason != NullClause && dep == NullDependency
    case ValuePropagation => reason == NullClause && dep == NullDependency
    case Assumption => reason == NullClause && dep != NullDependency
    case Decision => dep == NullDependency
  }

  /** The row `new_var` appends for a brand-new variable. */
  function FreshRow(): (r: Row)
    ensures r.Consistent() && r.Tagged() && r.RealLevel()
    ensures !r.IsAssigned() && r.Value(false) == LUndef && r.Value(true) == LUndef
    ensures r.kind == Unassigned && r.level == UINT_MAX
    ensures r.reason == NullClause && r.dep == NullDependency
    ensures r.posWatch == [] && r.negWatch == [] && r.activity == 0
  {
    Row(LUndef, LUndef, UINT_MAX, Unassigned, NullClause, NullDependency, [], [], 0)
  }

  /**
   * The effect of `assign` on the row of the literal's variable; `sign` is
   * the literal's sign. The source asserts that the literal is unassigned
   * and that the kind is a real one.
   */
  function AssignRow(r: Row, sign: bool, k: Kind, lvl: Level, reason: ClauseRef, dep: Dependency): (a: Row)
    requires r.Value(sign) == LUndef
    requires k != Unassigned
    ensures a.Value(sign) == LTrue && a.Value(!sign) == LFalse
    ensures a.IsAssigned()
    ensures a.level == lvl && a.kind == k && a.reason == reason && a.dep == dep
    ensures a.posWatch == r.posWatch && a.negWatch == r.negWatch && a.activity == r.activity
    ensures a.Consistent()
    ensures a.Tagged() <==> WellTagged(k, reason, dep)
    ensures a.RealLevel() <==> lvl < UINT_MAX
  {
    r.(pos := if sign then LFalse else LTrue,
       neg := if sign then LTrue else LFalse,
       level := lvl, kind := k, reason := reason, dep := dep)
  }

  /**
   * The effect of `unassign`: the variable is back in the unassigned state,
   * and its watch lists and activity are kept.
   */
  function UnassignRow(r: Row, sign: bool): (u: Row)
    requires r.Value(sign) != LUndef
    ensures u.Consistent() && u.Tagged() && u.RealLevel()
    ensures !u.IsAssigned()
    ensures u == FreshRow().(posWatch := r.posWatch, negWatch := r.negWatch, activity := r.activity)
  {
    r.(pos := LUndef, neg := LUndef, level := UINT_MAX, kind := Unassigned,
       reason := NullClause, dep := NullDependency)
  }

  /**
   * The effect of `del_var`: the row of a never-allocated variable, except
   * that the activity is not reset.
   */
  function DeletedRow(r: Row): (d: Row)
    ensures d.Consistent() && d.Tagged() && d.RealLevel() && !d.IsAssigned()
    ensures d.posWatch == [] && d.negWatch == []
    ensures d == FreshRow().(activity := r.activity)
  {
    Row(LUndef, LUndef, UINT_MAX, Unassigned, NullClause, NullDependency, [], [], r.activity)
  }

  /** `assign` followed by `unassign` of the same literal restores the row. */
  lemma AssignUnassignRoundTrip(r: Row, sign: bool, k: Kind, lvl: Level, reason: ClauseRef, dep: Dependency)
    requires r.Consistent() && r.Value(sign) == LUndef && k != Unassigned
    ensures UnassignRow(AssignRow(r, sign, k, lvl, reason, dep), sign) == r
  {
  }

  /** While callers pass real levels, the sentinel level means unassigned. */
  lemma SentinelIffUnassigned(r: Row)
    requires r.Consistent() && r.RealLevel()
    ensures r.level == UINT_MAX <==> !r.IsAssigned()
  {
  }

  /** The kind `asserted` records: an assumption exactly when a dependency is given. */
  function AssertedKind(dep: Dependency): (k: Kind)
    ensures k == Assumption <==> dep != NullDependency
    ensures k == Decision <==> dep == NullDependency
  {
    if dep == NullDependency then Decision else Assumption
  }

  // ---------------------------------------------------------------------
  // the parallel tables

  /**
   * The manager's parallel tables: `values` and `watches` have two slots
   * per variable (indexed by literal), the others one.
   */
  datatype Tables = Tables(values: seq<LBool>, levels: seq<Level>, deps: seq<Dependency>,
                           kinds: seq<Kind>, clauses: seq<ClauseRef>,
                           watches: seq<seq<Watcher>>, activity: seq<nat>)
  {
    /** `size()`: the number of allocated variables. */
    function Size(): nat { |levels| }

    /** All tables have the length the number of variables asks for. */
    predicate Shaped() {
      && |values| == 2 * Size() && |watches| == 2 * Size()
      && |deps| == Size() && |kinds| == Size() && |clauses| == Size() && |activity| == Size()
    }

    /** Variable `v`'s slots. */
    function RowOf(v: BoolVar): Row
      requires Shaped() && v < Size()
    {
      Row(values[2 * v], values[2 * v + 1], levels[v], kinds[v], clauses[v], deps[v],
          watches[2 * v], watches[2 * v + 1], activity[v])
    }

    predicate AllConsistent()
      requires Shaped()
    {
      forall v :: 0 <= v < Size() ==> RowOf(v).Consistent()
    }

    predicate AllTagged()
      requires Shaped()
    {
      forall v :: 0 <= v < Size() ==> RowOf(v).Tagged()
    }

    predicate AllLevelsReal()
      requires Shaped()
    {
      forall v :: 0 <= v < Size() ==> RowOf(v).RealLevel()
    }

    /** Overwrite the slots of variable `v` with `r`. */
    function SetRow(v: BoolVar, r: Row): (t: Tables)
      requires Shaped() && v < Size()
      ensures t.Shaped() && t.Size() == Size()
      ensures t.RowOf(v) == r
    {
      Tables(values[2 * v := r.pos][2 * v + 1 := r.neg], levels[v := r.level], deps[v := r.dep],
             kinds[v := r.kind], clauses[v := r.reason],
             watches[2 * v := r.posWatch][2 * v + 1 := r.negWatch], activity[v := r.activity])
    }

    /** Append one row, for the new variable `Size()`. */
    function Push(r: Row): (t: Tables)
      requires Shaped()
      ensures t.Shaped() && t.Size() == Size() + 1
      ensures t.RowOf(Size()) == r
    {
      Tables(values + [r.pos, r.neg], levels + [r.level], deps + [r.dep],
             kinds + [r.kind], clauses + [r.reason],
             watches + [r.posWatch, r.negWatch], activity + [r.activity])
    }
  }

  /** Overwriting one variable's slots leaves every other variable's slots alone. */
  lemma SetRowOthers(t: Tables, v: BoolVar, r: Row)
    requires t.Shaped() && v < t.Size()
    ensures forall u :: 0 <= u < t.Size() && u != v ==> t.SetRow(v, r).RowOf(u) == t.RowOf(u)
  {
  }

  /** Overwriting one variable's slots with a consistent row keeps all rows consistent. */
  lemma SetRowKeepsConsistent(t: Tables, v: BoolVar, r: Row)
    requires t.Shaped() && v < t.Size()
    requires t.AllConsistent() && r.Consistent()
    ensures t.SetRow(v, r).AllConsistent()
  {
    var t' := t.SetRow(v, r);
    assert forall u :: 0 <= u < t.Size() ==> t'.RowOf(u) == if u == v then r else t.RowOf(u);
  }

  /** Overwriting one variable's slots with a well-tagged row keeps all rows well tagged. */
  lemma SetRowKeepsTagged(t: Tables, v: BoolVar, r: Row)
    requires t.Shaped() && v < t.Size()
    ensures t.AllTagged() && r.Tagged() ==> t.SetRow(v, r).AllTagged()
  {
    var t' := t.SetRow(v, r);
    assert forall u :: 0 <= u < t.Size() ==> t'.RowOf(u) == if u == v then r else t.RowOf(u);
  }

  /** Overwriting one variable's slots with a row at a real level keeps all levels real. */
  lemma SetRowKeepsLevels(t: Tables, v: BoolVar, r: Row)
    requires t.Shaped() && v < t.Size()
    ensures t.AllLevelsReal() && r.RealLevel() ==> t.SetRow(v, r).AllLevelsReal()
  {
    var t' := t.SetRow(v, r);
    assert forall u :: 0 <= u < t.Size() ==> t'.RowOf(u) == if u == v then r else t.RowOf(u);
  }

  /** Appending a row keeps the rows already there. */
  lemma PushOthers(t: Tables, r: Row)
    requires t.Shaped()
    ensures forall u :: 0 <= u < t.Size() ==> t.Push(r).RowOf(u) == t.RowOf(u)
  {
  }

  /** Appending a consistent row keeps all rows consistent. */
  lemma PushKeepsConsistent(t: Tables, r: Row)
    requires t.Shaped() && t.AllConsistent() && r.Consistent()
    ensures t.Push(r).AllConsistent()
  {
    var t' := t.Push(r);
    assert forall u :: 0 <= u <= t.Size() ==> t'.RowOf(u) == if u == t.Size() then r else t.RowOf(u);
  }

  /**
   * What `assign` writes: the literal's value slot, its negation's value
   * slot, and the variable's level, kind, clause and dependency slots.
   */
  lemma AssignWrites(t: Tables, lit: Literal, k: Kind, lvl: Level, reason: ClauseRef, dep: Dependency)
    requires t.Shaped() && lit.Var() < t.Size()
    requires t.values[lit.Index()] == LUndef && k != Unassigned
    ensures t.SetRow(lit.Var(), AssignRow(t.RowOf(lit.Var()), lit.Sign(), k, lvl, reason, dep))
      == t.(values := t.values[lit.Index() := LTrue][lit.Negate().Index() := LFalse],
            levels := t.levels[lit.Var() := lvl], kinds := t.kinds[lit.Var() := k],
            clauses := t.clauses[lit.Var() := reason], deps := t.deps[lit.Var() := dep])
  {
  }

  /** What `unassign` writes: both value slots and the level, kind, clause and dependency slots. */
  lemma UnassignWrites(t: Tables, lit: Literal)
    requires t.Shaped() && lit.Var() < t.Size()
    requires t.values[lit.Index()] != LUndef
    ensures t.SetRow(lit.Var(), UnassignRow(t.RowOf(lit.Var()), lit.Sign()))
      == t.(values := t.values[lit.Index() := LUndef][lit.Negate().Index() := LUndef],
            levels := t.levels[lit.Var() := UINT_MAX], kinds := t.kinds[lit.Var() := Unassigned],
            clauses := t.clauses[lit.Var() := NullClause], deps := t.deps[lit.Var() := NullDependency])
  {
  }

  /**
   * What `del_var` writes: both value slots, the level, kind, clause and
   * dependency slots, and both watch lists.
   */
  lemma DelVarWrites(t: Tables, v: BoolVar)
    requires t.Shaped() && v < t.Size()
    ensures t.SetRow(v, DeletedRow(t.RowOf(v)))
      == t.(values := t.values[PositiveLit(v).Index() := LUndef][PositiveLit(v).Negate().Index() := LUndef],
            levels := t.levels[v := UINT_MAX], kinds := t.kinds[v := Unassigned],
            clauses := t.clauses[v := NullClause], deps := t.deps[v := NullDependency],
            watches := t.watches[PositiveLit(v).Index() := []][PositiveLit(v).Negate().Index() := []])
  {
  }

  /**
   * `unassign` undoes `assign` on the whole tables: assigning an unassigned
   * literal of a consistent variable and then unassigning it restores every
   * slot, the watch lists and activity included.
   */
  lemma AssignUnassignTables(t: Tables, lit: Literal, k: Kind, lvl: Level, reason: ClauseRef, dep: Dependency)
    requires t.Shaped() && lit.Var() < t.Size() && t.AllConsistent()
    requires t.values[lit.Index()] == LUndef && k != Unassigned
    ensures var v := lit.Var();
      var a := t.SetRow(v, AssignRow(t.RowOf(v), lit.Sign(), k, lvl, reason, dep));
      a.SetRow(v, UnassignRow(a.RowOf(v), lit.Sign())) == t
  {
  }

  // ---------------------------------------------------------------------
  // display

  /** The literals of variable `v` are complementary in `values`. */
  predicate PairComplementary(values: seq<LBool>, v: nat)
    requires 2 * v + 1 < |values|
  {
    values[2 * v + 1] == values[2 * v].Not()
  }

  /** What `display` prints for a variable whose positive literal has value `pos`. */
  function Shown(pos: LBool, v: BoolVar): seq<Literal> {
    match pos
    case LTrue => [PositiveLit(v)]
    case LFalse => [PositiveLit(v).Negate()]
    case LUndef => []
  }

  /**
   * The literals `display` prints for variables `0 .. n-1` of the value
   * table, in order: the true literal of every assigned variable.
   */
  function Displayed(values: seq<LBool>, n: nat): (out: seq<Literal>)
    requires 2 * n <= |values|
    ensures |out| <= n
  {
    if n == 0 then [] else Displayed(values, n - 1) + Shown(values[2 * (n - 1)], n - 1)
  }

  /** `display` visits the variables in increasing order, one literal at most each. */
  lemma {:induction false} DisplayedIncreasing(values: seq<LBool>, n: nat)
    requires 2 * n <= |values|
    ensures forall i :: 0 <= i < |Displayed(values, n)| ==> Displayed(values, n)[i].Var() < n
    ensures forall i, j :: 0 <= i < j < |Displayed(values, n)| ==>
      Displayed(values, n)[i].Var() < Displayed(values, n)[j].Var()
  {
    if n > 0 {
      DisplayedIncreasing(values, n - 1);
      var prefix, last := Displayed(values, n - 1), Shown(values[2 * (n - 1)], n - 1);
      assert Displayed(values, n) == prefix + last;
      assert |last| <= 1 && forall i :: 0 <= i < |last| ==> last[i].Var() == n - 1;
    }
  }

  /**
   * With complementary value pairs, `display` prints a literal exactly when
   * its variable is among the first `n` and the literal is true.
   */
  lemma {:induction false} DisplayedExact(values: seq<LBool>, n: nat, lit: Literal)
    requires 2 * n <= |values|
    requires forall v :: 0 <= v < n ==> PairComplementary(values, v)
    ensures lit in Displayed(values, n) <==> lit.Var() < n && values[lit.Index()] == LTrue
  {
    if n > 0 {
      var v := n - 1;
      DisplayedExact(values, v, lit);
      assert PairComplementary(values, v);
      ShownExact(values, v, lit);
      var prefix, last := Displayed(values, v), Shown(values[2 * v], v);
      assert Displayed(values, n) == prefix + last;
      assert lit in prefix + last <==> lit in prefix || lit in last;
    }
  }

  /** What `display` prints for one variable is its true literal. */
  lemma ShownExact(values: seq<LBool>, v: nat, lit: Literal)
    requires 2 * v + 1 < |values| && PairComplementary(values, v)
    ensures lit in Shown(values[2 * v], v) <==> lit.Var() == v && values[lit.Index()] == LTrue
  {
  }
}
