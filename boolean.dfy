// The boolean-variable manager of the polysat solver (`bool_var_manager`):
// parallel per-variable and per-literal tables recording what is assigned,
// at which level, why, and under which external dependency, with the
// transitions that allocate, delete, assign and unassign variables.

module PolysatBoolean {
  import opened SatTypes
  import opened BoolState

  /** Notifications sent to the free-variable order (`m_free_vars`). */
  datatype FreeVarsEvent = DelVarEh(v: BoolVar) | UnassignVarEh(v: BoolVar)

  class BoolVarManager {
    /** `m_value`: two slots per variable, indexed by literal. */
    var values: seq<LBool>
    /** `m_level`: `UINT_MAX` for an unassigned variable. */
    var levels: seq<Level>
    /** `m_deps` */
    var deps: seq<Dependency>
    /** `m_kind` */
    var kinds: seq<Kind>
    /** `m_clause` */
    var clauses: seq<ClauseRef>
    /** `m_watch`: two lists per variable, indexed by literal. */
    var watches: seq<seq<Watcher>>
    /** `m_activity` */
    var activity: seq<nat>
    /** `m_unused`: ids available for reuse, taken from the back. */
    var unused: seq<BoolVar>

    /** The ids `del_var` has been called on. */
    ghost var deleted: set<BoolVar>
    /** The calls made into the free-variable order, oldest first. */
    ghost var events: seq<FreeVarsEvent>

    /** `size()` */
    function Size(): nat
      reads this`levels
    {
      |levels|
    }

    /** The parallel tables as one value. */
    ghost function Tabs(): Tables
      reads this`values, this`levels, this`deps, this`kinds, this`clauses, this`watches, this`activity
    {
      Tables(values, levels, deps, kinds, clauses, watches, activity)
    }

    /** Variable `v`'s slots. */
    ghost function RowOf(v: BoolVar): Row
      reads this`values, this`levels, this`deps, this`kinds, this`clauses, this`watches, this`activity
      requires Tabs().Shaped() && v < Size()
    {
      Tabs().RowOf(v)
    }

    /**
     * The manager's invariant: the tables line up, every variable's slots
     * are consistent, and reusable ids are allocated and never deleted.
     */
    ghost predicate Valid()
      reads this`values, this`levels, this`deps, this`kinds, this`clauses, this`watches, this`activity
      reads this`unused, this`deleted
    {
      && Tabs().Shaped()
      && Tabs().AllConsistent()
      && PoolsFit(Size())
    }

    /** Reusable ids are below `n` and never deleted; deleted ids are below `n`. */
    ghost predicate PoolsFit(n: nat)
      reads this`unused, this`deleted
    {
      && (forall i :: 0 <= i < |unused| ==> unused[i] < n && unused[i] !in deleted)
      && (forall v :: v in deleted ==> v < n)
    }

    /** `value(lit)` */
    function Value(lit: Literal): (b: LBool)
      reads this
      requires Valid() && lit.Var() < Size()
      ensures b == RowOf(lit.Var()).Value(lit.Sign())
      ensures b.Not() == RowOf(lit.Var()).Value(!lit.Sign())
    {
      assert RowOf(lit.Var()).Consistent();
      values[lit.Index()]
    }

    constructor ()
      ensures Valid() && Tabs().AllTagged() && Tabs().AllLevelsReal()
      ensures Size() == 0 && unused == [] && deleted == {} && events == []
    {
      values, levels, deps, kinds, clauses, watches, activity, unused := [], [], [], [], [], [], [], [];
      deleted, events := {}, [];
    }

    /**
     * `new_var`: with no reusable id, append one fresh row and return the
     * old size; otherwise take the last reusable id, whose slots must be in
     * the unassigned state.
     */
    method NewVar() returns (v: BoolVar)
      requires Valid()
      requires unused != [] ==> !RowOf(unused[|unused| - 1]).IsAssigned()
      modifies this
      ensures Valid()
      ensures v < Size() && v !in deleted
      ensures deleted == old(deleted) && events == old(events)
      ensures old(unused) == [] ==>
        && v == old(Size()) && unused == []
        && Tabs() == old(Tabs()).Push(FreshRow())
      ensures old(unused) != [] ==>
        && v == old(unused[|unused| - 1]) && unused == old(unused[..|unused| - 1])
        && Tabs() == old(Tabs())
        && RowOf(v).level == UINT_MAX && RowOf(v).kind == Unassigned
        && RowOf(v).pos == LUndef && RowOf(v).neg == LUndef
        && RowOf(v).reason == NullClause && RowOf(v).dep == NullDependency
    {
      if unused == [] {
        v := Size();
        values := values + [LUndef, LUndef];
        levels := levels + [UINT_MAX];
        deps := deps + [NullDependency];
        kinds := kinds + [Unassigned];
        clauses := clauses + [NullClause];
        watches := watches + [[], []];
        activity := activity + [0];
        assert Tabs() == old(Tabs()).Push(FreshRow());
        PushKeepsConsistent(old(Tabs()), FreshRow());
      } else {
        v := unused[|unused| - 1];
        unused := unused[..|unused| - 1];
        assert forall i :: 0 <= i < |unused| ==> unused[i] == old(unused[i]);
        assert RowOf(v).Consistent();
        assert levels[v] == UINT_MAX;
        assert values[2 * v] == LUndef && values[2 * v + 1] == LUndef;
        assert kinds[v] == Unassigned;
        assert clauses[v] == NullClause && deps[v] == NullDependency;
      }
    }

    /**
     * `del_var`: put the variable back in the unassigned state, empty both
     * of its watch lists and tell the free-variable order; the id is not
     * made reusable.
     */
    method DelVar(v: BoolVar)
      requires Valid() && v < Size()
      requires v !in unused
      modifies this
      ensures Valid()
      ensures Tabs() == old(Tabs()).SetRow(v, DeletedRow(old(RowOf(v))))
      ensures unused == old(unused)
      ensures deleted == old(deleted) + {v}
      ensures events == old(events) + [DelVarEh(v)]
    {
      var lit := PositiveLit(v);
      ghost var r := DeletedRow(RowOf(v));
      DelVarWrites(Tabs(), v);
      SetRowKeepsConsistent(Tabs(), v, r);
      values, levels, kinds, clauses, deps, watches :=
        values[lit.Index() := LUndef][lit.Negate().Index() := LUndef],
        levels[v := UINT_MAX], kinds[v := Unassigned], clauses[v := NullClause], deps[v := NullDependency],
        watches[lit.Index() := []][lit.Negate().Index() := []];
      events := events + [DelVarEh(v)];
      deleted := deleted + {v};
    }

    /**
     * `assign`: the one forward transition. The literal becomes true, its
     * negation false, and its variable records the level, kind, clause and
     * dependency; no other slot changes.
     */
    method Assign(k: Kind, lit: Literal, lvl: Level, reason: ClauseRef, dep: Dependency)
      requires Valid() && lit.Var() < Size()
      requires values[lit.Index()] == LUndef
      requires k != Unassigned
      modifies this
      ensures Valid()
      ensures Tabs() == old(Tabs()).SetRow(lit.Var(), AssignRow(old(RowOf(lit.Var())), lit.Sign(), k, lvl, reason, dep))
      ensures unused == old(unused) && deleted == old(deleted)
      ensures events == old(events) + [DelVarEh(lit.Var())]
    {
      var v := lit.Var();
      AssignWrites(Tabs(), lit, k, lvl, reason, dep);
      SetRowKeepsConsistent(Tabs(), v, AssignRow(RowOf(v), lit.Sign(), k, lvl, reason, dep));
      values, levels, kinds, clauses, deps :=
        values[lit.Index() := LTrue][lit.Negate().Index() := LFalse],
        levels[v := lvl], kinds[v := k], clauses[v := reason], deps[v := dep];
      events := events + [DelVarEh(v)];
    }

    /** `propagate`: the literal is implied by the clause `reason`. */
    method Propagate(lit: Literal, lvl: Level, reason: Clause)
      requires Valid() && lit.Var() < Size()
      requires values[lit.Index()] == LUndef
      modifies this
      ensures Valid()
      ensures old(Tabs().AllTagged()) ==> Tabs().AllTagged()
      ensures old(Tabs().AllLevelsReal()) && lvl < UINT_MAX ==> Tabs().AllLevelsReal()
      ensures Tabs() == old(Tabs()).SetRow(lit.Var(),
        AssignRow(old(RowOf(lit.Var())), lit.Sign(), BoolPropagation, lvl, ClauseAt(reason), NullDependency))
      ensures unused == old(unused) && deleted == old(deleted)
      ensures events == old(events) + [DelVarEh(lit.Var())]
    {
      Assign(BoolPropagation, lit, lvl, ClauseAt(reason), NullDependency);
      SetRowKeepsTagged(old(Tabs()), lit.Var(), AssignRow(old(RowOf(lit.Var())), lit.Sign(), BoolPropagation, lvl, ClauseAt(reason), NullDependency));
      SetRowKeepsLevels(old(Tabs()), lit.Var(), AssignRow(old(RowOf(lit.Var())), lit.Sign(), BoolPropagation, lvl, ClauseAt(reason), NullDependency));
    }

    /** `decide(lit, lvl, lemma)`: a decision justified by the case-split lemma `caseSplit`. */
    method DecideOnLemma(lit: Literal, lvl: Level, caseSplit: Clause)
      requires Valid() && lit.Var() < Size()
      requires values[lit.Index()] == LUndef
      modifies this
      ensures Valid()
      ensures old(Tabs().AllTagged()) ==> Tabs().AllTagged()
      ensures old(Tabs().AllLevelsReal()) && lvl < UINT_MAX ==> Tabs().AllLevelsReal()
      ensures Tabs() == old(Tabs()).SetRow(lit.Var(),
        AssignRow(old(RowOf(lit.Var())), lit.Sign(), Decision, lvl, ClauseAt(caseSplit), NullDependency))
      ensures unused == old(unused) && deleted == old(deleted)
      ensures events == old(events) + [DelVarEh(lit.Var())]
    {
      Assign(Decision, lit, lvl, ClauseAt(caseSplit), NullDependency);
      SetRowKeepsTagged(old(Tabs()), lit.Var(), AssignRow(old(RowOf(lit.Var())), lit.Sign(), Decision, lvl, ClauseAt(caseSplit), NullDependency));
      SetRowKeepsLevels(old(Tabs()), lit.Var(), AssignRow(old(RowOf(lit.Var())), lit.Sign(), Decision, lvl, ClauseAt(caseSplit), NullDependency));
    }

    /** `decide(lit, lvl)`: a plain decision, with no clause. */
    method Decide(lit: Literal, lvl: Level)
      requires Valid() && lit.Var() < Size()
      requires values[lit.Index()] == LUndef
      modifies this
      ensures Valid()
      ensures old(Tabs().AllTagged()) ==> Tabs().AllTagged()
      ensures old(Tabs().AllLevelsReal()) && lvl < UINT_MAX ==> Tabs().AllLevelsReal()
      ensures Tabs() == old(Tabs()).SetRow(lit.Var(),
        AssignRow(old(RowOf(lit.Var())), lit.Sign(), Decision, lvl, NullClause, NullDependency))
      ensures unused == old(unused) && deleted == old(deleted)
      ensures events == old(events) + [DelVarEh(lit.Var())]
    {
      Assign(Decision, lit, lvl, NullClause, NullDependency);
      SetRowKeepsTagged(old(Tabs()), lit.Var(), AssignRow(old(RowOf(lit.Var())), lit.Sign(), Decision, lvl, NullClause, NullDependency));
      SetRowKeepsLevels(old(Tabs()), lit.Var(), AssignRow(old(RowOf(lit.Var())), lit.Sign(), Decision, lvl, NullClause, NullDependency));
    }

    /** `eval`: the literal's value was computed from the current assignment. */
    method Eval(lit: Literal, lvl: Level)
      requires Valid() && lit.Var() < Size()
      requires values[lit.Index()] == LUndef
      modifies this
      ensures Valid()
      ensures old(Tabs().AllTagged()) ==> Tabs().AllTagged()
      ensures old(Tabs().AllLevelsReal()) && lvl < UINT_MAX ==> Tabs().AllLevelsReal()
      ensures Tabs() == old(Tabs()).SetRow(lit.Var(),
        AssignRow(old(RowOf(lit.Var())), lit.Sign(), ValuePropagation, lvl, NullClause, NullDependency))
      ensures unused == old(unused) && deleted == old(deleted)
      ensures events == old(events) + [DelVarEh(lit.Var())]
    {
      Assign(ValuePropagation, lit, lvl, NullClause, NullDependency);
      SetRowKeepsTagged(old(Tabs()), lit.Var(), AssignRow(old(RowOf(lit.Var())), lit.Sign(), ValuePropagation, lvl, NullClause, NullDependency));
      SetRowKeepsLevels(old(Tabs()), lit.Var(), AssignRow(old(RowOf(lit.Var())), lit.Sign(), ValuePropagation, lvl, NullClause, NullDependency));
    }

    /**
     * `asserted`: an external assertion, recorded as an assumption when it
     * comes with a dependency and as a decision otherwise.
     */
    method Asserted(lit: Literal, lvl: Level, dep: Dependency)
      requires Valid() && lit.Var() < Size()
      requires values[lit.Index()] == LUndef
      modifies this
      ensures Valid()
      ensures old(Tabs().AllTagged()) ==> Tabs().AllTagged()
      ensures old(Tabs().AllLevelsReal()) && lvl < UINT_MAX ==> Tabs().AllLevelsReal()
      ensures Tabs() == old(Tabs()).SetRow(lit.Var(),
        AssignRow(old(RowOf(lit.Var())), lit.Sign(), AssertedKind(dep), lvl, NullClause, dep))
      ensures unused == old(unused) && deleted == old(deleted)
      ensures events == old(events) + [DelVarEh(lit.Var())]
    {
      Assign(AssertedKind(dep), lit, lvl, NullClause, dep);
      SetRowKeepsTagged(old(Tabs()), lit.Var(), AssignRow(old(RowOf(lit.Var())), lit.Sign(), AssertedKind(dep), lvl, NullClause, dep));
      SetRowKeepsLevels(old(Tabs()), lit.Var(), AssignRow(old(RowOf(lit.Var())), lit.Sign(), AssertedKind(dep), lvl, NullClause, dep));
    }

    /**
     * `unassign`: the inverse of `assign` on the literal's variable; its
     * watch lists and activity are kept.
     */
    method Unassign(lit: Literal)
      requires Valid() && lit.Var() < Size()
      requires values[lit.Index()] != LUndef
      modifies this
      ensures Valid()
      ensures Tabs() == old(Tabs()).SetRow(lit.Var(), UnassignRow(old(RowOf(lit.Var())), lit.Sign()))
      ensures unused == old(unused) && deleted == old(deleted)
      ensures events == old(events) + [UnassignVarEh(lit.Var())]
    {
      var v := lit.Var();
      UnassignWrites(Tabs(), lit);
      ghost var r := UnassignRow(RowOf(v), lit.Sign());
      SetRowKeepsConsistent(Tabs(), v, r);
      values, levels, kinds, clauses, deps :=
        values[lit.Index() := LUndef][lit.Negate().Index() := LUndef],
        levels[v := UINT_MAX], kinds[v := Unassigned], clauses[v := NullClause], deps[v := NullDependency];
      events := events + [UnassignVarEh(v)];
    }

    /**
     * `display`: the true literal of every assigned variable, in increasing
     * order of variable id.
     */
    method Display() returns (out: seq<Literal>)
      requires Tabs().Shaped()
      ensures out == Displayed(values, Size())
    {
      out := [];
      var v := 0;
      while v < Size()
        invariant 0 <= v <= Size()
        invariant out == Displayed(values, v)
      {
        var lit := PositiveLit(v);
        if values[lit.Index()] == LTrue {
          out := out + [lit];
        } else if values[lit.Index()] == LFalse {
          out := out + [lit.Negate()];
        }
        v := v + 1;
      }
    }

    /** In a valid manager, `display` prints exactly the true literals. */
    lemma DisplayedTrueLiterals()
      requires Valid()
      ensures forall lit :: lit in Displayed(values, Size()) <==> lit.Var() < Size() && values[lit.Index()] == LTrue
    {
      forall v | 0 <= v < Size() ensures PairComplementary(values, v) {
        assert RowOf(v).Consistent();
      }
      forall lit ensures lit in Displayed(values, Size()) <==> lit.Var() < Size() && values[lit.Index()] == LTrue {
        DisplayedExact(values, Size(), lit);
      }
    }
  }
}
