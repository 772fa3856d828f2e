# polysat boolean-variable manager, modelled in Dafny

This project models `polysat::bool_var_manager`, the component of the polysat
bit-vector solver that stores the state of its boolean variables. The source
keeps it as a set of parallel vectors:

- per literal: a three-valued truth value and a watch list;
- per variable: a decision level (`UINT_MAX` while unassigned), a provenance
  kind, a justifying clause, an external dependency and an activity counter;
- a pool of reusable ids, `m_unused`.

The operations covered are:

- `new_var` and `del_var`, which allocate and retire ids;
- `assign` and the five entry points that call it (`propagate`, both
  `decide` overloads, `eval` and `asserted`);
- `unassign`;
- `display`.

Modules:

- `SatTypes` (`sat_types.dfy`): `lbool`, literals with their `index()` and
  `~`, and 32-bit levels with the `UINT_MAX` sentinel.
- `BoolState` (`bool_state.dfy`): the state as values.
  - `Row` is one variable's slice of every table.
  - `Row.Consistent` holds the invariants the tables must satisfy:
    - the two literal values of a variable are complementary;
    - a variable is unassigned exactly when its kind says so, and then its
      level is the sentinel and it has neither clause nor dependency.
  - `FreshRow`, `AssignRow`, `UnassignRow` and `DeletedRow` give the effect
    of each transition on a row.
  - `Tables` bundles the parallel tables. `Tables.SetRow` and `Tables.Push`
    overwrite and append rows.
  - The `...Writes` lemmas show that the point writes of each operation are
    exactly such a row overwrite.
  - `Displayed` is the specification of `display`.
- `PolysatBoolean` (`boolean.dfy`): the class `BoolVarManager`.
  - Its fields are the source's vectors, as sequences the methods reassign.
  - Its methods make the same writes as the source, in the same branches.
  - Each method's contract states the new tables as a function of the old
    tables, through `Tables.SetRow` or `Tables.Push`.
  - Each method preserves the invariant `Valid()`.
- `Scenarios` (`scenarios.dfy`): three client methods verified against the
  contracts.
  - A decision undone by `unassign`.
  - The propagation of a negative literal.
  - `asserted` with and without a dependency.

The notifications to the free-variable order `m_free_vars` are kept as a
ghost log of events. Two ghost fields have no counterpart in the source:

- `deleted` records the ids passed to `del_var`;
- `events` records the notification calls, oldest first.

## Model

| member | source | states |
|---|---|---|
| SatTypes.LBool.Not | src/math/polysat/boolean.cpp:95-96 | negation maps true and false to each other and keeps undefined |
| SatTypes.Literal.Negate | src/math/polysat/boolean.cpp:49-50 | `~lit` has the same variable and the opposite sign; its index is the literal's index with the lowest bit flipped |
| SatTypes.PositiveLit | src/math/polysat/boolean.cpp:48 | `sat::literal(var)` is the positive literal of `var`, with index `2*var`; its negation has index `2*var+1` |
| BoolState.FreshRow | src/math/polysat/boolean.cpp:23-31 | a new variable: both literals undefined, `UINT_MAX` level, unassigned kind, no clause, no dependency, empty watch lists, activity 0; the row is consistent |
| BoolState.AssignRow | src/math/polysat/boolean.cpp:92-101 | the literal becomes true and its negation false; level, kind, clause and dependency are recorded; watch lists and activity are kept; the result is consistent, well tagged exactly when the arguments are, and has a real level exactly when `lvl < UINT_MAX` |
| BoolState.UnassignRow | src/math/polysat/boolean.cpp:104-112 | the variable goes back to the fresh state except that its watch lists and activity are kept |
| BoolState.DeletedRow | src/math/polysat/boolean.cpp:46-57 | deletion leaves a fresh row, both watch lists empty, except that the activity is kept |
| BoolState.AssignUnassignRoundTrip | src/math/polysat/boolean.cpp:92-113 | unassigning right after assigning an unassigned, consistent row restores that row |
| BoolState.AssignUnassignTables | src/math/polysat/boolean.cpp:92-113 | on the whole tables, assigning an unassigned literal and then unassigning it restores every slot |
| BoolState.SentinelIffUnassigned | src/math/polysat/boolean.cpp:25 | for a consistent row with a real level, the level is `UINT_MAX` exactly when the variable is unassigned |
| BoolState.AssertedKind | src/math/polysat/boolean.cpp:88 | `asserted` records an assumption exactly when a dependency is given, and a decision exactly when none is |
| BoolState.Tables.SetRow | src/math/polysat/boolean.cpp:92-112 | overwriting one variable's slots keeps the table shapes and size, and that variable's row becomes the given row |
| BoolState.Tables.Push | src/math/polysat/boolean.cpp:21-31 | appending keeps the tables aligned, adds one variable, and the new variable's row is the given row |
| BoolState.SetRowOthers | src/math/polysat/boolean.cpp:92-112 | overwriting one variable's slots leaves every other variable's slots unchanged |
| BoolState.SetRowKeepsConsistent | src/math/polysat/boolean.cpp:92-112 | overwriting with a consistent row keeps every row consistent |
| BoolState.SetRowKeepsTagged | src/math/polysat/boolean.cpp:62-101 | overwriting with a well-tagged row keeps every row well tagged |
| BoolState.SetRowKeepsLevels | src/math/polysat/boolean.cpp:92-101 | overwriting with a row at a real level keeps every assigned variable at a real level |
| BoolState.PushOthers | src/math/polysat/boolean.cpp:21-31 | appending a row leaves the rows of the existing variables unchanged |
| BoolState.PushKeepsConsistent | src/math/polysat/boolean.cpp:21-31 | appending a consistent row keeps every row consistent |
| BoolState.AssignWrites | src/math/polysat/boolean.cpp:95-100 | `assign`'s writes (value of `lit`, value of `~lit`, level, kind, clause, dependency) are exactly the overwrite of the variable's row with `AssignRow` |
| BoolState.UnassignWrites | src/math/polysat/boolean.cpp:106-111 | `unassign`'s writes are exactly the overwrite of the variable's row with `UnassignRow` |
| BoolState.DelVarWrites | src/math/polysat/boolean.cpp:48-56 | `del_var`'s writes, including the reset of both watch lists, are exactly the overwrite of the variable's row with `DeletedRow` |
| BoolState.Displayed | src/math/polysat/boolean.cpp:115-124 | the literals `display` prints for the first `n` variables, at most one per variable |
| BoolState.DisplayedIncreasing | src/math/polysat/boolean.cpp:116 | the printed literals are of variables below `n`, in strictly increasing variable order |
| BoolState.DisplayedExact | src/math/polysat/boolean.cpp:117-122 | with complementary value pairs, a literal is printed exactly when its variable is below `n` and the literal is true |
| BoolState.ShownExact | src/math/polysat/boolean.cpp:117-122 | for one variable, the printed literal is exactly its true literal |
| PolysatBoolean.BoolVarManager.Value | src/math/polysat/boolean.cpp:119-121 | `value(lit)` is the literal's slot in the variable's row, and the negation of the opposite literal's value |
| PolysatBoolean.BoolVarManager.NewVar | src/math/polysat/boolean.cpp:19-44 | with no reusable id: the old size is returned and one fresh row is appended. Otherwise: the last reusable id is popped, no table changes, and that row is unassigned with sentinel level, unassigned kind and null clause and dependency. Either way: the invariant is kept, the id is allocated and was never deleted, and no notification is sent |
| PolysatBoolean.BoolVarManager.DelVar | src/math/polysat/boolean.cpp:46-60 | requires the id not to be reusable; the variable's row becomes `DeletedRow` of the old one and nothing else changes; the id is not made reusable; `del_var_eh` is sent; the invariant is kept |
| PolysatBoolean.BoolVarManager.Assign | src/math/polysat/boolean.cpp:92-102 | requires an unassigned literal and a real kind; the variable's row becomes `AssignRow` of the old one and nothing else changes; `del_var_eh` is sent; the invariant is kept |
| PolysatBoolean.BoolVarManager.Propagate | src/math/polysat/boolean.cpp:62-66 | assigns with kind bool-propagation, the given clause and no dependency; keeps the tagging and real-level invariants |
| PolysatBoolean.BoolVarManager.DecideOnLemma | src/math/polysat/boolean.cpp:68-72 | assigns with kind decision, the case-split lemma as clause and no dependency; keeps the tagging and real-level invariants |
| PolysatBoolean.BoolVarManager.Decide | src/math/polysat/boolean.cpp:74-78 | assigns with kind decision, no clause and no dependency; keeps the tagging and real-level invariants |
| PolysatBoolean.BoolVarManager.Eval | src/math/polysat/boolean.cpp:80-84 | assigns with kind value-propagation, no clause and no dependency; keeps the tagging and real-level invariants |
| PolysatBoolean.BoolVarManager.Asserted | src/math/polysat/boolean.cpp:86-90 | assigns with no clause, the given dependency, and kind assumption or decision as the dependency is present or null; keeps the tagging and real-level invariants |
| PolysatBoolean.BoolVarManager.Unassign | src/math/polysat/boolean.cpp:104-113 | requires an assigned literal; the variable's row becomes `UnassignRow` of the old one and nothing else changes; `unassign_var_eh` is sent; the invariant is kept |
| PolysatBoolean.BoolVarManager.Display | src/math/polysat/boolean.cpp:115-124 | the loop returns `Displayed` of the value table over all variables |
| PolysatBoolean.BoolVarManager.DisplayedTrueLiterals | src/math/polysat/boolean.cpp:115-124 | in a valid manager, `display` prints exactly the true literals |

## Left out

- The class `bool_var_manager`, its queries (`value`, `is_assigned`,
  `level`, `kind`, ...) and `kind_t` are declared in
  `src/math/polysat/boolean.h`, which is not part of this model. The queries
  named here read the tables in the model: `Value` reads the value table and
  `RowOf` reads one variable's row.
- `sat::literal` comes from the SAT solver's type header, which is not part
  of this model. `Literal` gives only what boolean.cpp uses:
  - `index()` is `2*var + sign`;
  - `~` flips the sign;
  - `sat::literal(v)` is the positive literal.
- `lbool` and its `~` come from a utility header that is not part of this
  model. `LBool.Not` gives the negation that the complementary writes of
  `assign` (boolean.cpp:95-96) rely on.
- The constructor models the empty vectors of a default-constructed manager.
  No source line in boolean.cpp defines it.
- `LOG` tracing in the five entry points is not modelled, because it has no
  effect on the state.
- `display`: the text written to the stream is not modelled, because it is
  output only. The model returns the sequence of printed literals, in order.
- `m_free_vars` (the free-variable order) is outside this component. Its two
  notification calls are recorded as ghost events, and nothing is modelled
  about what the order does with them.
- Clause contents are not modelled, because the manager stores only a
  borrowed, nullable reference. Dependencies are opaque in the same way.
- Watch-list elements are opaque, because only the propagation loop reads
  them. The model tracks only whether a watch list is kept or emptied.
- `m_activity` is modelled only as far as this file touches it: it is
  initialised to 0 and never reset by `del_var`.
- The 32-bit width of variable ids and of `size()` is not modelled, and ids
  are unbounded. Levels are 32-bit values with `UINT_MAX` as the sentinel.
- PolysatBoolean.BoolVarManager.NewVar: the reuse path demands an
  unassigned row as a precondition. The other facts the source asserts there
  are then proved from the invariant. The reuse path is unreachable today,
  because `del_var` never adds to `m_unused`.
- PolysatBoolean.BoolVarManager.NewVar, DelVar and Unassign do not restate
  the tagging invariant (`AllTagged`) or the real-level invariant
  (`AllLevelsReal`) in their contracts. The rows they write are tagged and at
  real levels by the contracts of `FreshRow`, `DeletedRow` and
  `UnassignRow`, so a caller gets both invariants from `PushOthers`,
  `SetRowKeepsTagged` and `SetRowKeepsLevels`.
- PolysatBoolean.BoolVarManager.Display requires only that the tables line
  up, since that is all its indexing needs. "Only true literals are
  printed" needs the full invariant and is the separate lemma
  `DisplayedTrueLiterals`.
- An assigned variable need not have a clause or a dependency: a plain
  `decide(lit, lvl)` (boolean.cpp:76) records neither. So the invariant has
  only "unassigned implies neither clause nor dependency", and `WellTagged`
  gives, per kind, what each entry point records.
- `assign` (boolean.cpp:97) does not check that `lvl < UINT_MAX`. So "the
  level is `UINT_MAX` exactly when the variable is unassigned" holds only
  while callers pass real levels: see `AllLevelsReal` and
  `SentinelIffUnassigned`.
- `del_var` (boolean.cpp:46-57) does not require the variable to be
  unassigned, and neither does `DelVar`.
- Of the notifications to the free-variable order, `new_var` sends none.
  Only `del_var`, `assign` and `unassign` send one.
