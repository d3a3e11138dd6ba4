# Transportation-problem table preprocessing, in Dafny

This project models the preprocessing helpers of a supply/demand
(transportation) optimisation pipeline, `functions/utils.py`. They work on
two tables:

- the **capacity table**, one row per node: NodeIndex, NodeName, Capacity;
- the **connection table**, one row per directed edge: StartNode, EndNode,
  Distance, Cost.

There are three operations:

- `eliminate_provider` drops the excluded nodes from the capacity table. It
  also drops every connection with an excluded endpoint.
- `adjust_umbalance_problem` compares the supply total with the demand total,
  both given by the caller. When they differ, it appends one synthetic node:
  the client `"Cliente Add"` when supply is larger, the provider `"Prov Add"`
  when demand is larger. It also adds zero-distance, zero-cost edges linking
  that node to every distinct start node (or end node) of the existing
  connections.
- `strip_col` trims leading and trailing whitespace from the named text
  columns of a table. It works in place and returns the same table.

## Layout

- `Tables.dfy` (module `Tables`): the row records `Node` and `Edge`, the pair
  `Problem` of both tables, and the StartNode/EndNode columns.
  A table is a `seq` of rows. A row's label (the pandas index) is its
  position: `reset_index(drop = True)` and `concat(..., ignore_index = True)`
  make the labels exactly that.
- `Sequences.dfy` (module `Sequences`): two generic operations. `Filter` is an
  order-preserving filter, like boolean row selection. `Distinct` gives the
  distinct values in order of first appearance, like `Series.unique()`.
  The predicate `UniqueValues(s, r)` characterises `Distinct` independently:
  `r` has no duplicates, holds exactly the values of `s`, and orders them by
  their first position in `s` (`FirstIndex`). `DistinctUnique` proves that
  this characterisation has only one solution.
- `Eliminate.dfy` (module `Eliminate`): `eliminate_provider`, as a pure
  function.
- `Balance.dfy` (module `Balance`): `adjust_umbalance_problem`, as a pure
  function. It returns a `Result`, because an imbalanced problem with an
  empty capacity table has no last row label. pandas raises `IndexError`
  there; the model returns `Err(NoLastRow)`.
- `Strip.dfy` (module `Strip`): `str.strip()` as a pure function over Python's
  whitespace characters. The class `Frame` is a table of text columns, each an
  `array<string>` cell buffer. `Frame.StripColumn` updates one column in place.
  The method `StripCol` is the loop over the named columns; it mutates the
  given frame and returns that same frame. Its frame may write any column
  array, and its postcondition pins the cells of the columns it does not
  name to their old contents.

Two points about the synthetic node's NodeIndex:

- It is one more than the label of the last ROW (`df_cap.index[-1]`), not one
  more than the last NodeIndex value. `AdjustImbalance` uses the label, which
  is the row count.
- Elimination renumbers the row labels but not the NodeIndex column. So after
  an elimination, the synthetic node can get a NodeIndex that a remaining node
  already holds. `IndexCollisionAfterElimination` shows a concrete case.
  `AdjustKeepsDenseIndex` shows that this cannot happen when NodeIndex equals
  the row label.

## Model

| member | source | states |
|---|---|---|
| `Eliminate.EliminateProvider` | functions/utils.py:4-15 | Every surviving capacity row is an input row whose NodeName is not excluded, and every such input row survives. Every surviving connection is an input connection with neither StartNode nor EndNode excluded, and every such connection survives. Neither table grows. |
| `Eliminate.EliminateAppend` | functions/utils.py:10-13 | Elimination works row by row: eliminating from concatenated tables gives the concatenated results, so surviving rows keep their relative order. |
| `Eliminate.EliminateOneRow` | functions/utils.py:10-13 | A single capacity row is kept unchanged iff its NodeName is not excluded. A single connection is kept unchanged iff neither endpoint is excluded. |
| `Eliminate.EliminateCounts` | functions/utils.py:10-13 | Each kept row occurs in the result exactly as often as in the input. An excluded row occurs zero times. |
| `Eliminate.EliminateNothing` | functions/utils.py:10-13 | When no row mentions an excluded name, both tables come back unchanged. This includes the empty exclusion set. |
| `Eliminate.EliminateTwice` | functions/utils.py:10-13 | Eliminating `a` and then `b` equals eliminating `a + b` in one step. |
| `Eliminate.EliminateIdempotent` | functions/utils.py:10-13 | Applying the same exclusion twice gives the tables of applying it once. |
| `Sequences.Distinct` | functions/utils.py:41 | `unique()` of a column: no duplicates, exactly the values of the column, ordered by first occurrence. |
| `Sequences.DistinctUnique` | functions/utils.py:65 | Any duplicate-free sequence of exactly the column's values, ordered by first occurrence, equals `Distinct` of the column. |
| `Balance.AdjustImbalance` | functions/utils.py:17-77 | Equal totals: both tables unchanged. Empty capacity table with unequal totals: `Err(NoLastRow)`, and only then. Supply larger: capacity table is the input plus one row `("Cliente Add", capacity = supply - demand)` with NodeIndex = row count; connection table is the input followed by one zero-distance, zero-cost edge into "Cliente Add" per distinct StartNode, in first-appearance order. Demand larger: the mirror image with "Prov Add", capacity = demand - supply, one edge to each distinct EndNode. |
| `Balance.LinksEachOnceDetermined` | functions/utils.py:39-46 | The properties stated for the added edges determine them completely: they are exactly the links to `unique()` of the start (or end) nodes. |
| `Balance.AdjustCloses` | functions/utils.py:28-32 | The synthetic node's capacity is positive and closes the gap. With "Cliente Add": supply = demand + capacity. With "Prov Add": supply + capacity = demand. |
| `Balance.AdjustReachesAll` | functions/utils.py:39-70 | Every start node (supply surplus) or end node (demand surplus) of an existing connection gets a zero-cost link to the synthetic node. |
| `Balance.AdjustAppendsNode` | functions/utils.py:28-60 | With unequal totals and a non-empty capacity table, the existing capacity rows are kept as they are and exactly one row is appended: "Cliente Add" for a supply surplus, "Prov Add" for a demand surplus, with NodeIndex equal to the old row count (last label + 1). |
| `Balance.AdjustKeepsDenseIndex` | functions/utils.py:56-60 | If NodeIndex equals the row label for every row before the call, it still does afterwards. So the new NodeIndex is then unused. |
| `Balance.IndexCollisionAfterElimination` | functions/utils.py:56 | Example (any connection table): removing "P1" from P1/P2/C1 and then adding "Prov Add" gives the new node the NodeIndex 2 that "C1" already holds. |
| `Strip.Strip` | functions/utils.py:87 | `str.strip()`: the result is a contiguous part of the input. Only whitespace lies before and after it, and it neither starts nor ends with whitespace. |
| `Strip.StripFixedPoint` | functions/utils.py:87 | Stripping leaves a string unchanged iff it is empty or neither starts nor ends with whitespace. |
| `Strip.StripIdempotent` | functions/utils.py:87 | Stripping twice equals stripping once. |
| `Strip.StripAllSpace` | functions/utils.py:87 | An all-whitespace string strips to the empty string. |
| `Strip.StripColumnsShape` | functions/utils.py:86-87 | Trimming keeps the column names and every column's row count, and leaves columns outside the list unchanged. Each cell of a named column becomes the stripped original, with no whitespace at either end. |
| `Strip.StripColumnsIdempotent` | functions/utils.py:86-89 | Trimming the same columns twice equals trimming them once. |
| `Strip.Frame.StripColumn` | functions/utils.py:87 | In-place trim of one column: afterwards only that column's cells differ, each is the stripped original, and the table stays well formed. |
| `Strip.StripCol` | functions/utils.py:80-89 | The returned table is the argument itself, mutated in place. Its columns and row count are unchanged. Its cells equal `StripColumns` of the old cells over the listed names: named columns stripped cell by cell, every other column as before. A repeated name is harmless. |

## Left out

- The status messages printed by `adjust_umbalance_problem` (console output only; they do not affect the returned tables).
- pandas internals: dtypes, deep copies, index objects other than "label = position", and the column order of the frames.
- Balance.AdjustImbalance: assumes the row labels of the capacity table are its positions 0..n-1, so the new NodeIndex is the row count. The function derives it from whatever label the last row carries, so a caller-supplied non-default index is not modelled.
- Floating-point capacities, distances and costs: they are integers here, so `abs(cap_prov - cap_client)` is exact.
- Strip.StripCol: requires every named column to exist. pandas raises `KeyError` for a missing one, and that path is not modelled.
- Strip.StripCol: covers text columns only. On non-string cells the `.str` accessor yields NaN or raises, and that is not modelled.
- Columns other than text columns: a `Frame` holds only text columns, so "other columns unchanged" is stated for the other text columns.
- Uniqueness of node names and dangling edge references: the code neither checks nor relies on them, and neither does the model.
- The downstream optimisation solver and reading the tables from files are not part of this model.
