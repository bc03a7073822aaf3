# Veros core utilities: a verified model

This project models the four array kernels of `veros/core/utilities.py` in the
Veros ocean model. They are the boundary enforcer for halo cells, z-edge padding,
the water-mask builder and the floor-term injection of the implicit vertical solve.
Arrays are immutable Dafny sequences and every kernel is a pure function.

- `Boundaries` (boundaries.dfy) models the boundary kernel. A field is a sequence of
  rows along the x axis, and the row type is opaque. The branch rule decides between the
  local path and the distributed path. The local cyclic wrap is the two slice overwrites
  applied in order. The distributed overlap exchange is a parameter that gives each row's
  new value, so it preserves length by construction.
- `Padding` (padding.dfy) models `pad_z_edges` on a rank-tagged array. Rank 1 and rank 3
  are padded. Rank 0 and rank 2 give an error result.
- `WaterMasks` (water_masks.dfy) builds the masks of one column from `ks` and `nz`, then
  lifts them to a grid. It also proves the counting invariants.
- `Implicit` (implicit.dfy) models the optional `b_edge`/`d_edge` injection per column.
  The tridiagonal solver is a function parameter.
- `Wrappers` (wrappers.dfy) holds `Option` and `Result`.

Facts about the source that shape the model:

- `pad_z_edges` raises `ValueError` for 0-D as well as 2-D input
  (veros/core/utilities.py:37-38), because its `else` branch catches every rank other
  than 1 and ≥ 3.
- On 3-D input, `pad_z_edges` pads axis 2 and leaves axes 0 and 1 alone
  (veros/core/utilities.py:36).
- The local cyclic wrap is defined for every length n ≥ 4. From that length on, all four
  slices `[-2:]`, `[2:4]`, `[:2]` and `[-4:-2]` have length 2. The pointwise facts hold
  for every n ≥ 4. Halo consistency and idempotence hold for n = 4, where the wrap is the
  identity, and for every n ≥ 6. They fail at n = 5 (`WrapOfFiveRowsNotConsistent`).
- `b_edge` and `d_edge` enter through the elementwise product with `edge_mask`
  (veros/core/utilities.py:62, 65), so a term may differ from cell to cell. The model
  takes one value per cell; a single value for the column is the uniform case.

## Model

| member | source | states |
|---|---|---|
| `Boundaries.StaysLocal` | veros/core/utilities.py:14 | the branch rule: no exchange iff one process along x, or the context is not distribution-safe, or `local` is set |
| `Boundaries.WrapHigh` | veros/core/utilities.py:16 | the last two rows become the old rows 2 and 3; all earlier rows are unchanged |
| `Boundaries.WrapLow` | veros/core/utilities.py:17 | the first two rows become the old rows n-4 and n-3; all later rows are unchanged |
| `Boundaries.CyclicWrap` | veros/core/utilities.py:15-17 | length is kept; rows n-2, n-1 equal old rows 2, 3; rows 0, 1 equal old rows n-4, n-3; rows 2..n-3 are unchanged |
| `Boundaries.WrapUnique` | veros/core/utilities.py:15-17 | any sequence that meets the pointwise description of the wrap is the result of the two updates, so the description defines the wrap exactly |
| `Boundaries.WrapFixesExactlyConsistent` | veros/core/utilities.py:15-17 | the wrap leaves a field unchanged iff its halo rows already equal the opposite interior rows |
| `Boundaries.WrapMakesConsistent` | veros/core/utilities.py:15-17 | for n = 4 and every n ≥ 6 the wrapped field has a consistent periodic halo |
| `Boundaries.WrapIdempotent` | veros/core/utilities.py:15-17 | for n = 4 and every n ≥ 6, enforcing the cyclic boundary twice is the same as once |
| `Boundaries.WrapOfFourRowsIsIdentity` | veros/core/utilities.py:15-17 | with 4 rows both overwrites copy rows onto themselves, so the wrap changes nothing |
| `Boundaries.WrapOfFiveRowsNotConsistent` | veros/core/utilities.py:15-17 | with 5 rows the overlapping slices leave the halo inconsistent after one wrap |
| `Boundaries.Exchanged` | veros/core/utilities.py:20 | the in-place exchange keeps the field's length, and every row is what the exchange delivers |
| `Boundaries.EnforceBoundaries` | veros/core/utilities.py:9-25 | length is kept; on the local path a non-cyclic call returns the input unchanged and a cyclic call on at least 4 rows performs the wrap, and an empty field stays empty; otherwise the result is the exchange's |
| `Boundaries.LocalIgnoresExchange` | veros/core/utilities.py:14-18 | on the local path, no communication happens: the result is the same whatever the exchange would do |
| `Boundaries.DistributedUsesExchange` | veros/core/utilities.py:14-21 | off the local path, the exchange decides the result: two different exchanges give different fields |
| `Padding.PadEdge` | veros/core/utilities.py:34 | a column of length L becomes length L+2; out[0] = in[0], out[L+1] = in[L-1], out[1..L+1] = in; each cell is the input at the clamped index |
| `Padding.PadColumns` | veros/core/utilities.py:36 | the first two axes keep their lengths; every z column is edge-padded by one cell at each end |
| `Padding.PadZEdges` | veros/core/utilities.py:29-39 | 0-D and 2-D input is an error; 1-D and 3-D input succeeds unless the padded axis is empty; the rank is kept; shape and edge values are as for the 1-D and 3-D cases |
| `Padding.TrimAfterPad` | veros/core/utilities.py:33-36 | padding loses no data: removing the added cells gives the original array |
| `WaterMasks.Column` | veros/core/utilities.py:44-53 | land iff ks ≥ 1; both 3-D masks have nz levels; water at k iff land and k ≥ ks-1; edge at k iff land and k = ks-1 |
| `WaterMasks.EdgeImpliesWater` | veros/core/utilities.py:46-53 | every edge cell is a water cell |
| `WaterMasks.WaterMonotone` | veros/core/utilities.py:46-49 | the water mask is monotone in k |
| `WaterMasks.EdgeIsFirstWater` | veros/core/utilities.py:46-53 | the edge cell is the lowest water cell of its column: water there and not water at k-1 |
| `WaterMasks.LandColumnDry` | veros/core/utilities.py:44-53 | a land column has zero water cells and zero edge cells |
| `WaterMasks.EdgeCount` | veros/core/utilities.py:50-53 | a column has exactly one edge cell, at ks-1, when 1 ≤ ks ≤ nz, and none otherwise |
| `WaterMasks.WaterCount` | veros/core/utilities.py:46-49 | a water column has exactly nz-(ks-1) water cells, or none if ks-1 ≥ nz |
| `WaterMasks.CreateWaterMasks` | veros/core/utilities.py:43-54 | the grid masks have the shape of `ks`, and each column's masks are that column's masks |
| `WaterMasks.GridInvariants` | veros/core/utilities.py:43-54 | over the whole grid: land iff ks ≥ 1, edge implies water, one edge cell per column with 1 ≤ ks ≤ nz and none otherwise, land columns dry |
| `Implicit.AddAtEdge` | veros/core/utilities.py:61-65 | an absent term leaves the array unchanged; a present per-cell term is added where the edge mask is set and nowhere else; a cell with a nonzero term changes exactly when it is an edge cell |
| `Implicit.AddAtEdgeSum` | veros/core/utilities.py:61-65 | the total added is the sum of the term over the edge cells |
| `Implicit.UniformInjectedTotal` | veros/core/utilities.py:61-65 | a term given once for the column is added once per edge cell |
| `Implicit.AddAtEdgeInverse` | veros/core/utilities.py:61-65 | injecting the negated term undoes an injection |
| `Implicit.InjectEdges` | veros/core/utilities.py:61-65 | the solver's sub-/super-diagonal and masks are the caller's; diagonal and right-hand side carry the floor terms at edge cells only |
| `Implicit.SolveImplicit` | veros/core/utilities.py:58-67 | without `b_edge` and `d_edge`, the solver sees the caller's system unchanged |
| `Implicit.InjectionAtFloorOnly` | veros/core/utilities.py:61-65 | with masks built from ks, only the floor entry ks-1 of a water column changes, by the term's value there |
| `Implicit.InjectedTotal` | veros/core/utilities.py:61-65 | with masks built from ks, a column receives the term's value at ks-1 if it is a water column whose floor lies within it, and nothing otherwise |
| `Implicit.LandColumnInert` | veros/core/utilities.py:61-67 | a land column reaches the solver untouched, whatever floor terms are given |

## Left out

- `exchange_overlap` (veros/core/utilities.py:20): distributed communication whose code is
  not part of this model. It is a parameter that returns each row's new value, and the
  model assumes nothing else about it.
- `runtime_settings`, `CONTEXT.is_dist_safe` and the `veros_kernel` decorator: runtime
  plumbing. The process count along x and the safety flag are plain parameters.
- `solve_tridiagonal` (veros/core/operators.py, which is not part of this model): the
  solver is a function parameter, and only the injection before it is modelled.
- `Boundaries.CyclicWrap` requires at least 4 rows (twice the halo width). For n = 1..3 the
  source slices have different lengths, and the outcome depends on the array library's
  broadcasting or shape errors. For n = 0 every slice is empty and nothing changes, which
  `Boundaries.EnforceBoundaries` does model.
- `Padding.PadZEdges` models ranks 0 to 3 only. `np.pad` with a three-axis pad
  specification on a higher-rank array is library behaviour that is not visible here.
- `Padding.PadZEdges` returns `EmptyAxis` when the padded axis is empty. This follows
  NumPy's edge mode, which cannot extend an empty axis. It is library behaviour, not code
  in the kernel.
- `WaterMasks.Column` takes `nz` as a natural number. A negative `nz` would give empty
  masks through `np.arange`; it is not a level count and is not modelled.
- `Implicit.AddAtEdge`: the injection is modelled per column over real numbers. Floating-point
  rounding is not modelled. Neither are NaN or infinite terms, which would spread through
  `edge_mask * b_edge` to non-edge cells. A present term has one value per cell of the
  column, and a column-wide value is its uniform case; other broadcast shapes are not modelled.
- The in-place `b += …` / `d += …` mutation of the caller's arrays is not modelled. It
  depends on the backend, so the model returns new sequences.
