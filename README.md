# h3-api index core, modelled in Dafny

The repository keeps an in-memory index over h3 hexagonal cells. At start-up it
covers a disk around a centre point with whole rings of base-resolution cells,
adding rings until their summed area reaches the planar target area `π·r²`. It
then gives every covered cell a random `level` and `cell_id`. Three queries read
the records:

- `hex` returns the records of a parent cell's children.
- `bbox` returns the records of the cells of a polygon.
- `avg` groups the records by (ancestor cell at a coarser resolution, `cell_id`)
  and gives each group the element at index `len // 2` of its sorted levels.

`HexIndexServiceCached` differs from the plain service in one way: it builds the
cell-to-record lookup (`as_dict`) once, at construction, instead of on every query.

The model has six modules:

- `Wrappers` (wrappers.dfy): `Option`, `Result`, and the two ways the core can raise.
  `GridError` means an h3 call rejected its input. `EmptyRange` means `randint` got an
  empty range.
- `Grid` (grid.dfy): the h3 primitives as a `Geometry` value made of six functions.
  Those are `latlng_to_cell`, `grid_ring`, `cell_area`, `cell_to_children`,
  `cell_to_parent` and `geo_to_cells`. A primitive that raises on bad input returns `None`.
- `Coverage` (coverage.dfy): the ring loop of `create_hexes`, with the
  specification functions it is proved against and lemmas about them.
- `Records` (records.dfy): the records, the `as_dict` lookup, and the filter that
  `hex` and `bbox` share.
- `Aggregation` (aggregation.dfy): the grouping and median of `avg`, as
  specification functions with their lemmas.
- `Service` (service.dfy): the class. It has a `hexes` field and a `cache` field.
  `cache` is `None` for `HexIndexService` and `Some(lookup)` for
  `HexIndexServiceCached`. The `avg` loop is an imperative method proved against
  `Aggregation.Summary`.

`src/service.py` and `src/core.py` hold the same class pair. They differ only in
the ranges that the random draws use:

- `src/service.py` reads the ranges from the settings. The settings defaults are
  `base_resolution = 12`, `level ∈ [-120, -47]` and `cell_id ∈ [0, 100]`.
- `src/core.py` hard-codes `level ∈ [-120, -47]` and `cell_id ∈ [1, 100]`
  (`Service.CoreConfig`).

Both files take the base resolution from the settings. One parameterised
`Create` therefore models both files, and `CreateCore` fixes the `core.py` bounds.

Two behaviours of the code worth noting:

- The coverage does not always grow strictly as the radius grows. A larger target
  that the same number of rings still reaches gives the same set. `CoverageMonotone`
  proves the non-strict inclusion, and the model follows the code.
- `Random.randint` raises on an empty range only when it is actually called. So an
  inverted range makes construction fail only when the coverage is not empty, that
  is, when the target area is positive (`CreationFails`).

## Model

| member | source | states |
|---|---|---|
| Coverage.CoverDisk | src/service.py:39-46 | Whenever some number of rings reaches the target, the ring loop ends. The summed area is then at or above the target, and the total before the last ring was below it. The cells are the union of rings 0..n-1, and the area is their summed ring area. The set is empty exactly when the target is not positive. When ring 0 is the centre itself, the centre is included exactly when the target is positive. |
| Coverage.RingsUnionMembers | src/service.py:43-45 | A cell is in the coverage of n rings exactly when one of rings 0..n-1 lists it. |
| Coverage.AreaUpToMonotone | src/service.py:44 | The running total of ring areas never decreases as rings are added. |
| Coverage.RingsUnionMonotone | src/service.py:45 | The accumulated cell set only grows as rings are added. |
| Coverage.MinimalRingsLeast | src/core.py:40-44 | At the exit ring count, every shorter run of rings stays below the target, so no smaller ring count reaches it. |
| Coverage.MinimalRingsUnique | src/core.py:37-44 | The exit condition fixes the number of rings. |
| Coverage.CoverageUnique | src/service.py:39-46 | Two coverages of the same target from the same centre are the same set of cells. |
| Coverage.CoverageMonotone | src/service.py:36-46 | A larger target area (a larger radius) needs at least as many rings and covers a superset of the cells. |
| Coverage.AreaUpToGrows | src/service.py:42-46 | When every ring adds positive area, k rings add at least k units. |
| Coverage.EveryRingAddsReaches | src/service.py:42-46 | When every ring adds positive area, some number of rings reaches any target, so the loop ends. |
| Coverage.MinimalRingsBound | src/service.py:42-46 | When every ring adds positive area, the loop adds at most as many rings as the target has area units. |
| Records.Index | src/service.py:16-17 | The keys of `as_dict` are exactly the cells of the records, and each key maps to a record that carries that key and is one of the records. |
| Records.IndexLastWins | src/service.py:17 | A record whose cell no later record shares is what the lookup gives for that cell, as a dict comprehension overwrites earlier keys. |
| Records.IndexOfDistinct | src/core.py:14-15 | With one record per cell, every record is what the lookup gives for its own cell. |
| Records.Select | src/service.py:64 | The filtered result is never longer than the listing of candidate cells. |
| Records.SelectOrder | src/service.py:63-64 | The result consists of the lookups of the listed cells the map holds, taken from strictly increasing listing positions, and with every held position included. |
| Records.SelectFromIndex | src/core.py:55-56 | Over the records' own lookup, a record is returned exactly when it is a record and its cell is listed. The result is empty exactly when no record's cell is listed. |
| Records.DrawnStep | src/service.py:48-54 | Drawing one record for one more cell keeps one record per drawn cell, all within the ranges, and leaves the other cells to draw. |
| Aggregation.Insert | src/service.py:94 | Inserting a level adds exactly that level to the sequence: the length grows by one and the multiset gains that level. |
| Aggregation.InsertSorted | src/service.py:94 | Inserting into an ascending sequence keeps it ascending. |
| Aggregation.Sort | src/service.py:94 | `sorted` returns an ascending permutation of the group. |
| Aggregation.SortedUnique | src/service.py:94 | Two ascending orderings of the same multiset are equal, so the median does not depend on the sorting algorithm. |
| Aggregation.MedianInGroup | src/core.py:86 | The median is one of the group's levels and lies between the group's minimum and maximum. |
| Aggregation.MedianOfSorted | src/service.py:94 | For a group already in ascending order, the median is its element at index `len // 2`. |
| Aggregation.MedianOfPermutation | src/core.py:86 | The median depends only on the multiset of levels, not on the order they were appended in. |
| Aggregation.MedianOfThree | src/core.py:86 | The levels [10, 20, 30] give 20, the middle element of an odd-sized group. |
| Aggregation.MedianOfFour | src/service.py:94 | The levels [10, 20, 30, 40] give 30, at index 2 of an even-sized group. |
| Aggregation.MedianOfUnsorted | src/service.py:94 | The levels [40, 10, 30, 20] also give 30: the group is sorted before the index is taken. |
| Aggregation.Keys | src/service.py:89-90 | The keys of `result_dict` contain no duplicates, and they are exactly the keys the records carry. |
| Aggregation.FirstIndex | src/service.py:89 | The first record carrying a key is at this position: it carries the key, and no earlier record does. |
| Aggregation.KeysFirstSeen | src/service.py:86-90 | The keys are ordered by the position at which each was first seen. |
| Aggregation.GroupNonEmpty | src/service.py:89-92 | A key's group is non-empty exactly when some record carries that key. |
| Aggregation.GroupedNewKey | src/service.py:89-90 | One loop step on an unseen key inserts the key last, with a one-level group, and keeps the dict equal to the grouping of the records seen so far. |
| Aggregation.GroupedOldKey | src/service.py:91-92 | One loop step on a seen key appends the level to its group and keeps the dict equal to the grouping of the records seen so far. |
| Aggregation.GroupSizesSum | src/core.py:78-84 | The group sizes add up to the number of records: no record is dropped or counted twice. |
| Aggregation.SummaryKeys | src/service.py:94 | The `avg` output has no key twice, and a (parent, cell_id) key occurs in it exactly when some record carries it. |
| Aggregation.SummaryOrder | src/core.py:76-86 | The `avg` output lists the keys in the order of their first occurrence among the records. |
| Aggregation.SummaryLevel | src/core.py:86 | Each output level is the median of its non-empty group, so it is one of the group's levels and lies between the group's minimum and maximum. |
| Aggregation.SummarySizes | src/service.py:84-94 | The groups of the output keys together hold every record exactly once. |
| Service.HexIndexService.constructor | src/service.py:97-101 | Stores the records. The cached variant also stores the lookup computed from them, and the plain one stores none. |
| Service.HexIndexService.CreateHexes | src/service.py:19-54 | Whenever the ring loop ends, it fails exactly when the centre point is rejected, or when the coverage is non-empty and a range is empty. Otherwise it returns one record per cell of the coverage of the target around the centre cell, with each level and cell_id inside the inclusive ranges. The records are empty exactly when the target is not positive. When ring 0 is the centre itself, the centre is included exactly when the target is positive. |
| Service.HexIndexService.DrawRecords | src/service.py:48-54 | Fails exactly when there is a cell to draw for and a range is empty. Otherwise it returns exactly one record per cell of the set, with each level and cell_id inside the inclusive ranges. |
| Service.HexIndexService.Create | src/service.py:13-14 | Builds the plain or the cached service, failing exactly as create_hexes does. The records have one record per cell, cover the target as create_hexes does and stay within the ranges, and the cached lookup agrees with them. |
| Service.HexIndexService.CreateCore | src/core.py:31-46 | The service keeps the given geometry and the core.py configuration (the given base resolution with the hard-coded ranges). Construction fails only for a rejected centre point. The records' cells are the coverage of the target around the centre cell, and they are empty exactly when the target is not positive. When ring 0 is the centre itself, the centre is among them exactly when the target is positive. Every level is in [-120, -47] and every cell_id in [1, 100]. |
| Service.HexIndexService.AsDict | src/service.py:97-104 | The lookup returned by the cached variant equals the one the plain class rebuilds from the records. Its keys are exactly the records' cells. |
| Service.HexIndexService.Lookup | src/service.py:63-64 | Fails exactly when the cell listing could not be produced. Otherwise it returns the records of the listed cells in listing order, no more of them than the listing has, with a record returned exactly when its cell is listed, and nothing exactly when no listed cell is covered. |
| Service.HexIndexService.Hex | src/service.py:56-64 | Fails exactly when h3 rejects the parent cell or resolution. Otherwise it returns, in children order, the records whose cell is a child of the parent, and `[]` exactly when no child is covered. |
| Service.HexIndexService.Bbox | src/service.py:66-74 | Fails exactly when h3 rejects the polygon. Otherwise it returns, in listing order, the records whose cell is one of the polygon's cells, and no more of them than the polygon has cells. |
| Service.HexIndexService.Avg | src/service.py:76-94 | Fails exactly when some record's cell has no ancestor at the resolution. Otherwise it returns, per (ancestor, cell_id) key in first-seen order, the median level of that key's group. |
| Service.CachedAgrees | src/core.py:89-96 | A plain and a cached service over the same records give the same lookup and the same hex and bbox answers. |

## Left out

- src/main.py is not part of this model. It holds the HTTP routing, the JSON responses, the `border` string parsing with its longitude/latitude swap, and the mapping of exceptions to status 400.
- src/settings.py (loading the settings from the environment) is left out. The settings become the `Config` parameter of `Create`; their default values are listed above.
- The timing benchmark in the `__main__` block of src/core.py is left out.
- The h3 geometry is a parameter (`Grid.Geometry`). Nothing is assumed about it beyond what the preconditions below state. The shapely `Polygon` is an opaque value that only `polygonCells` reads.
- Floating point is not modelled. Cell areas and the target area `π·r²` are whole numbers in one shared unit, and the target is passed in already computed. Latitude and longitude are opaque `real`s passed to `latLngToCell`.
- Randomness is modelled only by its guarantee: each draw is some value in the inclusive range. The distribution is not modelled. The cell set's iteration order is an arbitrary choice.
- Every h3 exception becomes the single error `GridError`, without its message.
- Coverage.CoverDisk: requires that some finite number of rings around the centre reaches the target area. When none does, the Python loop never ends, and a non-terminating run has no result to model. The same requirement, for the centre cell of the given point, is on Service.HexIndexService.CreateHexes, Service.HexIndexService.Create and Service.HexIndexService.CreateCore.
- Service.HexIndexService.AsDict: the model treats the lookup as a value. In Python, the cached variant returns the same dict object on every call, and the records are lists shared between `hexes` and the dict. A caller that mutated them would change later answers. The core never mutates them.
- Thread safety (only a comment in src/service.py) is not modelled.
