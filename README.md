# map_maker hydrology, biomes and city seeding in Dafny

This project models the deterministic core of map_maker, a procedural map generator. It runs over a triangle mesh: one cell per Delaunay triangle, three neighbour slots per cell with `-1` meaning off-mesh, and an edge flag per cell. The modelled parts are:

- **Mesh** (`mesh.dfy`, module `Meshes`). The mutable `Mesh` record, the centroid rule and the edge-region classification. The scipy triangulation is an input value.
- **Hydrology** (`hydrology.dfy`, module `Hydrology`):
  - Planchon–Darboux depression filling, a Jacobi relaxation that runs to a fixed point.
  - Steepest-descent flow routing with flux accumulated in descending-elevation order.
  - Three Gauss–Seidel coast-line smoothing sweeps.
- **Erosion driver** (`erosion.dfy`, module `Erosion`). `hydrolic_erosion` as a method on the mesh: five fill/route/carve rounds, a final routing and the normalisation.
- **Biomes** (`biomes.dfy`, module `Biomes`). `assign_biomes`, a sequence of masked writes in which a later write wins. A per-cell priority rule states the same classification independently.
- **Cities** (`cities.dfy`, module `Cities`):
  - the `city_score` mask and exclusion radius;
  - the greedy `place_seeds` loop;
  - the capped growth step of `grow_population`.
- **numpy** (`numpy.dfy`, module `NumPy`). The numpy semantics these rely on: extended reals with ±inf, Python negative indexing, first-occurrence argmin/argmax, and the min/max/sum reductions.

Readers take the mesh fields as values. Operations that mutate the mesh take the `Mesh` object and name the fields they write in `modifies`. The array loops are methods proved against specification functions (`Passes`/`Fill`, `FluxAfter`, `SweepPrefix`, `Score`, `Classify`), and the properties are proved as lemmas about those functions.

The model follows the code as written:

- **Edge cells.** During filling, edge cells are pinned to the median of all elevations (`map_maker/hydrology.py:12`), not to their own elevation. So "filled ≥ elevation" holds only for non-edge cells, and an edge cell's water depth is `median - elevation`, which may be negative.
- **No iteration cap.** The fill has no cap (`map_maker/hydrology.py:13-24`). The model runs it with explicit fuel and reports `FillDidNotSettle` when a fill has not settled within the fuel; the source keeps looping, until it settles or forever.
- **Flow on the unfilled field.** Each round routes flow on the unfilled `mesh.elevation` (`map_maker/hydrology.py:76`), not on the filled field, and the water depth is not clamped.
- **Normalisation.** Elevation is normalised as `(e - min) / max` (`map_maker/hydrology.py:81`), not min-max to [0, 1]. Zero maxima are not guarded: a field whose maximum is 0 yields the outcome `ZeroMaximum` and an empty one `EmptyMesh`. A field whose maximum is negative is flipped: `[-2, -1]` becomes `[0, -1]` (`Erosion.NormaliseNegativeMaximum`, `Erosion.NormaliseFlipExample`).
- **Flux normalisation.** Flux is divided by its maximum over all cells, including the off-mesh sentinel entry (`map_maker/hydrology.py:55`).

## Model

| member | source | states |
|---|---|---|
| NumPy.ArgMin | map_maker/hydrology.py:37 | the index is in range, holds a value no larger than any other, and every earlier value is strictly larger (first occurrence) |
| NumPy.ArgMax | map_maker/cities.py:34 | the index is in range, holds a value no smaller than any other, and every earlier value is strictly smaller (first occurrence) |
| NumPy.MinOf | map_maker/hydrology.py:81 | `.min()` bounds every element from below |
| NumPy.MaxOf | map_maker/hydrology.py:81 | `.max()` bounds every element from above |
| NumPy.MaxNat | map_maker/hydrology.py:55 | `flux.max()` bounds every count from above |
| NumPy.MinOfAttained | map_maker/hydrology.py:81 | some element equals the minimum |
| NumPy.MaxOfAttained | map_maker/hydrology.py:81 | some element equals the maximum |
| NumPy.MaxNatAttained | map_maker/hydrology.py:55 | some count equals the maximum |
| NumPy.SumBounds | map_maker/hydrology.py:68 | a sum of `n` values in [lo, hi] lies in [n·lo, n·hi] |
| NumPy.Min | map_maker/hydrology.py:17 | `np.minimum` is one of its arguments and no larger than either |
| NumPy.Max | map_maker/hydrology.py:19 | `np.maximum` is one of its arguments and no smaller than either |
| NumPy.Resolve | map_maker/hydrology.py:53 | a Python index in [-n, n) names a position below n |
| NumPy.At | map_maker/cities.py:48 | a Python index reads the position `Resolve` names, and -1 reads the last element |
| NumPy.SumAppend | map_maker/cities.py:41 | `.sum()` of an array with one more value is the old sum plus that value, at either end |
| Meshes.Centroid | map_maker/mesh.py:38 | the centre lies within the corners' x and y ranges and equals the corner of a degenerate triangle |
| Meshes.Centers | map_maker/mesh.py:38 | one centre per triangle, each the centroid of that triangle's three corners and within their x and y ranges |
| Meshes.EdgeRegions | map_maker/mesh.py:42-44 | a centre right of `width` or above `height` makes an edge cell, so does a `-1` neighbour, and a cell with neither is not one; non-edge cells have three real neighbours |
| Meshes.Mesh.constructor | map_maker/mesh.py:5-18 | every field of a new mesh is `None` |
| Meshes.DelaunyMesh | map_maker/mesh.py:35-48 | the record holds the triangulation's points, simplices, neighbours and point locator, the centres and edge flags computed from them, one row per triangle, and nothing else |
| Hydrology.LowestNeighbour | map_maker/hydrology.py:17 | the lowest of the three neighbour values is one of them and no larger than any |
| Hydrology.RelaxPassCells | map_maker/hydrology.py:16-23 | a pass keeps every edge cell; a non-edge cell with a strictly lower neighbour becomes `max(elevation, lowest + 0.0001)`, any other keeps its value |
| Hydrology.RelaxPassAt | map_maker/hydrology.py:16-23 | cell by cell, a pass leaves edge cells alone and writes `max(elevation, lowest + 0.0001)` only where a neighbour is lower |
| Hydrology.InitialFill | map_maker/hydrology.py:11-12 | the starting field has one entry per cell |
| Hydrology.InitialIsFilled | map_maker/hydrology.py:11-12 | the starting field (median on edge cells, +inf elsewhere) is filled |
| Hydrology.RelaxPassKeepsFilled | map_maker/hydrology.py:16-23 | a pass never writes an edge cell and keeps every non-edge cell +inf or at least its own elevation |
| Hydrology.SettledIffUnchanged | map_maker/hydrology.py:13-24 | a pass changes nothing exactly when every non-edge cell has no lower neighbour or already holds `max(elevation, lowest + eps)` |
| Hydrology.SettledDrains | map_maker/hydrology.py:17-19 | at the fixed point a cell with a lower neighbour stands at least eps above it, and exactly eps above it when raised above its own elevation |
| Hydrology.FillFrom | map_maker/hydrology.py:13-24 | a returned field has the mesh's length and is settled |
| Hydrology.FillFromFilled | map_maker/hydrology.py:13-24 | the passes keep the field filled up to the returned fixed point |
| Hydrology.FillFromStep | map_maker/hydrology.py:13-24 | the fill stops at the first field a pass leaves unchanged and otherwise continues from the new field |
| Hydrology.FillSettles | map_maker/hydrology.py:4-25 | what `Fill` returns has one entry per cell, is filled, is a fixed point, and every finite non-edge cell in it has a strictly lower neighbour |
| Hydrology.PassRaisesLessThanEpsilon | map_maker/hydrology.py:17-23 | a pass keeps a finite cell finite and raises it by less than 0.0001 |
| Hydrology.RelaxPassKeepsDescends | map_maker/hydrology.py:16-23 | if every finite non-edge cell of a filled field has a strictly lower neighbour, the same holds after a pass |
| Hydrology.FillFromDescends | map_maker/hydrology.py:13-24 | the passes keep every finite non-edge cell draining, up to the returned fixed point |
| Hydrology.SettledInfiniteClosed | map_maker/hydrology.py:17-18 | at a fixed point a non-edge cell still at +inf has only +inf neighbours |
| Hydrology.ReachableIsFinite | map_maker/hydrology.py:11-24 | at a fixed point every cell on a path of neighbours to an edge cell is finite |
| Hydrology.FillDrains | map_maker/hydrology.py:5-6 | in the field a fill returns, every non-edge cell with a path to an edge cell is finite and has a strictly lower neighbour |
| Hydrology.DisconnectedPit | map_maker/hydrology.py:5-6 | two non-edge cells that only neighbour each other stay at +inf and have no lower neighbour, so the promise needs a path to the edge |
| Hydrology.PlanchonDarbouxFill | map_maker/hydrology.py:4-25 | the loop returns the field after `passes` Jacobi passes; each of those passes changed the field; the result is filled and every finite non-edge cell in it has a strictly lower neighbour; on normal exit it is the settled field `Fill` describes, and without that the fuel ran out |
| Hydrology.WaterOfFilled | map_maker/hydrology.py:75 | the water depth of a filled field is never negative off the edge, and is `median - elevation` on edge cells |
| Hydrology.WithSentinel | map_maker/hydrology.py:35 | the appended array has one more entry than the mesh |
| Hydrology.SlotHeights | map_maker/hydrology.py:35-37 | an off-mesh slot reads +inf, every other slot its neighbour's elevation |
| Hydrology.DownhillSlot | map_maker/hydrology.py:37 | the chosen slot is one of the three |
| Hydrology.DownhillSlotIsLowest | map_maker/hydrology.py:37 | the chosen slot is the first of minimal height; it is off-mesh only when all three are; otherwise no on-mesh neighbour is lower |
| Hydrology.Downhill | map_maker/hydrology.py:37 | the downhill neighbour is a cell index or -1 |
| Hydrology.AllLowest | map_maker/hydrology.py:37 | every cell routes to a cell or to the sentinel |
| Hydrology.Target | map_maker/hydrology.py:53 | the entry `flux[lowest]` writes is a cell or the sentinel entry `n` |
| Hydrology.FluxAfter | map_maker/hydrology.py:50-53 | the flux array has one entry per cell plus the sentinel |
| Hydrology.AccumulateFlux | map_maker/hydrology.py:50-53 | the array loop yields the flux after visiting every cell of the order |
| Hydrology.VisitAddsToTarget | map_maker/hydrology.py:50-53 | a visit adds `flux[i] + 1` to the downhill target's entry and changes no other entry |
| Hydrology.FluxGrows | map_maker/hydrology.py:50-53 | no entry ever decreases while the loop runs |
| Hydrology.DownstreamGain | map_maker/hydrology.py:50-53 | the target of a visited cell ends with at least one unit more than the cell had when it was visited |
| Hydrology.FluxFrozenAfterVisit | map_maker/hydrology.py:50-53 | with a descending order, a cell whose contributors all stand strictly higher receives nothing after its own visit |
| Hydrology.FluxGrowsDownstream | map_maker/hydrology.py:50-53 | when every cell draining into `i` is strictly higher, `i`'s downhill target ends with at least one unit more than `i` |
| Hydrology.FluxMaxAtLeastOne | map_maker/hydrology.py:32-55 | on a non-empty mesh the maximum count is at least 1 |
| Hydrology.Normalised | map_maker/hydrology.py:55 | dividing by the maximum and dropping the sentinel leaves one value per cell |
| Hydrology.NormalisedWithin | map_maker/hydrology.py:55 | every normalised flux lies in [0, 1] |
| Hydrology.ScaledWithin | map_maker/hydrology.py:55 | counts divided by a bound on all of them lie in [0, 1] |
| Hydrology.NormalisedMonotone | map_maker/hydrology.py:55 | normalisation keeps the order of the counts |
| Hydrology.FluxCounts | map_maker/hydrology.py:32-53 | the raw counts have a sentinel entry, and some count is at least 1 on a non-empty mesh |
| Hydrology.FlowFlux | map_maker/hydrology.py:27-55 | the reported flux has one entry per cell |
| Hydrology.FlowFluxGrowsDownstream | map_maker/hydrology.py:50-55 | visiting cells from the highest down, the downhill target of a cell whose contributors are all strictly higher reports strictly more flux than the cell |
| Hydrology.CalculateFlow | map_maker/hydrology.py:27-55 | the returned flux is `FlowFlux`, lies in [0, 1] with one entry per cell; the slope is one entry shorter than the mesh and, for a cell with an on-mesh neighbour, is the drop to its lowest neighbour, at least the drop to any neighbour |
| Hydrology.OnMeshNeighbours | map_maker/hydrology.py:65 | every kept value is the value of some on-mesh neighbour slot |
| Hydrology.OnMeshNeighboursCount | map_maker/hydrology.py:65 | there are exactly as many values as slots that are not -1 |
| Hydrology.OnMeshNeighboursComplete | map_maker/hydrology.py:65 | the value of every slot that is not -1 is among them |
| Hydrology.CountAbove | map_maker/hydrology.py:66 | the count of land neighbours is at most the number of neighbours |
| Hydrology.SweepPrefix | map_maker/hydrology.py:64-70 | a partial sweep keeps the field's length |
| Hydrology.SweepKeepsWaterLine | map_maker/hydrology.py:67-70 | a cell exactly at the water line is never changed by a partial sweep |
| Hydrology.SweepFixesWaterLine | map_maker/hydrology.py:64-70 | a whole sweep leaves every cell at the water line where it is |
| Hydrology.SmoothedValue | map_maker/hydrology.py:66-70 | a land cell with fewer than half its on-mesh neighbours on land, or a sea cell with more than half, becomes the mean of itself and those neighbours; every other cell, including one at the water line or without on-mesh neighbours, keeps its value |
| Hydrology.SmoothedValueWithin | map_maker/hydrology.py:68-70 | a smoothed value, the mean of the cell and its on-mesh neighbours, stays within any range holding all of them |
| Hydrology.SweepPrefixWithin | map_maker/hydrology.py:63-70 | a sweep keeps every cell within the range of the field it starts from |
| Hydrology.SmoothCoastLines | map_maker/hydrology.py:57-71 | the result is three in-place sweeps over a copy; `mesh.elevation` is not written; cells at the water line keep their value |
| Erosion.Carve | map_maker/hydrology.py:77 | the carved field has one value per cell |
| Erosion.CarveBounds | map_maker/hydrology.py:77 | a cell is lowered by at most 0.05, and never raised by a non-negative carve amount |
| Erosion.ErosionRound | map_maker/hydrology.py:75-77 | one round keeps the field's length |
| Erosion.Eroded | map_maker/hydrology.py:74-77 | the field keeps its length through the rounds |
| Erosion.ErodedLowersAtMost | map_maker/hydrology.py:74-77 | `k` rounds lower a cell by at most `k * 0.05` |
| Erosion.Normalise | map_maker/hydrology.py:81 | the normalised field has one value per cell |
| Erosion.Shifted | map_maker/hydrology.py:81 | shifting and dividing keeps the field's length |
| Erosion.NormaliseRange | map_maker/hydrology.py:81 | with a positive maximum every value lies in [0, (max - min) / max], the minimum cell lands exactly on 0 and the maximum cell on (max - min) / max |
| Erosion.NormaliseNegativeMaximum | map_maker/hydrology.py:81 | with a negative maximum every value lies in [(max - min) / max, 0]: the minimum cell lands on 0 and the maximum cell below it |
| Erosion.NormaliseFlipExample | map_maker/hydrology.py:81 | `[-2, -1]` normalises to `[0, -1]` |
| Erosion.SettlingFields | map_maker/hydrology.py:13-24 | the set of fields whose fill settles within the fuel decides `Fill` for every field of the mesh's length |
| Erosion.ErodedShift | map_maker/hydrology.py:74-77 | `r` rounds after the first round are `r + 1` rounds from the start |
| Erosion.RoundsSettleAll | map_maker/hydrology.py:74-77 | the first `k` rounds all start from a settling field exactly when each of the fields after 0 .. k-1 rounds settles |
| Erosion.RoundsSettleFills | map_maker/hydrology.py:13-77 | when the rounds settle every round's `Fill` is `Some`, and otherwise some round's `Fill` is `None` |
| Erosion.ShiftedWithin | map_maker/hydrology.py:81 | values in [lo, hi] shifted by lo and divided by hi > 0 lie in [0, (hi - lo) / hi], with both ends reached |
| Erosion.ErosionStep | map_maker/hydrology.py:75-77 | a round succeeds exactly when the fill settles; then the water field is the depth of that `Fill` and the elevation is carved |
| Erosion.ErodeRounds | map_maker/hydrology.py:74-77 | the rounds complete exactly when the fill of each of the five fields `Eroded(0..4)` settles; then the elevation is `Eroded(5)`, `lastFilled` is the `Fill` of `Eroded(4)` and the water field its depth |
| Erosion.FinishErosion | map_maker/hydrology.py:79-82 | the final flux is stored; an empty field stops with elevation and water line unchanged; a field whose maximum is 0 is reported; otherwise the elevation is normalised and the water line is its median; the water field is untouched |
| Erosion.HydrolicErosion | map_maker/hydrology.py:73-83 | `FillDidNotSettle` exactly when some round's fill does not settle; otherwise exactly five carve rounds, the water of the last round's `Fill`, the final flux, the normalisation and the water line, with the empty and zero-maximum outcomes named |
| Biomes.Enumerate | map_maker/biomes.py:45 | the enumeration's keys are exactly the names |
| Biomes.EnumerateDistinct | map_maker/biomes.py:45 | with distinct names each name maps to its position and the map is injective |
| Biomes.Invert | map_maker/biomes.py:70 | the inverse's keys are the values, and it maps each value back to its key |
| Biomes.InvertEnumerate | map_maker/biomes.py:44-70 | enumerating and inverting distinct names gives maps that are exact inverses, keyed by the positions |
| Biomes.BiomeMap | map_maker/biomes.py:44-45 | `biome_map` has exactly the seven biome names as keys |
| Biomes.BiomeIds | map_maker/biomes.py:70 | `biome_ids` has keys 0..6, and id `i` names the biome at position `i` of `biome_names` |
| Biomes.BiomeIdsInvertBiomeMap | map_maker/biomes.py:44-70 | each name's id is its position in `biome_names`; `biome_ids` has keys 0..6 and is the exact inverse of `biome_map` both ways |
| Biomes.Classify | map_maker/biomes.py:47-68 | every id is in 0..6 and never beach; ice exactly when cold; water exactly when wet and not ice; swamp exactly on dry non-ice cells above the swamp threshold; desert exactly on the other dry non-ice cells below the desert threshold; the remaining cells are tropical forest exactly above the temperature median and temperate forest otherwise |
| Biomes.MaskedWrite | map_maker/biomes.py:61-68 | `a[mask] = v` writes `v` exactly where the mask holds |
| Biomes.AssignBiomes | map_maker/biomes.py:43-71 | the masked writes in the source's order leave every cell at its `Classify` id, and `biome_ids` is returned |
| Cities.Spacing | map_maker/cities.py:12 | spacing times `target_count` is the mean of width and height; it is positive exactly when width + height is |
| Cities.AllowedIffInterior | map_maker/cities.py:13 | a cell escapes the mask exactly when its centre is in `[spacing, width - spacing) x [spacing, height - spacing)` and it is not below the water line |
| Cities.NearProperties | map_maker/cities.py:25-26 | nearness is symmetric, needs a positive spacing, and then holds of a point and itself |
| Cities.ExcludedProperties | map_maker/cities.py:23-26 | with a positive spacing every chosen location is excluded; with no locations or a non-positive spacing nothing is |
| Cities.ExcludedExtend | map_maker/cities.py:23-26 | one more location excludes exactly the cells strictly within `spacing` of it |
| Cities.Score | map_maker/cities.py:13-26 | the score has one entry per cell |
| Cities.ChosenScoresNegInf | map_maker/cities.py:23-26 | with a positive spacing every chosen location scores -inf itself; with a non-positive spacing nothing is excluded |
| Cities.CityScore | map_maker/cities.py:11-27 | the vectorised writes and the loop over locations yield -inf exactly on masked cells (borders, below the water line) and cells near a chosen location, and proximity plus four times the flux elsewhere |
| Cities.SeedPopulations | map_maker/cities.py:31-36 | one population entry per cell |
| Cities.PickIsAllowed | map_maker/cities.py:33-34 | while some cell is allowed, the first best cell is off the mask and at least `spacing` from every earlier pick |
| Cities.PlaceSeeds | map_maker/cities.py:29-37 | exactly `count` picks, each the first maximum of the score against the picks before it; population 150 on picked cells and 0 elsewhere |
| Cities.Grown | map_maker/cities.py:49-52 | a cell pushed over 1000 ends at exactly 1000, otherwise gains 150 |
| Cities.Keep | map_maker/cities.py:51 | the kept neighbours are exactly the on-mesh slots above the water line |
| Cities.Drawn | map_maker/cities.py:47-52 | a draw above the water line grows that cell to `min(p + 150, 1000)`; a draw at or below it changes nothing; no other cell changes |
| Cities.Grow | map_maker/cities.py:41-55 | the population after a run of draws has one entry per cell |
| Cities.GrowBounds | map_maker/cities.py:41-55 | whatever the draws, cells at or below the water line keep their population, a cell within 1000 only grows and stays within 1000, and a cell above 1000 keeps its value or drops to 1000 |
| Cities.GrowAt | map_maker/cities.py:47-55 | one pass of the loop is exactly `Drawn`: the overflow computed after the clamp is 0, so the neighbours receive nothing; a draw of -1 lands on the last cell |
| Cities.GrowPopulation | map_maker/cities.py:41-55 | the final population is `Grow` over the draws used; the total was below the target before each of them; the loop stops when the total reaches the target or the draws run out; the bounds of `GrowBounds` hold |

## Left out

- Triangulation (`map_maker/mesh.py:21-34, 46`). The random point cloud, the Voronoi relaxation, `Delaunay` and `find_simplex` are scipy and numpy calls. The triangulation is an input value and the point locator an opaque function.
- Noise seeding, rendering and file output (`map_maker/elevation.py`, `map_maker/visualization.py` and the top-level scripts). These are I/O and foreign calls.
- `map_generator.py` is only pipeline wiring and is not part of this model.
- `temperature`, `precipitation` and `life_zones` in `map_maker/biomes.py` are not part of this model. `assign_biomes` takes the temperature, precipitation and water fields as values.
- The `Cities` class holds a list that `place_seeds` never uses, so it is not modelled.
- Floating point. Values are exact reals: no rounding and no NaN. The ±inf that the fill and city score use is modelled exactly.
- Erosion.ErosionRound: the carve amount `velocity * np.sqrt(flux)` is a parameter, any function of the field. The velocity recurrence (`map_maker/hydrology.py:54`) and the square root are not modelled, so the amount is not tied to `FlowFlux`. Only the `min(…, 0.05)` cap is.
- Hydrology.CalculateFlow: the velocity output is not modelled. The order is only required to have one visit per cell of the mesh, each to a cell, so it may repeat one cell and miss another (`VisitsCells`). The descending sort `np.argsort(...)[::-1]` is needed only by the downstream-growth lemmas, which assume it (`IsDescendingOrder`).
- Erosion.HydrolicErosion: `np.median` is a parameter function, and so is the sort order. The sort order is constrained only as `VisitsCells`, not as a descending permutation. `fuel` bounds each round's fill, as for `Hydrology.PlanchonDarbouxFill`.
- Hydrology.PlanchonDarbouxFill: the source loops until nothing changes, with no cap. The model runs at most `fuel` passes, and `settled` is false when the fuel runs out. The median is a parameter.
- Hydrology.PlanchonDarbouxFill: the drainage promise of the docstring is proved only for cells with a path of neighbours to an edge cell (`FillDrains`). Cells without one stay at +inf and do not drain (`DisconnectedPit`).
- Erosion.FinishErosion: on a field whose maximum is 0 the source writes a non-finite elevation and a NaN water line. The model reports `ZeroMaximum` and says nothing about those two fields.
- Hydrology.SmoothCoastLines: `np.median` is a parameter function.
- Biomes.AssignBiomes: the four percentiles are parameters, and ids are integers where the source stores floats.
- Cities.CityScore: the `water_proximity` diffusion is a parameter. It is a float iteration that also reads `-1` neighbours with wrap-around. The method requires `target_count > 0`; its only caller loops `count` times, so it is never called with zero. Distances are compared as squares, which is exact for reals.
- Cities.PlaceSeeds: `np.argmax` of an empty score raises, so the method requires a non-empty mesh whenever `count > 0`.
- Cities.GrowPopulation: the random draw (weighted choice, Cauchy distance, angle, point location) is replaced by the sequence of cells the draws land in, and the loop also stops when that runs out. The summary `print` is output and is left out.
- numpy aliasing. Fields hold values. `mesh.elevation -= …` updates the numpy array in place; no other reference to that array exists in the modelled core, so assigning a new value to the field is the same as updating it in place.
