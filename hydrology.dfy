/** The hydrology engine of `map_maker/hydrology.py`: Planchon-Darboux
    depression filling, steepest-descent flow routing with flux accumulation,
    and coast-line smoothing. The erosion driver is in `Erosion`. */
module Hydrology {
  import opened NumPy
  import opened Meshes

  /** The step `planchon_darboux_fill` adds above the lowest neighbour. */
  const Epsilon: real := 0.0001

  // ---------------------------------------------------------------------
  // Depression filling
  // ---------------------------------------------------------------------

  /** A filled field over a mesh whose non-edge cells have real neighbours. */
  predicate FillShape(neighbors: seq<seq<int>>, edge: seq<bool>, elevation: seq<real>, cur: seq<Ext>) {
    Topology(neighbors, edge) && |elevation| == |neighbors| && |cur| == |neighbors|
  }

  /** `corrected_elevation[neighbors].min(axis=1)` for one non-edge cell */
  function LowestNeighbour(cur: seq<Ext>, row: seq<int>): (low: Ext)
    requires |row| == 3 && forall k :: 0 <= k < 3 ==> 0 <= row[k] < |cur|
    ensures forall k :: 0 <= k < 3 ==> Le(low, cur[row[k]])
    ensures exists k :: 0 <= k < 3 && low == cur[row[k]]
  {
    Min(Min(cur[row[0]], cur[row[1]]), cur[row[2]])
  }

  /** What one pass writes into non-edge cell i: `max(elevation, lowest + eps)`
      when some neighbour is lower than the cell, otherwise the old value. */
  function RelaxedCell(neighbors: seq<seq<int>>, edge: seq<bool>, elevation: seq<real>, cur: seq<Ext>, i: nat): Ext
    requires FillShape(neighbors, edge, elevation, cur) && i < |cur| && !edge[i]
  {
    var low := LowestNeighbour(cur, neighbors[i]);
    if Lt(low, cur[i]) then Max(Fin(elevation[i]), Plus(low, Epsilon)) else cur[i]
  }

  /** One pass of the relaxation loop: every new value is computed from the
      previous pass's field, then all are written together; edge cells are
      never written. */
  function RelaxPass(neighbors: seq<seq<int>>, edge: seq<bool>, elevation: seq<real>, cur: seq<Ext>): (next: seq<Ext>)
    requires FillShape(neighbors, edge, elevation, cur)
    ensures |next| == |cur|
  {
    RelaxFrom(neighbors, edge, elevation, cur, 0)
  }

  /** The cells from `j` on of one pass. */
  function RelaxFrom(neighbors: seq<seq<int>>, edge: seq<bool>, elevation: seq<real>, cur: seq<Ext>, j: nat): (cells: seq<Ext>)
    requires FillShape(neighbors, edge, elevation, cur) && j <= |cur|
    ensures |cells| == |cur| - j
    decreases |cur| - j
  {
    if j == |cur| then []
    else [NewCell(neighbors, edge, elevation, cur, j)] + RelaxFrom(neighbors, edge, elevation, cur, j + 1)
  }

  /** What one pass leaves in cell i. */
  function NewCell(neighbors: seq<seq<int>>, edge: seq<bool>, elevation: seq<real>, cur: seq<Ext>, i: nat): Ext
    requires FillShape(neighbors, edge, elevation, cur) && i < |cur|
  {
    if edge[i] then cur[i] else RelaxedCell(neighbors, edge, elevation, cur, i)
  }

  lemma {:induction false} RelaxFromAt(neighbors: seq<seq<int>>, edge: seq<bool>, elevation: seq<real>, cur: seq<Ext>, j: nat)
    requires FillShape(neighbors, edge, elevation, cur) && j <= |cur|
    ensures forall i :: j <= i < |cur| ==> RelaxFrom(neighbors, edge, elevation, cur, j)[i - j] == NewCell(neighbors, edge, elevation, cur, i)
    decreases |cur| - j
  {
    if j < |cur| {
      RelaxFromAt(neighbors, edge, elevation, cur, j + 1);
    }
  }

  /** Cell by cell, a pass writes `NewCell`. */
  lemma RelaxPassAt(neighbors: seq<seq<int>>, edge: seq<bool>, elevation: seq<real>, cur: seq<Ext>)
    requires FillShape(neighbors, edge, elevation, cur)
    ensures forall i :: 0 <= i < |cur| ==> RelaxPass(neighbors, edge, elevation, cur)[i] == NewCell(neighbors, edge, elevation, cur, i)
  {
    RelaxFromAt(neighbors, edge, elevation, cur, 0);
  }

  /** What a pass does to each cell: an edge cell keeps its value; a
      non-edge cell with a neighbour strictly below it becomes the larger of
      its own elevation and that lowest neighbour plus 0.0001; any other
      cell keeps its value. */
  lemma RelaxPassCells(neighbors: seq<seq<int>>, edge: seq<bool>, elevation: seq<real>, cur: seq<Ext>)
    requires FillShape(neighbors, edge, elevation, cur)
    ensures forall i :: 0 <= i < |cur| && edge[i] ==> RelaxPass(neighbors, edge, elevation, cur)[i] == cur[i]
    ensures forall i :: 0 <= i < |cur| && !edge[i] ==>
      var low := LowestNeighbour(cur, neighbors[i]);
      && (Lt(low, cur[i]) ==> RelaxPass(neighbors, edge, elevation, cur)[i] == Max(Fin(elevation[i]), Plus(low, Epsilon)))
      && (!Lt(low, cur[i]) ==> RelaxPass(neighbors, edge, elevation, cur)[i] == cur[i])
  {
    RelaxPassAt(neighbors, edge, elevation, cur);
  }

  /** The field after `k` passes. */
  function Passes(neighbors: seq<seq<int>>, edge: seq<bool>, elevation: seq<real>, start: seq<Ext>, k: nat): (cur: seq<Ext>)
    requires FillShape(neighbors, edge, elevation, start)
    ensures |cur| == |start|
  {
    if k == 0 then start
    else RelaxPass(neighbors, edge, elevation, Passes(neighbors, edge, elevation, start, k - 1))
  }

  /** The field before the first pass: edge cells hold the median of all
      elevations, every other cell +inf. */
  function InitialFill(edge: seq<bool>, median: real): (init: seq<Ext>)
    ensures |init| == |edge|
  {
    seq(|edge|, i requires 0 <= i < |edge| => if edge[i] then Fin(median) else PosInf)
  }

  /** What every state of the fill satisfies: edge cells hold the median,
      every other cell is +inf or at least its own elevation. */
  predicate Filled(edge: seq<bool>, elevation: seq<real>, median: real, cur: seq<Ext>)
    requires |edge| == |elevation|
  {
    |cur| == |edge| && forall i :: 0 <= i < |cur| ==> FilledAt(edge, elevation, median, cur, i)
  }

  predicate FilledAt(edge: seq<bool>, elevation: seq<real>, median: real, cur: seq<Ext>, i: nat)
    requires |edge| == |elevation| == |cur| && i < |cur|
  {
    if edge[i] then cur[i] == Fin(median)
    else cur[i] == PosInf || (cur[i].Fin? && cur[i].v >= elevation[i])
  }

  /** The exit condition of the loop, cell by cell: every non-edge cell either
      has no neighbour below it or already holds `max(elevation, lowest + eps)`. */
  predicate Settled(neighbors: seq<seq<int>>, edge: seq<bool>, elevation: seq<real>, cur: seq<Ext>)
    requires FillShape(neighbors, edge, elevation, cur)
  {
    forall i :: 0 <= i < |cur| ==> SettledAt(neighbors, edge, elevation, cur, i)
  }

  predicate SettledAt(neighbors: seq<seq<int>>, edge: seq<bool>, elevation: seq<real>, cur: seq<Ext>, i: nat)
    requires FillShape(neighbors, edge, elevation, cur) && i < |cur|
  {
    !edge[i] ==>
      var low := LowestNeighbour(cur, neighbors[i]);
      !Lt(low, cur[i]) || cur[i] == Max(Fin(elevation[i]), Plus(low, Epsilon))
  }

  lemma InitialIsFilled(edge: seq<bool>, elevation: seq<real>, median: real)
    requires |edge| == |elevation|
    ensures Filled(edge, elevation, median, InitialFill(edge, median))
  {
  }

  /** A pass never writes an edge cell and never takes a cell below its own
      elevation: every write is `max(elevation, ...)`. */
  lemma RelaxPassKeepsFilled(neighbors: seq<seq<int>>, edge: seq<bool>, elevation: seq<real>, median: real, cur: seq<Ext>)
    requires FillShape(neighbors, edge, elevation, cur)
    requires Filled(edge, elevation, median, cur)
    ensures Filled(edge, elevation, median, RelaxPass(neighbors, edge, elevation, cur))
    ensures forall i :: 0 <= i < |cur| && edge[i] ==> RelaxPass(neighbors, edge, elevation, cur)[i] == cur[i]
  {
    var next := RelaxPass(neighbors, edge, elevation, cur);
    RelaxPassAt(neighbors, edge, elevation, cur);
    forall i | 0 <= i < |cur| ensures FilledAt(edge, elevation, median, next, i) {
      assert FilledAt(edge, elevation, median, cur, i);
      if !edge[i] {
        var low := LowestNeighbour(cur, neighbors[i]);
        if Lt(low, cur[i]) {
          var k :| 0 <= k < 3 && low == cur[neighbors[i][k]];
          assert FilledAt(edge, elevation, median, cur, neighbors[i][k]);
          assert low.Fin?;
        }
      }
    }
  }

  /** The loop stops exactly when a pass changes nothing. */
  lemma {:induction false} SettledIffUnchanged(neighbors: seq<seq<int>>, edge: seq<bool>, elevation: seq<real>, cur: seq<Ext>)
    requires FillShape(neighbors, edge, elevation, cur)
    ensures Settled(neighbors, edge, elevation, cur) <==> RelaxPass(neighbors, edge, elevation, cur) == cur
  {
    var next := RelaxPass(neighbors, edge, elevation, cur);
    RelaxPassAt(neighbors, edge, elevation, cur);
    if Settled(neighbors, edge, elevation, cur) {
      forall i | 0 <= i < |cur| ensures next[i] == cur[i] {
        assert SettledAt(neighbors, edge, elevation, cur, i);
      }
      assert next == cur;
    } else {
      var i :| 0 <= i < |cur| && !SettledAt(neighbors, edge, elevation, cur, i);
      assert next[i] != cur[i];
    }
  }

  /** At a fixed point, a non-edge cell with a lower neighbour stands at least
      eps above it, and a cell raised above its own elevation stands exactly
      eps above its lowest neighbour. */
  lemma SettledDrains(neighbors: seq<seq<int>>, edge: seq<bool>, elevation: seq<real>, median: real, cur: seq<Ext>, i: nat)
    requires FillShape(neighbors, edge, elevation, cur)
    requires Filled(edge, elevation, median, cur)
    requires Settled(neighbors, edge, elevation, cur)
    requires i < |cur| && !edge[i]
    ensures var low := LowestNeighbour(cur, neighbors[i]);
      Lt(low, cur[i]) ==> low.Fin? && cur[i].Fin? && cur[i].v >= low.v + Epsilon
    ensures var low := LowestNeighbour(cur, neighbors[i]);
      Lt(low, cur[i]) && cur[i].v > elevation[i] ==> cur[i].v == low.v + Epsilon
  {
    assert SettledAt(neighbors, edge, elevation, cur, i);
    var low := LowestNeighbour(cur, neighbors[i]);
    if Lt(low, cur[i]) {
      var k :| 0 <= k < 3 && low == cur[neighbors[i][k]];
      assert FilledAt(edge, elevation, median, cur, neighbors[i][k]);
      assert low.Fin?;
    }
  }

  /** Some neighbour in `row` holds a value strictly below `v`. */
  predicate HasLowerNeighbour(cur: seq<Ext>, row: seq<int>, v: Ext)
    requires |row| == 3 && forall k :: 0 <= k < 3 ==> 0 <= row[k] < |cur|
  {
    exists k :: 0 <= k < 3 && Lt(cur[row[k]], v)
  }

  /** Every non-edge cell that holds a finite value has a strictly lower
      neighbour: the drainage `planchon_darboux_fill` promises, for the
      cells the fill has reached. */
  predicate Descends(neighbors: seq<seq<int>>, edge: seq<bool>, elevation: seq<real>, cur: seq<Ext>)
    requires FillShape(neighbors, edge, elevation, cur)
  {
    forall i :: 0 <= i < |cur| && !edge[i] && cur[i].Fin? ==> HasLowerNeighbour(cur, neighbors[i], cur[i])
  }

  /** A pass moves a finite cell up by less than eps and keeps it finite. */
  lemma PassRaisesLessThanEpsilon(neighbors: seq<seq<int>>, edge: seq<bool>, elevation: seq<real>, median: real,
                                  cur: seq<Ext>, j: nat)
    requires FillShape(neighbors, edge, elevation, cur) && Filled(edge, elevation, median, cur)
    requires j < |cur| && cur[j].Fin?
    ensures var next := RelaxPass(neighbors, edge, elevation, cur);
      next[j].Fin? && next[j].v < cur[j].v + Epsilon
  {
    RelaxPassAt(neighbors, edge, elevation, cur);
    assert FilledAt(edge, elevation, median, cur, j);
    if !edge[j] {
      var low := LowestNeighbour(cur, neighbors[j]);
      if Lt(low, cur[j]) {
        var k :| 0 <= k < 3 && low == cur[neighbors[j][k]];
        assert FilledAt(edge, elevation, median, cur, neighbors[j][k]);
      }
    }
  }

  /** Starting from a filled field in which every finite cell drains, a pass
      keeps that so: a cell written from its lowest neighbour ends at least
      eps above that neighbour's old value, while the neighbour itself rises
      by less than eps. */
  lemma RelaxPassKeepsDescends(neighbors: seq<seq<int>>, edge: seq<bool>, elevation: seq<real>, median: real, cur: seq<Ext>)
    requires FillShape(neighbors, edge, elevation, cur) && Filled(edge, elevation, median, cur)
    requires Descends(neighbors, edge, elevation, cur)
    ensures Descends(neighbors, edge, elevation, RelaxPass(neighbors, edge, elevation, cur))
  {
    var next := RelaxPass(neighbors, edge, elevation, cur);
    RelaxPassAt(neighbors, edge, elevation, cur);
    forall i | 0 <= i < |next| && !edge[i] && next[i].Fin?
      ensures HasLowerNeighbour(next, neighbors[i], next[i])
    {
      var row := neighbors[i];
      var low := LowestNeighbour(cur, row);
      if cur[i].Fin? {
        var k :| 0 <= k < 3 && Lt(cur[row[k]], cur[i]);
        assert Le(low, cur[row[k]]);
      }
      assert Lt(low, cur[i]);
      var k :| 0 <= k < 3 && low == cur[row[k]];
      assert FilledAt(edge, elevation, median, cur, row[k]);
      PassRaisesLessThanEpsilon(neighbors, edge, elevation, median, cur, row[k]);
      assert Lt(next[row[k]], next[i]);
    }
  }

  /** At a fixed point, a non-edge cell still at +inf sees only +inf
      neighbours: the fill never reached it from any side. */
  lemma SettledInfiniteClosed(neighbors: seq<seq<int>>, edge: seq<bool>, elevation: seq<real>, cur: seq<Ext>, i: nat, j: int)
    requires FillShape(neighbors, edge, elevation, cur) && Settled(neighbors, edge, elevation, cur)
    requires i < |cur| && !edge[i] && j in neighbors[i]
    ensures 0 <= j < |cur| && (cur[i] == PosInf ==> cur[j] == PosInf)
  {
    assert SettledAt(neighbors, edge, elevation, cur, i);
    var k :| 0 <= k < 3 && neighbors[i][k] == j;
    assert Le(LowestNeighbour(cur, neighbors[i]), cur[j]);
  }

  /** `path` leads from cell `path[0]` through neighbour slots to an edge cell. */
  predicate PathToEdge(neighbors: seq<seq<int>>, edge: seq<bool>, path: seq<nat>)
    requires Topology(neighbors, edge)
  {
    && |path| > 0
    && (forall s :: 0 <= s < |path| ==> path[s] < |neighbors|)
    && edge[path[|path| - 1]]
    && (forall s :: 0 <= s < |path| - 1 ==> path[s + 1] in neighbors[path[s]])
  }

  /** At a fixed point every cell on a path to an edge cell holds a finite value. */
  lemma {:induction false} ReachableIsFinite(neighbors: seq<seq<int>>, edge: seq<bool>, elevation: seq<real>, median: real,
                                             cur: seq<Ext>, path: seq<nat>, s: nat)
    requires FillShape(neighbors, edge, elevation, cur) && Filled(edge, elevation, median, cur)
    requires Settled(neighbors, edge, elevation, cur)
    requires PathToEdge(neighbors, edge, path) && s < |path|
    ensures cur[path[s]].Fin?
    decreases |path| - s
  {
    assert FilledAt(edge, elevation, median, cur, path[s]);
    if s < |path| - 1 {
      ReachableIsFinite(neighbors, edge, elevation, median, cur, path, s + 1);
      if !edge[path[s]] {
        SettledInfiniteClosed(neighbors, edge, elevation, cur, path[s], path[s + 1]);
      }
    }
  }

  /** The outcome of running passes from `cur` with at most `fuel` of them:
      the first field a pass leaves unchanged, or `None` when the fuel runs
      out first. */
  function FillFrom(neighbors: seq<seq<int>>, edge: seq<bool>, elevation: seq<real>, cur: seq<Ext>, fuel: nat): (r: Option<seq<Ext>>)
    requires FillShape(neighbors, edge, elevation, cur)
    ensures r.Some? ==> |r.value| == |cur| && Settled(neighbors, edge, elevation, r.value)
    decreases fuel
  {
    if fuel == 0 then None
    else if Settled(neighbors, edge, elevation, cur) then Some(cur)
    else FillFrom(neighbors, edge, elevation, RelaxPass(neighbors, edge, elevation, cur), fuel - 1)
  }

  /** The field `planchon_darboux_fill` returns, within `fuel` passes. */
  function Fill(neighbors: seq<seq<int>>, edge: seq<bool>, elevation: seq<real>, median: real, fuel: nat): (r: Option<seq<Ext>>)
    requires Topology(neighbors, edge) && |elevation| == |neighbors|
  {
    FillFrom(neighbors, edge, elevation, InitialFill(edge, median), fuel)
  }

  /** Passes keep a field filled, so what a fill returns is filled; and
      likewise for a field in which every finite cell drains. */
  lemma {:induction false} FillFromFilled(neighbors: seq<seq<int>>, edge: seq<bool>, elevation: seq<real>, median: real,
                                          cur: seq<Ext>, fuel: nat)
    requires FillShape(neighbors, edge, elevation, cur) && Filled(edge, elevation, median, cur)
    requires FillFrom(neighbors, edge, elevation, cur, fuel).Some?
    ensures Filled(edge, elevation, median, FillFrom(neighbors, edge, elevation, cur, fuel).value)
    decreases fuel
  {
    if !Settled(neighbors, edge, elevation, cur) {
      var next := RelaxPass(neighbors, edge, elevation, cur);
      assert FillFrom(neighbors, edge, elevation, cur, fuel) == FillFrom(neighbors, edge, elevation, next, fuel - 1);
      RelaxPassKeepsFilled(neighbors, edge, elevation, median, cur);
      FillFromFilled(neighbors, edge, elevation, median, next, fuel - 1);
    }
  }

  lemma {:induction false} FillFromDescends(neighbors: seq<seq<int>>, edge: seq<bool>, elevation: seq<real>, median: real,
                                            cur: seq<Ext>, fuel: nat)
    requires FillShape(neighbors, edge, elevation, cur) && Filled(edge, elevation, median, cur)
    requires Descends(neighbors, edge, elevation, cur)
    requires FillFrom(neighbors, edge, elevation, cur, fuel).Some?
    ensures Descends(neighbors, edge, elevation, FillFrom(neighbors, edge, elevation, cur, fuel).value)
    decreases fuel
  {
    if !Settled(neighbors, edge, elevation, cur) {
      var next := RelaxPass(neighbors, edge, elevation, cur);
      assert FillFrom(neighbors, edge, elevation, cur, fuel) == FillFrom(neighbors, edge, elevation, next, fuel - 1);
      RelaxPassKeepsFilled(neighbors, edge, elevation, median, cur);
      RelaxPassKeepsDescends(neighbors, edge, elevation, median, cur);
      FillFromDescends(neighbors, edge, elevation, median, next, fuel - 1);
    }
  }

  /** One step of the fill: stop when a pass changes nothing, otherwise go on
      from the new field with one pass less. */
  lemma FillFromStep(neighbors: seq<seq<int>>, edge: seq<bool>, elevation: seq<real>, cur: seq<Ext>, fuel: nat)
    requires FillShape(neighbors, edge, elevation, cur) && fuel > 0
    ensures var next := RelaxPass(neighbors, edge, elevation, cur);
      FillFrom(neighbors, edge, elevation, cur, fuel)
        == if next == cur then Some(cur) else FillFrom(neighbors, edge, elevation, next, fuel - 1)
  {
    SettledIffUnchanged(neighbors, edge, elevation, cur);
  }

  /** What a fill returns is a settled, filled field of the mesh's length in
      which every finite non-edge cell has a strictly lower neighbour. */
  lemma FillSettles(neighbors: seq<seq<int>>, edge: seq<bool>, elevation: seq<real>, median: real, fuel: nat)
    requires Topology(neighbors, edge) && |elevation| == |neighbors|
    requires Fill(neighbors, edge, elevation, median, fuel).Some?
    ensures var r := Fill(neighbors, edge, elevation, median, fuel).value;
      |r| == |neighbors| && Filled(edge, elevation, median, r) && Settled(neighbors, edge, elevation, r)
    ensures Descends(neighbors, edge, elevation, Fill(neighbors, edge, elevation, median, fuel).value)
  {
    InitialIsFilled(edge, elevation, median);
    FillFromFilled(neighbors, edge, elevation, median, InitialFill(edge, median), fuel);
    FillFromDescends(neighbors, edge, elevation, median, InitialFill(edge, median), fuel);
  }

  /** The promise of `planchon_darboux_fill`: in the field a fill returns,
      every non-edge cell from which a path of neighbours leads to an edge
      cell has a neighbour strictly lower than itself. */
  lemma FillDrains(neighbors: seq<seq<int>>, edge: seq<bool>, elevation: seq<real>, median: real, fuel: nat, path: seq<nat>)
    requires Topology(neighbors, edge) && |elevation| == |neighbors|
    requires Fill(neighbors, edge, elevation, median, fuel).Some?
    requires PathToEdge(neighbors, edge, path) && !edge[path[0]]
    ensures var r := Fill(neighbors, edge, elevation, median, fuel).value;
      r[path[0]].Fin? && HasLowerNeighbour(r, neighbors[path[0]], r[path[0]])
  {
    FillSettles(neighbors, edge, elevation, median, fuel);
    var r := Fill(neighbors, edge, elevation, median, fuel).value;
    ReachableIsFinite(neighbors, edge, elevation, median, r, path, 0);
  }

  /** Without a path to an edge cell the promise fails: two non-edge cells
      that only neighbour each other stay at +inf, and the fill settles at
      once with neither of them having a lower neighbour. */
  lemma DisconnectedPit()
    ensures var neighbors, edge, elevation := [[-1, -1, -1], [2, 2, 2], [1, 1, 1]], [true, false, false], [0.0, 0.0, 0.0];
      && Topology(neighbors, edge)
      && Fill(neighbors, edge, elevation, 0.0, 1) == Some([Fin(0.0), PosInf, PosInf])
      && !HasLowerNeighbour([Fin(0.0), PosInf, PosInf], neighbors[1], PosInf)
  {
    var neighbors, edge, elevation := [[-1, -1, -1], [2, 2, 2], [1, 1, 1]], [true, false, false], [0.0, 0.0, 0.0];
    var init := InitialFill(edge, 0.0);
    assert init == [Fin(0.0), PosInf, PosInf];
    assert SettledAt(neighbors, edge, elevation, init, 1);
    assert SettledAt(neighbors, edge, elevation, init, 2);
    assert SettledAt(neighbors, edge, elevation, init, 0);
    assert Settled(neighbors, edge, elevation, init);
  }

  /** `planchon_darboux_fill`. The source loops until a pass changes nothing
      and has no iteration cap; here at most `fuel` passes run, and
      `settled` is false when the fuel ran out first. */
  method PlanchonDarbouxFill(neighbors: seq<seq<int>>, edge: seq<bool>, elevation: seq<real>, median: real, fuel: nat)
    returns (filled: seq<Ext>, passes: nat, settled: bool)
    requires Topology(neighbors, edge) && |elevation| == |neighbors|
    ensures |filled| == |neighbors|
    ensures filled == Passes(neighbors, edge, elevation, InitialFill(edge, median), passes)
    ensures Filled(edge, elevation, median, filled)
    ensures Descends(neighbors, edge, elevation, filled)
    ensures passes <= fuel && (!settled ==> passes == fuel)
    ensures settled ==> Settled(neighbors, edge, elevation, filled)
    ensures settled <==> Fill(neighbors, edge, elevation, median, fuel).Some?
    ensures settled ==> filled == Fill(neighbors, edge, elevation, median, fuel).value
    ensures forall p :: 0 <= p < passes ==>
      Passes(neighbors, edge, elevation, InitialFill(edge, median), p + 1)
        != Passes(neighbors, edge, elevation, InitialFill(edge, median), p)
  {
    ghost var start := InitialFill(edge, median);
    filled := InitialFill(edge, median);
    InitialIsFilled(edge, elevation, median);
    passes := 0;
    settled := false;
    var remaining := fuel;
    while !settled && remaining > 0
      invariant |filled| == |neighbors|
      invariant filled == Passes(neighbors, edge, elevation, start, passes)
      invariant Filled(edge, elevation, median, filled)
      invariant Descends(neighbors, edge, elevation, filled)
      invariant passes <= fuel
      invariant !settled ==> passes + remaining == fuel
      invariant settled ==> RelaxPass(neighbors, edge, elevation, filled) == filled
      invariant settled ==> Fill(neighbors, edge, elevation, median, fuel) == Some(filled)
      invariant !settled ==> Fill(neighbors, edge, elevation, median, fuel) == FillFrom(neighbors, edge, elevation, filled, remaining)
      invariant forall p :: 0 <= p < passes ==>
        Passes(neighbors, edge, elevation, start, p + 1) != Passes(neighbors, edge, elevation, start, p)
      decreases remaining, !settled
    {
      var next := RelaxPass(neighbors, edge, elevation, filled);
      FillFromStep(neighbors, edge, elevation, filled, remaining);
      remaining := remaining - 1;
      if next != filled {
        RelaxPassKeepsFilled(neighbors, edge, elevation, median, filled);
        RelaxPassKeepsDescends(neighbors, edge, elevation, median, filled);
        filled := next;
        passes := passes + 1;
      } else {
        settled := true;
      }
    }
    if settled {
      SettledIffUnchanged(neighbors, edge, elevation, filled);
    }
  }

  /** `planchon_darboux_fill(mesh) - mesh.elevation` */
  function WaterDepth(filled: seq<Ext>, elevation: seq<real>): (water: seq<Ext>)
    requires |filled| == |elevation|
    ensures |water| == |elevation|
  {
    seq(|filled|, i requires 0 <= i < |filled| => Plus(filled[i], -elevation[i]))
  }

  /** Water is never negative away from the edge; an edge cell holds the
      median minus its own elevation, which is negative for edge cells above
      the median. */
  lemma WaterOfFilled(edge: seq<bool>, elevation: seq<real>, median: real, filled: seq<Ext>)
    requires |edge| == |elevation| && Filled(edge, elevation, median, filled)
    ensures forall i :: 0 <= i < |filled| && !edge[i] ==> Le(Fin(0.0), WaterDepth(filled, elevation)[i])
    ensures forall i :: 0 <= i < |filled| && edge[i] ==>
      WaterDepth(filled, elevation)[i] == Fin(median - elevation[i])
  {
    forall i | 0 <= i < |filled|
      ensures !edge[i] ==> Le(Fin(0.0), WaterDepth(filled, elevation)[i])
      ensures edge[i] ==> WaterDepth(filled, elevation)[i] == Fin(median - elevation[i])
    {
      assert FilledAt(edge, elevation, median, filled, i);
    }
  }

  /** What the water field holds after a round on `before`: a settled,
      filled field minus `before`. */
  predicate WaterAfterRound(neighbors: seq<seq<int>>, edge: seq<bool>, before: seq<real>, median: real,
                            filled: seq<Ext>, water: Option<seq<Ext>>)
    requires Topology(neighbors, edge) && |before| == |neighbors|
  {
    && |filled| == |before|
    && Filled(edge, before, median, filled)
    && Settled(neighbors, edge, before, filled)
    && water == Some(WaterDepth(filled, before))
  }

  // ---------------------------------------------------------------------
  // Flow routing
  // ---------------------------------------------------------------------

  /** `np.append(mesh.elevation, [np.inf])`: slot -1 reads the +inf sentinel. */
  function WithSentinel(elevation: seq<real>): (ext: seq<Ext>)
    ensures |ext| == |elevation| + 1
  {
    seq(|elevation|, i requires 0 <= i < |elevation| => Fin(elevation[i])) + [PosInf]
  }

  /** `elevation[mesh.neighbors[i]]` for one row. */
  function SlotHeights(elevation: seq<real>, row: seq<int>): (h: seq<Ext>)
    requires |row| == 3 && forall k :: 0 <= k < 3 ==> -1 <= row[k] < |elevation|
    ensures |h| == 3
    ensures forall k :: 0 <= k < 3 ==> h[k] == (if row[k] == -1 then PosInf else Fin(elevation[row[k]]))
  {
    var ext := WithSentinel(elevation);
    seq(3, k requires 0 <= k < 3 => At(ext, row[k]))
  }

  /** The slot `np.argmin` picks: the first slot of minimal height. An
      off-mesh slot is chosen only when all three slots are off-mesh. */
  function DownhillSlot(elevation: seq<real>, row: seq<int>): (k: nat)
    requires |row| == 3 && forall j :: 0 <= j < 3 ==> -1 <= row[j] < |elevation|
    ensures k < 3
  {
    ArgMin(SlotHeights(elevation, row))
  }

  /** The chosen slot is the first of minimal height; it is off-mesh only
      when all three are, and otherwise no on-mesh neighbour is lower. */
  lemma DownhillSlotIsLowest(elevation: seq<real>, row: seq<int>)
    requires |row| == 3 && forall j :: 0 <= j < 3 ==> -1 <= row[j] < |elevation|
    ensures var k, h := DownhillSlot(elevation, row), SlotHeights(elevation, row);
      && (forall j :: 0 <= j < 3 ==> Le(h[k], h[j]))
      && (forall j :: 0 <= j < k ==> Lt(h[k], h[j]))
      && (row[k] == -1 ==> forall j :: 0 <= j < 3 ==> row[j] == -1)
      && (row[k] != -1 ==> forall j :: 0 <= j < 3 && row[j] != -1 ==> elevation[row[k]] <= elevation[row[j]])
  {
  }

  /** `all_lowest[i]`: the downhill neighbour of a cell, or -1. */
  function Downhill(elevation: seq<real>, row: seq<int>): (d: int)
    requires |row| == 3 && forall j :: 0 <= j < 3 ==> -1 <= row[j] < |elevation|
    ensures -1 <= d < |elevation|
  {
    row[DownhillSlot(elevation, row)]
  }

  /** `all_lowest` for every cell. */
  function AllLowest(elevation: seq<real>, neighbors: seq<seq<int>>): (lowest: seq<int>)
    requires ValidNeighbors(neighbors) && |elevation| == |neighbors|
    ensures |lowest| == |neighbors|
    ensures Routes(lowest)
  {
    seq(|neighbors|, i requires 0 <= i < |neighbors| => Downhill(elevation, neighbors[i]))
  }

  /** Every cell routes to a cell or to -1 (the sentinel entry `n`). */
  predicate Routes(lowest: seq<int>) {
    forall i :: 0 <= i < |lowest| ==> -1 <= lowest[i] < |lowest|
  }

  /** `np.argsort(elevation)[::-1]`: every cell exactly once, in non-increasing
      elevation order (ties in whatever order the sort leaves them). */
  predicate IsDescendingOrder(order: seq<nat>, elevation: seq<real>) {
    && |order| == |elevation|
    && (forall t :: 0 <= t < |order| ==> order[t] < |elevation|)
    && (forall c :: 0 <= c < |elevation| ==> c in order)
    && (forall s, t :: 0 <= s < t < |order| ==> order[s] != order[t])
    && (forall s, t :: 0 <= s < t < |order| ==> elevation[order[s]] >= elevation[order[t]])
  }

  /** An order of `n` visits, each to a cell of the mesh: all the flux
      accumulation needs of `order`. A cell may be visited twice and another
      not at all; `IsDescendingOrder` is the stronger promise of the sort. */
  predicate VisitsCells(order: seq<nat>, n: nat) {
    |order| == n && forall t :: 0 <= t < |order| ==> order[t] < n
  }

  /** The flux entry `flux[lowest]` names: -1 is the sentinel entry `n`. */
  function Target(lowest: int, n: nat): (t: nat)
    requires -1 <= lowest < n
    ensures t <= n
  {
    Resolve(lowest, n + 1)
  }

  /** The flux array after the first `t` cells of `order` were visited; each
      visit adds `flux[i] + 1` to the entry of the cell's downhill target. */
  function FluxAfter(lowest: seq<int>, order: seq<nat>, t: nat): (flux: seq<nat>)
    requires Routes(lowest) && (forall s :: 0 <= s < |order| ==> order[s] < |lowest|) && t <= |order|
    ensures |flux| == |lowest| + 1
  {
    if t == 0 then seq(|lowest| + 1, _ => 0)
    else
      var before := FluxAfter(lowest, order, t - 1);
      var i := order[t - 1];
      var target := Target(lowest[i], |lowest|);
      before[target := before[target] + before[i] + 1]
  }

  /** The accumulation loop of `calculate_flow`, on the flux array. */
  method AccumulateFlux(lowest: seq<int>, order: seq<nat>) returns (flux: seq<nat>)
    requires Routes(lowest) && forall s :: 0 <= s < |order| ==> order[s] < |lowest|
    ensures flux == FluxAfter(lowest, order, |order|)
  {
    var acc := new nat[|lowest| + 1](_ => 0);
    for t := 0 to |order|
      invariant acc[..] == FluxAfter(lowest, order, t)
    {
      var i := order[t];
      var target := Target(lowest[i], |lowest|);
      acc[target] := acc[target] + acc[i] + 1;
    }
    flux := acc[..];
  }

  /** A visit changes exactly one entry: the target's, by `flux[i] + 1`. */
  lemma VisitAddsToTarget(lowest: seq<int>, order: seq<nat>, t: nat)
    requires Routes(lowest) && (forall s :: 0 <= s < |order| ==> order[s] < |lowest|) && t < |order|
    ensures var before, after := FluxAfter(lowest, order, t), FluxAfter(lowest, order, t + 1);
      var target := Target(lowest[order[t]], |lowest|);
      && after[target] == before[target] + before[order[t]] + 1
      && forall j :: 0 <= j < |after| && j != target ==> after[j] == before[j]
  {
  }

  /** Flux never decreases while the loop runs. */
  lemma {:induction false} FluxGrows(lowest: seq<int>, order: seq<nat>, t: nat, u: nat)
    requires Routes(lowest) && (forall s :: 0 <= s < |order| ==> order[s] < |lowest|)
    requires t <= u <= |order|
    ensures forall j :: 0 <= j <= |lowest| ==> FluxAfter(lowest, order, t)[j] <= FluxAfter(lowest, order, u)[j]
  {
    if t < u {
      FluxGrows(lowest, order, t, u - 1);
    }
  }

  /** The target of the `t`-th visited cell ends with at least one more unit
      of flux than that cell had when it was visited. */
  lemma DownstreamGain(lowest: seq<int>, order: seq<nat>, t: nat)
    requires Routes(lowest) && (forall s :: 0 <= s < |order| ==> order[s] < |lowest|) && t < |order|
    ensures FluxAfter(lowest, order, |order|)[Target(lowest[order[t]], |lowest|)]
      >= FluxAfter(lowest, order, t)[order[t]] + 1
  {
    FluxGrows(lowest, order, t + 1, |order|);
  }

  /** After cell `i` was visited, no later visit writes to it when every cell
      draining into `i` stands strictly higher than `i`. */
  lemma {:induction false} FluxFrozenAfterVisit(elevation: seq<real>, lowest: seq<int>, order: seq<nat>, p: nat, u: nat)
    requires |lowest| == |elevation| && Routes(lowest) && IsDescendingOrder(order, elevation)
    requires p < u <= |order|
    requires forall m :: 0 <= m < |lowest| && lowest[m] == order[p] ==> elevation[m] > elevation[order[p]]
    ensures FluxAfter(lowest, order, u)[order[p]] == FluxAfter(lowest, order, p)[order[p]]
  {
    var i := order[p];
    if u - 1 > p {
      FluxFrozenAfterVisit(elevation, lowest, order, p, u - 1);
      var m := order[u - 1];
      assert m != i;
      assert elevation[m] <= elevation[i];
      assert lowest[m] != i;
    } else {
      assert lowest[i] != i;
    }
  }

  /** Flux grows downstream: when every cell draining into `i` stands strictly
      higher than `i` (as on a depression-free surface), the cell `i` drains
      into ends with at least one more unit of flux than `i` itself. */
  lemma FluxGrowsDownstream(elevation: seq<real>, lowest: seq<int>, order: seq<nat>, i: nat)
    requires |lowest| == |elevation| && Routes(lowest) && IsDescendingOrder(order, elevation)
    requires i < |lowest|
    requires forall m :: 0 <= m < |lowest| && lowest[m] == i ==> elevation[m] > elevation[i]
    ensures FluxAfter(lowest, order, |order|)[Target(lowest[i], |lowest|)]
      >= FluxAfter(lowest, order, |order|)[i] + 1
  {
    assert i in order;
    var p :| 0 <= p < |order| && order[p] == i;
    FluxFrozenAfterVisit(elevation, lowest, order, p, |order|);
    DownstreamGain(lowest, order, p);
  }

  /** On a non-empty mesh some entry has received at least one unit, so the
      normalisation divides by at least 1. */
  lemma FluxMaxAtLeastOne(lowest: seq<int>, order: seq<nat>)
    requires Routes(lowest) && (forall s :: 0 <= s < |order| ==> order[s] < |lowest|) && |order| > 0
    ensures MaxNat(FluxAfter(lowest, order, |order|)) >= 1
  {
    DownstreamGain(lowest, order, 0);
    PositiveCountBoundsMax(FluxAfter(lowest, order, |order|), Target(lowest[order[0]], |lowest|));
  }

  lemma PositiveCountBoundsMax(counts: seq<nat>, j: nat)
    requires j < |counts| && counts[j] >= 1
    ensures MaxNat(counts) >= 1
  {
  }

  /** `(flux / flux.max())[:-1]`: the sentinel entry takes part in the maximum
      and is then dropped. */
  function Normalised(flux: seq<nat>): (r: seq<real>)
    requires |flux| > 0 && (|flux| == 1 || MaxNat(flux) > 0)
    ensures |r| == |flux| - 1
  {
    var m := MaxNat(flux);
    seq(|flux| - 1, j requires 0 <= j < |flux| - 1 => flux[j] as real / m as real)
  }

  /** Every normalised value lies in [0, 1]. */
  lemma NormalisedWithin(flux: seq<nat>)
    requires |flux| > 0 && (|flux| == 1 || MaxNat(flux) > 0)
    ensures forall j :: 0 <= j < |flux| - 1 ==> 0.0 <= Normalised(flux)[j] <= 1.0
  {
    if |flux| > 1 {
      ScaledWithin(flux, MaxNat(flux), Normalised(flux));
    }
  }

  /** Counts divided by a bound `m` on all of them lie in [0, 1]. */
  lemma ScaledWithin(flux: seq<nat>, m: nat, r: seq<real>)
    requires m > 0 && |r| <= |flux| && forall j :: 0 <= j < |flux| ==> flux[j] <= m
    requires forall j :: 0 <= j < |r| ==> r[j] == flux[j] as real / m as real
    ensures forall j :: 0 <= j < |r| ==> 0.0 <= r[j] <= 1.0
  {
  }

  /** Normalisation keeps the order of the counts: more flux, larger value. */
  lemma NormalisedMonotone(flux: seq<nat>, j: nat, k: nat)
    requires |flux| > 0 && (|flux| == 1 || MaxNat(flux) > 0)
    requires j < |flux| - 1 && k < |flux| - 1 && flux[j] <= flux[k]
    ensures Normalised(flux)[j] <= Normalised(flux)[k]
  {
    DivideMonotone(flux[j] as real, flux[k] as real, MaxNat(flux) as real);
  }

  /** The raw flux counts of `calculate_flow`, sentinel entry included: on a
      non-empty mesh some entry has at least one unit. */
  function FluxCounts(neighbors: seq<seq<int>>, elevation: seq<real>, order: seq<nat>): (counts: seq<nat>)
    requires ValidNeighbors(neighbors) && |elevation| == |neighbors| && VisitsCells(order, |elevation|)
    ensures |counts| == |elevation| + 1
    ensures |elevation| > 0 ==> MaxNat(counts) >= 1
  {
    var lowest := AllLowest(elevation, neighbors);
    if |order| > 0 then FluxMaxAtLeastOne(lowest, order); FluxAfter(lowest, order, |order|)
    else FluxAfter(lowest, order, |order|)
  }

  /** The flux `calculate_flow` reports for an elevation field. */
  function FlowFlux(neighbors: seq<seq<int>>, elevation: seq<real>, order: seq<nat>): (flux: seq<real>)
    requires ValidNeighbors(neighbors) && |elevation| == |neighbors| && VisitsCells(order, |elevation|)
    ensures |flux| == |elevation|
  {
    Normalised(FluxCounts(neighbors, elevation, order))
  }

  /** With cells visited from the highest down, the reported flux grows
      downstream: when every cell draining into `i` stands strictly higher
      than `i`, the cell `i` drains into reports strictly more flux. */
  lemma FlowFluxGrowsDownstream(neighbors: seq<seq<int>>, elevation: seq<real>, order: seq<nat>, i: nat)
    requires ValidNeighbors(neighbors) && |elevation| == |neighbors| && IsDescendingOrder(order, elevation)
    requires i < |elevation| && AllLowest(elevation, neighbors)[i] != -1
    requires forall m :: 0 <= m < |elevation| && AllLowest(elevation, neighbors)[m] == i ==> elevation[m] > elevation[i]
    ensures FlowFlux(neighbors, elevation, order)[AllLowest(elevation, neighbors)[i]] > FlowFlux(neighbors, elevation, order)[i]
  {
    var lowest := AllLowest(elevation, neighbors);
    FluxGrowsDownstream(elevation, lowest, order, i);
    var counts := FluxCounts(neighbors, elevation, order);
    DivideStrict(counts[i] as real, counts[lowest[i]] as real, MaxNat(counts) as real);
  }

  lemma DivideStrict(x: real, y: real, d: real)
    requires d > 0.0 && x < y
    ensures x / d < y / d
  {
  }

  /** `calculate_flow`: routes on the given elevation, returns the normalised
      flux and the slope to the downhill cell. The slope is computed for all
      cells and then cut by `[:-1]`, so it is one entry shorter than the mesh.
      The velocity output is not modelled. */
  method CalculateFlow(neighbors: seq<seq<int>>, elevation: seq<real>, order: seq<nat>)
    returns (flux: seq<real>, slope: seq<real>)
    requires ValidNeighbors(neighbors) && |elevation| == |neighbors|
    requires VisitsCells(order, |elevation|)
    ensures flux == FlowFlux(neighbors, elevation, order)
    ensures |flux| == |elevation| && forall j :: 0 <= j < |flux| ==> 0.0 <= flux[j] <= 1.0
    ensures |slope| == if |elevation| == 0 then 0 else |elevation| - 1
    ensures forall i :: 0 <= i < |slope| ==>
      (exists k :: 0 <= k < 3 && neighbors[i][k] != -1) ==>
        && (forall k :: 0 <= k < 3 && neighbors[i][k] != -1 ==> slope[i] >= elevation[i] - elevation[neighbors[i][k]])
        && (exists k :: 0 <= k < 3 && neighbors[i][k] != -1 && slope[i] == elevation[i] - elevation[neighbors[i][k]])
  {
    var lowest := AllLowest(elevation, neighbors);
    var counts := AccumulateFlux(lowest, order);
    assert counts == FluxCounts(neighbors, elevation, order);
    flux := Normalised(counts);
    NormalisedWithin(counts);
    var n := |elevation|;
    var full := seq(n, i requires 0 <= i < n => elevation[i] - At(elevation, lowest[i]));
    slope := if n == 0 then [] else full[..n - 1];
    forall i | 0 <= i < |slope| && exists k :: 0 <= k < 3 && neighbors[i][k] != -1
      ensures lowest[i] != -1 && slope[i] == elevation[i] - elevation[lowest[i]]
    {
      DownhillSlotIsLowest(elevation, neighbors[i]);
    }
  }

  /** Dividing by a positive number keeps order and sign. */
  lemma DivideMonotone(x: real, y: real, d: real)
    requires d > 0.0 && 0.0 <= x <= y
    ensures 0.0 <= x / d <= y / d
  {
  }

  // ---------------------------------------------------------------------
  // Coast-line smoothing
  // ---------------------------------------------------------------------

  /** `elevation[[x for x in mesh.neighbors[i] if x != -1]]`: each value is
      the value of a cell the row names. */
  function OnMeshNeighbours(cur: seq<real>, row: seq<int>): (ne: seq<real>)
    requires forall k :: 0 <= k < |row| ==> -1 <= row[k] < |cur|
    ensures |ne| <= |row|
    ensures forall j :: 0 <= j < |ne| ==> exists k :: 0 <= k < |row| && row[k] != -1 && ne[j] == cur[row[k]]
  {
    if row == [] then []
    else
      var rest := OnMeshNeighbours(cur, row[1..]);
      assert forall j :: 0 <= j < |rest| ==> exists k :: 0 <= k < |row| && row[k] != -1 && rest[j] == cur[row[k]] by {
        forall j | 0 <= j < |rest| ensures exists k :: 0 <= k < |row| && row[k] != -1 && rest[j] == cur[row[k]] {
          var k' :| 0 <= k' < |row[1..]| && row[1..][k'] != -1 && rest[j] == cur[row[1..][k']];
          assert row[k' + 1] == row[1..][k'];
        }
      }
      if row[0] == -1 then rest else [cur[row[0]]] + rest
  }

  /** The list keeps one value per on-mesh slot: as many values as the
      row has entries that are not -1. */
  lemma {:induction false} OnMeshNeighboursCount(cur: seq<real>, row: seq<int>)
    requires forall k :: 0 <= k < |row| ==> -1 <= row[k] < |cur|
    ensures |OnMeshNeighbours(cur, row)| == |row| - multiset(row)[-1]
    decreases |row|
  {
    if row != [] {
      OnMeshNeighboursCount(cur, row[1..]);
      assert row == [row[0]] + row[1..];
      assert multiset(row) == multiset{row[0]} + multiset(row[1..]);
    }
  }

  /** No on-mesh slot is dropped: the value of every slot that is not -1
      is in the list. */
  lemma {:induction false} OnMeshNeighboursComplete(cur: seq<real>, row: seq<int>, k: int)
    requires forall k :: 0 <= k < |row| ==> -1 <= row[k] < |cur|
    requires 0 <= k < |row| && row[k] != -1
    ensures exists j :: 0 <= j < |OnMeshNeighbours(cur, row)| && OnMeshNeighbours(cur, row)[j] == cur[row[k]]
    decreases |row|
  {
    var ne := OnMeshNeighbours(cur, row);
    if k == 0 {
      assert ne[0] == cur[row[0]];
    } else {
      var rest := OnMeshNeighbours(cur, row[1..]);
      assert row[1..][k - 1] == row[k];
      OnMeshNeighboursComplete(cur, row[1..], k - 1);
      var j :| 0 <= j < |rest| && rest[j] == cur[row[k]];
      if row[0] == -1 {
        assert ne[j] == cur[row[k]];
      } else {
        assert ne[j + 1] == cur[row[k]];
      }
    }
  }

  /** How many of the values lie strictly above the water line. */
  function CountAbove(ne: seq<real>, waterLine: real): (c: nat)
    ensures c <= |ne|
  {
    if ne == [] then 0 else (if ne[0] > waterLine then 1 else 0) + CountAbove(ne[1..], waterLine)
  }

  /** The value cell `e` takes in a smoothing step: the mean of itself and its
      on-mesh neighbours when it is land with fewer than half its neighbours
      on land, or sea with more than half on land; otherwise unchanged. With
      no on-mesh neighbour the source's mean is NaN and nothing changes. */
  function SmoothedValue(ne: seq<real>, waterLine: real, e: real): (v: real)
    ensures v == e || v == (e + Sum(ne)) / (|ne| + 1) as real
    ensures e == waterLine || |ne| == 0 ==> v == e
    ensures e > waterLine && 2 * CountAbove(ne, waterLine) < |ne| ==> v == (e + Sum(ne)) / (|ne| + 1) as real
    ensures e < waterLine && 2 * CountAbove(ne, waterLine) > |ne| ==> v == (e + Sum(ne)) / (|ne| + 1) as real
    ensures (!(e > waterLine && 2 * CountAbove(ne, waterLine) < |ne|) &&
             !(e < waterLine && 2 * CountAbove(ne, waterLine) > |ne|)) ==> v == e
  {
    if |ne| == 0 then e
    else if e > waterLine && 2 * CountAbove(ne, waterLine) < |ne| then (e + Sum(ne)) / (|ne| + 1) as real
    else if e < waterLine && 2 * CountAbove(ne, waterLine) > |ne| then (e + Sum(ne)) / (|ne| + 1) as real
    else e
  }

  /** The field after cells `0 .. k-1` of one sweep were visited in order;
      each visit reads the values already written in this sweep. */
  function SweepPrefix(neighbors: seq<seq<int>>, waterLine: real, cur: seq<real>, k: nat): (r: seq<real>)
    requires ValidNeighbors(neighbors) && |cur| == |neighbors| && k <= |cur|
    ensures |r| == |cur|
  {
    if k == 0 then cur
    else
      var p := SweepPrefix(neighbors, waterLine, cur, k - 1);
      p[k - 1 := SmoothedValue(OnMeshNeighbours(p, neighbors[k - 1]), waterLine, p[k - 1])]
  }

  function Sweep(neighbors: seq<seq<int>>, waterLine: real, cur: seq<real>): (r: seq<real>)
    requires ValidNeighbors(neighbors) && |cur| == |neighbors|
    ensures |r| == |cur|
  {
    SweepPrefix(neighbors, waterLine, cur, |cur|)
  }

  /** A cell exactly at the water line is never changed by a sweep. */
  lemma {:induction false} SweepKeepsWaterLine(neighbors: seq<seq<int>>, waterLine: real, cur: seq<real>, k: nat, i: nat)
    requires ValidNeighbors(neighbors) && |cur| == |neighbors| && k <= |cur|
    requires i < |cur| && cur[i] == waterLine
    ensures SweepPrefix(neighbors, waterLine, cur, k)[i] == waterLine
  {
    if k > 0 {
      SweepKeepsWaterLine(neighbors, waterLine, cur, k - 1, i);
    }
  }

  /** A whole sweep leaves every cell that sits exactly at the water line
      where it is. */
  lemma SweepFixesWaterLine(neighbors: seq<seq<int>>, waterLine: real, cur: seq<real>)
    requires ValidNeighbors(neighbors) && |cur| == |neighbors|
    ensures forall i :: 0 <= i < |cur| && cur[i] == waterLine ==> Sweep(neighbors, waterLine, cur)[i] == waterLine
  {
    forall i | 0 <= i < |cur| && cur[i] == waterLine
      ensures Sweep(neighbors, waterLine, cur)[i] == waterLine
    {
      SweepKeepsWaterLine(neighbors, waterLine, cur, |cur|, i);
    }
  }

  /** A smoothed value is a mean of values in [lo, hi], so it stays there. */
  lemma SmoothedValueWithin(ne: seq<real>, waterLine: real, e: real, lo: real, hi: real)
    requires lo <= e <= hi && forall j :: 0 <= j < |ne| ==> lo <= ne[j] <= hi
    ensures lo <= SmoothedValue(ne, waterLine, e) <= hi
  {
    if |ne| > 0 {
      SumBounds(ne, lo, hi);
      var n := |ne| as real;
      assert lo * (n + 1.0) == n * lo + lo && hi * (n + 1.0) == n * hi + hi;
      MeanWithin(e + Sum(ne), n + 1.0, lo, hi);
    }
  }

  lemma MeanWithin(s: real, d: real, lo: real, hi: real)
    requires d > 0.0 && lo * d <= s <= hi * d
    ensures lo <= s / d <= hi
  {
  }

  /** A sweep keeps every cell within the range [lo, hi] of the field it starts from. */
  lemma {:induction false} SweepPrefixWithin(neighbors: seq<seq<int>>, waterLine: real, cur: seq<real>, k: nat, lo: real, hi: real)
    requires ValidNeighbors(neighbors) && |cur| == |neighbors| && k <= |cur|
    requires forall j :: 0 <= j < |cur| ==> lo <= cur[j] <= hi
    ensures forall j :: 0 <= j < |cur| ==> lo <= SweepPrefix(neighbors, waterLine, cur, k)[j] <= hi
  {
    if k > 0 {
      SweepPrefixWithin(neighbors, waterLine, cur, k - 1, lo, hi);
      var p := SweepPrefix(neighbors, waterLine, cur, k - 1);
      var ne := OnMeshNeighbours(p, neighbors[k - 1]);
      SmoothedValueWithin(ne, waterLine, p[k - 1], lo, hi);
    }
  }

  /** `smooth_coast_lines`: three sweeps over a copy of `mesh.elevation`, which
      itself is not written (the method has no frame). */
  method SmoothCoastLines(mesh: Mesh, median: seq<real> -> real) returns (smoothed: seq<real>)
    requires mesh.neighbors.Some? && ValidNeighbors(mesh.neighbors.value)
    requires mesh.elevation.Some? && |mesh.elevation.value| == |mesh.neighbors.value|
    ensures |smoothed| == |mesh.elevation.value|
    ensures var e, nb, wl := mesh.elevation.value, mesh.neighbors.value, median(mesh.elevation.value);
      smoothed == Sweep(nb, wl, Sweep(nb, wl, Sweep(nb, wl, e)))
    ensures forall i :: 0 <= i < |smoothed| && mesh.elevation.value[i] == median(mesh.elevation.value) ==>
      smoothed[i] == mesh.elevation.value[i]
  {
    var neighbors := mesh.neighbors.value;
    var waterLine := median(mesh.elevation.value);
    var elevation := mesh.elevation.value;
    var a := new real[|elevation|](i requires 0 <= i < |elevation| => elevation[i]);
    ghost var swept := elevation;
    for pass := 0 to 3
      invariant a[..] == swept && |swept| == |neighbors|
      invariant swept == if pass == 0 then elevation
                         else if pass == 1 then Sweep(neighbors, waterLine, elevation)
                         else if pass == 2 then Sweep(neighbors, waterLine, Sweep(neighbors, waterLine, elevation))
                         else Sweep(neighbors, waterLine, Sweep(neighbors, waterLine, Sweep(neighbors, waterLine, elevation)))
      invariant forall i :: 0 <= i < |elevation| && elevation[i] == waterLine ==> swept[i] == waterLine
    {
      ghost var start := a[..];
      for i := 0 to a.Length
        invariant a[..] == SweepPrefix(neighbors, waterLine, start, i)
      {
        var e := a[i];
        a[i] := SmoothedValue(OnMeshNeighbours(a[..], neighbors[i]), waterLine, e);
      }
      forall j | 0 <= j < |elevation| && elevation[j] == waterLine
        ensures a[..][j] == waterLine
      {
        SweepKeepsWaterLine(neighbors, waterLine, start, |start|, j);
      }
      swept := a[..];
    }
    smoothed := a[..];
  }
}
