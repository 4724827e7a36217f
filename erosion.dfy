/** The driver `hydrolic_erosion` of `map_maker/hydrology.py`: five rounds
    of fill, route and carve on the mesh, a final routing, then
    normalisation. */
module Erosion {
  import opened NumPy
  import opened Meshes
  import opened Hydrology

  /** The most one erosion round may lower a cell. */
  const ErosionCap: real := 0.05
  /** Fill, route and carve rounds of `hydrolic_erosion`. */
  const ErosionRounds: nat := 5

  /** `mesh.elevation -= np.minimum(rate, 0.05)`, where `rate` stands for
      `velocity * np.sqrt(flux)`. */
  function Carve(elevation: seq<real>, rate: seq<real>): (carved: seq<real>)
    requires |rate| == |elevation|
    ensures |carved| == |elevation|
  {
    seq(|elevation|, i requires 0 <= i < |elevation| =>
      elevation[i] - (if rate[i] < ErosionCap then rate[i] else ErosionCap))
  }

  /** Carving lowers a cell by at most 0.05, and never raises a cell whose
      carve amount is not negative. */
  lemma CarveBounds(elevation: seq<real>, rate: seq<real>)
    requires |rate| == |elevation|
    ensures var carved := Carve(elevation, rate);
      && (forall i :: 0 <= i < |carved| ==> carved[i] >= elevation[i] - ErosionCap)
      && (forall i :: 0 <= i < |carved| && rate[i] >= 0.0 ==> carved[i] <= elevation[i])
  {
  }

  /** The sort order `np.argsort(elevation)[::-1]` as the erosion code
      receives it: a function from a field to an order visiting its cells. */
  type OrderFn = f: seq<real> -> seq<nat> | forall e :: VisitsCells(f(e), |e|)
    witness (e: seq<real>) => seq(|e|, i requires 0 <= i < |e| => i as nat)

  /** The carve amount `velocity * np.sqrt(flux)` that `calculate_flow`
      yields on an elevation field, one entry per cell. The velocity
      recurrence and the square root are not modelled, so the amount is a
      parameter: any function of the field. */
  type RateFn = f: seq<real> -> seq<real> | forall e :: |f(e)| == |e|
    witness (e: seq<real>) => e

  /** One fill-route-carve round on the elevation field. The carve amount is
      computed on the unfilled elevation, so the filled field only feeds the
      water depth. */
  function ErosionRound(rate: RateFn, elevation: seq<real>): (next: seq<real>)
    ensures |next| == |elevation|
  {
    Carve(elevation, rate(elevation))
  }

  /** The elevation field after `k` rounds. */
  function Eroded(rate: RateFn, elevation: seq<real>, k: nat): (e: seq<real>)
    ensures |e| == |elevation|
  {
    if k == 0 then elevation else ErosionRound(rate, Eroded(rate, elevation, k - 1))
  }

  /** Each round lowers a cell by at most 0.05, so `k` rounds by at most `k * 0.05`. */
  lemma {:induction false} ErodedLowersAtMost(rate: RateFn, elevation: seq<real>, k: nat, i: nat)
    requires i < |elevation|
    ensures Eroded(rate, elevation, k)[i] >= elevation[i] - k as real * ErosionCap
  {
    if k > 0 {
      ErodedLowersAtMost(rate, elevation, k - 1, i);
      CarveBounds(Eroded(rate, elevation, k - 1), rate(Eroded(rate, elevation, k - 1)));
    }
  }

  /** `(elevation - elevation.min()) / elevation.max()`. The divisor is the
      maximum, not the range: the lowest cell lands on exactly 0, the highest
      on `(max - min) / max`, which is 1 only when the minimum is 0. */
  function Normalise(elevation: seq<real>): (r: seq<real>)
    requires |elevation| > 0 && MaxOf(elevation) != 0.0
    ensures |r| == |elevation|
  {
    Shifted(elevation, MinOf(elevation), MaxOf(elevation))
  }

  /** Every value shifted down by `lo` and divided by `d`. */
  function Shifted(elevation: seq<real>, lo: real, d: real): (r: seq<real>)
    requires d != 0.0
    ensures |r| == |elevation|
  {
    seq(|elevation|, i requires 0 <= i < |elevation| => (elevation[i] - lo) / d)
  }

  /** With a positive maximum every normalised value lies in
      [0, (max - min) / max]; the lowest cell lands on 0 and the highest on
      the upper end. */
  lemma NormaliseRange(elevation: seq<real>)
    requires |elevation| > 0 && MaxOf(elevation) > 0.0
    ensures var r, lo, hi := Normalise(elevation), MinOf(elevation), MaxOf(elevation);
      && (forall i :: 0 <= i < |r| ==> 0.0 <= r[i] <= (hi - lo) / hi)
      && (exists i :: 0 <= i < |r| && r[i] == 0.0)
      && (exists i :: 0 <= i < |r| && r[i] == (hi - lo) / hi)
  {
    MinOfAttained(elevation);
    MaxOfAttained(elevation);
    ShiftedWithin(elevation, MinOf(elevation), MaxOf(elevation));
  }

  /** With a negative maximum the division flips the field: every value
      lies in [(max - min) / max, 0], the lowest cell lands on 0 and the
      highest on the negative lower end. */
  lemma NormaliseNegativeMaximum(elevation: seq<real>)
    requires |elevation| > 0 && MaxOf(elevation) < 0.0
    ensures var r, lo, hi := Normalise(elevation), MinOf(elevation), MaxOf(elevation);
      && (forall i :: 0 <= i < |r| ==> (hi - lo) / hi <= r[i] <= 0.0)
      && (exists i :: 0 <= i < |r| && r[i] == 0.0)
      && (exists i :: 0 <= i < |r| && r[i] == (hi - lo) / hi)
  {
    var r, lo, hi := Normalise(elevation), MinOf(elevation), MaxOf(elevation);
    DivideByNegative(hi - lo, hi);
    forall i | 0 <= i < |r| ensures (hi - lo) / hi <= r[i] <= 0.0 {
      DivideMonotone(elevation[i] - lo, hi - lo, -hi);
      DivideByNegative(elevation[i] - lo, hi);
    }
    MinOfAttained(elevation);
    MaxOfAttained(elevation);
    var a :| 0 <= a < |elevation| && elevation[a] == lo;
    var b :| 0 <= b < |elevation| && elevation[b] == hi;
    assert r[a] == 0.0;
    assert r[b] == (hi - lo) / hi;
  }

  /** The field `[-2, -1]` normalises to `[0, -1]`: its highest cell ends
      below its lowest. */
  lemma NormaliseFlipExample()
    ensures Normalise([-2.0, -1.0]) == [0.0, -1.0]
  {
    var e := [-2.0, -1.0];
    assert e[1..] == [-1.0];
    assert MinOf(e) == -2.0;
    assert MaxOf(e) == -1.0;
  }

  lemma DivideByNegative(x: real, d: real)
    requires d < 0.0
    ensures x / d == -(x / -d)
  {
    var q := x / -d;
    assert q * -d == x;
    assert (-q) * d == x;
  }

  /** Values in [lo, hi], shifted by `lo` and divided by `hi > 0`, lie in
      [0, (hi - lo) / hi], and both ends are reached when `lo` and `hi` are. */
  lemma ShiftedWithin(elevation: seq<real>, lo: real, hi: real)
    requires hi > 0.0 && forall i :: 0 <= i < |elevation| ==> lo <= elevation[i] <= hi
    requires exists i :: 0 <= i < |elevation| && elevation[i] == lo
    requires exists i :: 0 <= i < |elevation| && elevation[i] == hi
    ensures var r := Shifted(elevation, lo, hi);
      && (forall i :: 0 <= i < |r| ==> 0.0 <= r[i] <= (hi - lo) / hi)
      && (exists i :: 0 <= i < |r| && r[i] == 0.0)
      && (exists i :: 0 <= i < |r| && r[i] == (hi - lo) / hi)
  {
    var r := Shifted(elevation, lo, hi);
    forall i | 0 <= i < |r| ensures 0.0 <= r[i] <= (hi - lo) / hi {
      DivideMonotone(elevation[i] - lo, hi - lo, hi);
    }
    var a :| 0 <= a < |elevation| && elevation[a] == lo;
    var b :| 0 <= b < |elevation| && elevation[b] == hi;
    assert r[a] == 0.0;
    assert r[b] == (hi - lo) / hi;
  }

  /** How `hydrolic_erosion` ends. `FillDidNotSettle`: a round's fill has
      not settled within `fuel` passes, where the source keeps looping
      (until it settles, or forever); `EmptyMesh` for `.min()` raising on an
      empty array; `ZeroMaximum` for the division by a zero maximum, which
      the source carries on with non-finite values. */
  datatype ErosionOutcome = Completed | FillDidNotSettle | EmptyMesh | ZeroMaximum

  /** `settling` holds exactly the fields on the mesh whose fill settles
      within `fuel` passes. */
  ghost predicate DecidesFill(neighbors: seq<seq<int>>, edge: seq<bool>, median: seq<real> -> real, fuel: nat,
                              settling: iset<seq<real>>)
    requires Topology(neighbors, edge)
  {
    forall e {:trigger Fill(neighbors, edge, e, median(e), fuel)} :: |e| == |neighbors| ==>
      (e in settling <==> Fill(neighbors, edge, e, median(e), fuel).Some?)
  }

  /** The fields whose fill settles. */
  ghost function SettlingFields(neighbors: seq<seq<int>>, edge: seq<bool>, median: seq<real> -> real, fuel: nat)
    : (settling: iset<seq<real>>)
    requires Topology(neighbors, edge)
    ensures DecidesFill(neighbors, edge, median, fuel, settling)
  {
    iset e | |e| == |neighbors| && Fill(neighbors, edge, e, median(e), fuel).Some?
  }

  /** The fields `k` rounds started from `elevation` begin with are all in
      `settling`: this one, and those the remaining `k - 1` rounds begin
      with from the field this round carves. */
  ghost predicate RoundsSettle(settling: iset<seq<real>>, rate: RateFn, elevation: seq<real>, k: nat)
    decreases k
  {
    k == 0 || (elevation in settling && RoundsSettle(settling, rate, ErosionRound(rate, elevation), k - 1))
  }

  /** Round `r` from the field one round carves is round `r + 1` from the
      field it started from. */
  lemma {:induction false} ErodedShift(rate: RateFn, elevation: seq<real>, r: nat)
    ensures Eroded(rate, ErosionRound(rate, elevation), r) == Eroded(rate, elevation, r + 1)
    decreases r
  {
    if r > 0 {
      ErodedShift(rate, elevation, r - 1);
    }
  }

  /** `RoundsSettle` says of every round `r < k` that the field that round
      starts from is in `settling`, and of nothing else. */
  lemma {:induction false} RoundsSettleAll(settling: iset<seq<real>>, rate: RateFn, elevation: seq<real>, k: nat)
    ensures RoundsSettle(settling, rate, elevation, k) ==>
      forall r :: 0 <= r < k ==> Eroded(rate, elevation, r) in settling
    ensures (forall r :: 0 <= r < k ==> Eroded(rate, elevation, r) in settling) ==>
      RoundsSettle(settling, rate, elevation, k)
    decreases k
  {
    if k > 0 {
      var next := ErosionRound(rate, elevation);
      RoundsSettleAll(settling, rate, next, k - 1);
      if RoundsSettle(settling, rate, elevation, k) {
        forall r | 0 <= r < k
          ensures Eroded(rate, elevation, r) in settling
        {
          if r > 0 {
            ErodedShift(rate, elevation, r - 1);
          }
        }
      }
      if forall r :: 0 <= r < k ==> Eroded(rate, elevation, r) in settling {
        assert Eroded(rate, elevation, 0) in settling;
        forall r | 0 <= r < k - 1
          ensures Eroded(rate, next, r) in settling
        {
          ErodedShift(rate, elevation, r);
        }
      }
    }
  }

  /** With the fields whose fill settles, the rounds settle exactly when the
      fill of every field a round starts from settles; so the run stops
      exactly when some round's fill runs out of passes. */
  lemma RoundsSettleFills(neighbors: seq<seq<int>>, edge: seq<bool>, median: seq<real> -> real, fuel: nat,
                          rate: RateFn, elevation: seq<real>, k: nat)
    requires Topology(neighbors, edge) && |elevation| == |neighbors|
    ensures RoundsSettle(SettlingFields(neighbors, edge, median, fuel), rate, elevation, k) ==>
      forall r :: 0 <= r < k ==>
        Fill(neighbors, edge, Eroded(rate, elevation, r), median(Eroded(rate, elevation, r)), fuel).Some?
    ensures !RoundsSettle(SettlingFields(neighbors, edge, median, fuel), rate, elevation, k) ==>
      exists r :: 0 <= r < k &&
        Fill(neighbors, edge, Eroded(rate, elevation, r), median(Eroded(rate, elevation, r)), fuel).None?
  {
    var settling := SettlingFields(neighbors, edge, median, fuel);
    RoundsSettleAll(settling, rate, elevation, k);
    forall r | 0 <= r < k
      ensures Eroded(rate, elevation, r) in settling <==>
        Fill(neighbors, edge, Eroded(rate, elevation, r), median(Eroded(rate, elevation, r)), fuel).Some?
    {
    }
  }

  /** One loop iteration of `hydrolic_erosion` on the mesh: fill, store the
      water depth, carve by the amount routed on the unfilled elevation. */
  method ErosionStep(mesh: Mesh, median: seq<real> -> real, rate: RateFn, fuel: nat)
    returns (settled: bool, filled: seq<Ext>)
    requires mesh.HasElevation()
    modifies mesh`water, mesh`elevation
    ensures mesh.HasElevation()
    ensures settled <==> Fill(mesh.neighbors.value, mesh.edgeRegions.value, old(mesh.elevation.value),
                              median(old(mesh.elevation.value)), fuel).Some?
    ensures settled ==>
      && mesh.elevation == Some(ErosionRound(rate, old(mesh.elevation.value)))
      && Fill(mesh.neighbors.value, mesh.edgeRegions.value, old(mesh.elevation.value),
              median(old(mesh.elevation.value)), fuel) == Some(filled)
      && WaterAfterRound(mesh.neighbors.value, mesh.edgeRegions.value, old(mesh.elevation.value),
                         median(old(mesh.elevation.value)), filled, mesh.water)
  {
    var neighbors, edge, elevation := mesh.neighbors.value, mesh.edgeRegions.value, mesh.elevation.value;
    var passes;
    filled, passes, settled := PlanchonDarbouxFill(neighbors, edge, elevation, median(elevation), fuel);
    if settled {
      FillSettles(neighbors, edge, elevation, median(elevation), fuel);
      mesh.water := Some(WaterDepth(filled, elevation));
      mesh.elevation := Some(Carve(elevation, rate(elevation)));
    }
  }

  /** The loop of `hydrolic_erosion`: five rounds of fill, route and carve,
      written as four rounds in the loop and the fifth after it, the same
      sequence of steps. `settling` holds the fields whose fill settles; the
      run completes exactly when the fills of all five rounds settle.
      `before` is the field the fifth round starts from and `lastFilled` its
      filled field. */
  method ErodeRounds(mesh: Mesh, median: seq<real> -> real, rate: RateFn, fuel: nat, ghost settling: iset<seq<real>>)
    returns (settled: bool, ghost before: seq<real>, ghost lastFilled: seq<Ext>)
    requires mesh.HasElevation()
    requires DecidesFill(mesh.neighbors.value, mesh.edgeRegions.value, median, fuel, settling)
    modifies mesh`water, mesh`elevation
    ensures mesh.HasElevation()
    ensures mesh.neighbors == old(mesh.neighbors) && mesh.edgeRegions == old(mesh.edgeRegions)
    ensures settled <==> RoundsSettle(settling, rate, old(mesh.elevation.value), ErosionRounds)
    ensures settled ==>
      && before == Eroded(rate, old(mesh.elevation.value), ErosionRounds - 1)
      && mesh.elevation.value == Eroded(rate, old(mesh.elevation.value), ErosionRounds)
      && Fill(mesh.neighbors.value, mesh.edgeRegions.value, before, median(before), fuel) == Some(lastFilled)
      && WaterAfterRound(mesh.neighbors.value, mesh.edgeRegions.value, before, median(before), lastFilled, mesh.water)
  {
    ghost var e0 := mesh.elevation.value;
    before := [];
    for round := 0 to ErosionRounds - 1
      invariant mesh.HasElevation()
      invariant mesh.elevation.value == Eroded(rate, e0, round)
      invariant RoundsSettle(settling, rate, e0, ErosionRounds) <==>
        RoundsSettle(settling, rate, mesh.elevation.value, ErosionRounds - round)
    {
      settled, lastFilled := ErosionStep(mesh, median, rate, fuel);
      if !settled {
        return;
      }
    }
    before := mesh.elevation.value;
    assert RoundsSettle(settling, rate, before, 1) <==> before in settling;
    settled, lastFilled := ErosionStep(mesh, median, rate, fuel);
    assert settled <==> before in settling;
  }

  /** The state the tail of `hydrolic_erosion` leaves from the carved field:
      the flux of a final routing is stored; an empty field raises before
      the elevation and water line are written; a field whose maximum is 0
      is divided by zero, which leaves those two fields non-finite, so
      nothing is said of them; otherwise the elevation is normalised and the
      water line is the median of the normalised field. */
  predicate ErosionFinished(neighbors: seq<seq<int>>, carved: seq<real>, order: seq<nat>, median: seq<real> -> real,
                            outcome: ErosionOutcome, waterFlux: Option<seq<real>>, elevation: Option<seq<real>>,
                            waterLine: Option<real>, waterLineBefore: Option<real>)
    requires ValidNeighbors(neighbors) && |carved| == |neighbors| && VisitsCells(order, |carved|)
  {
    && outcome != FillDidNotSettle
    && waterFlux == Some(FlowFlux(neighbors, carved, order))
    && (outcome == EmptyMesh <==> |carved| == 0)
    && (outcome == ZeroMaximum <==> |carved| > 0 && MaxOf(carved) == 0.0)
    && (outcome == Completed ==>
          && elevation == Some(Normalise(carved))
          && waterLine == Some(median(Normalise(carved))))
    && (outcome == EmptyMesh ==> elevation == Some(carved) && waterLine == waterLineBefore)
  }

  /** The tail of `hydrolic_erosion`: a final routing whose flux is stored,
      then the elevation is normalised and the water line set to its median. */
  method FinishErosion(mesh: Mesh, median: seq<real> -> real, order: seq<nat>)
    returns (outcome: ErosionOutcome)
    requires mesh.HasElevation()
    requires VisitsCells(order, |mesh.elevation.value|)
    modifies mesh`elevation, mesh`waterFlux, mesh`waterLine
    ensures ErosionFinished(mesh.neighbors.value, old(mesh.elevation.value), order, median, outcome,
                            mesh.waterFlux, mesh.elevation, mesh.waterLine, old(mesh.waterLine))
    ensures mesh.water == old(mesh.water)
  {
    var neighbors, elevation := mesh.neighbors.value, mesh.elevation.value;
    var flux, slope := CalculateFlow(neighbors, elevation, order);
    mesh.waterFlux := Some(flux);
    if |elevation| == 0 {
      return EmptyMesh;
    }
    if MaxOf(elevation) == 0.0 {
      return ZeroMaximum;
    }
    mesh.elevation := Some(Normalise(elevation));
    mesh.waterLine := Some(median(mesh.elevation.value));
    outcome := Completed;
  }

  /** `hydrolic_erosion`: five rounds of fill, route and carve, a final
      routing, then normalisation. Only the water, elevation, flux and water
      line fields of the mesh are written. `before` is the field the last
      round started from, `filled` its filled field (whose depth the water
      field holds) and `carved` the field after the last round. */
  method HydrolicErosion(mesh: Mesh, median: seq<real> -> real, descending: OrderFn,
                         rate: RateFn, fuel: nat)
    returns (outcome: ErosionOutcome, ghost before: seq<real>, ghost filled: seq<Ext>, ghost carved: seq<real>)
    requires mesh.HasElevation()
    modifies mesh`water, mesh`elevation, mesh`waterFlux, mesh`waterLine
    ensures outcome == FillDidNotSettle <==>
      !RoundsSettle(SettlingFields(mesh.neighbors.value, mesh.edgeRegions.value, median, fuel), rate,
                    old(mesh.elevation.value), ErosionRounds)
    ensures outcome != FillDidNotSettle ==>
      && before == Eroded(rate, old(mesh.elevation.value), ErosionRounds - 1)
      && carved == Eroded(rate, old(mesh.elevation.value), ErosionRounds)
    ensures outcome != FillDidNotSettle ==>
      && |before| == |carved| == |mesh.neighbors.value|
      && Fill(mesh.neighbors.value, mesh.edgeRegions.value, before, median(before), fuel) == Some(filled)
      && WaterAfterRound(mesh.neighbors.value, mesh.edgeRegions.value, before, median(before), filled, mesh.water)
      && ErosionFinished(mesh.neighbors.value, carved, descending(carved), median, outcome,
                         mesh.waterFlux, mesh.elevation, mesh.waterLine, old(mesh.waterLine))
  {
    var neighbors, edge := mesh.neighbors.value, mesh.edgeRegions.value;
    ghost var settling := SettlingFields(neighbors, edge, median, fuel);
    var settled;
    settled, before, filled := ErodeRounds(mesh, median, rate, fuel, settling);
    carved := mesh.elevation.value;
    if !settled {
      return FillDidNotSettle, before, filled, carved;
    }
    outcome := FinishErosion(mesh, median, descending(mesh.elevation.value));
  }
}
