/** Seed placement of `map_maker/cities.py`: a score per cell that rules out
    the border, the water and the surroundings of cities already placed, a
    greedy loop that picks the best cell `count` times, and the capped
    population growth step of `grow_population`. */
module Cities {
  import opened NumPy
  import opened Meshes

  /** The population a new seed starts with. */
  const SeedPopulation: real := 150.0
  /** What one growth step adds to a cell. */
  const GrowthStep: real := 150.0
  /** The most people one cell may hold. */
  const PopulationCap: real := 1000.0

  /** The mesh fields `city_score` reads. */
  datatype Terrain = Terrain(
    width: real,
    height: real,
    centers: seq<Point>,
    elevation: seq<real>,
    waterLine: real,
    waterFlux: seq<real>)
  {
    predicate Valid() {
      |centers| == |elevation| && |waterFlux| == |elevation|
    }
  }

  /** The mesh has been through `hydrolic_erosion`, so everything
      `city_score` reads is present, one entry per cell. */
  predicate ReadyForCities(mesh: Mesh)
    reads mesh`width, mesh`height, mesh`centers, mesh`elevation, mesh`waterLine, mesh`waterFlux
  {
    && mesh.width.Some? && mesh.height.Some? && mesh.centers.Some? && mesh.elevation.Some?
    && mesh.waterLine.Some? && mesh.waterFlux.Some?
    && |mesh.centers.value| == |mesh.elevation.value| == |mesh.waterFlux.value|
  }

  function TerrainOf(mesh: Mesh): (t: Terrain)
    reads mesh`width, mesh`height, mesh`centers, mesh`elevation, mesh`waterLine, mesh`waterFlux
    requires ReadyForCities(mesh)
    ensures t.Valid()
  {
    Terrain(mesh.width.value, mesh.height.value, mesh.centers.value, mesh.elevation.value,
            mesh.waterLine.value, mesh.waterFlux.value)
  }

  /** `np.mean([width, height]) / target_count` */
  function Spacing(t: Terrain, targetCount: nat): (spacing: real)
    requires targetCount > 0
    ensures spacing * targetCount as real == (t.width + t.height) / 2.0
    ensures spacing > 0.0 <==> t.width + t.height > 0.0
  {
    (t.width + t.height) / 2.0 / targetCount as real
  }

  /** The mask of `city_score`: too close to the left, right, bottom or top
      border, or under water. Only the upper borders use `>=`. */
  predicate OffLimits(t: Terrain, spacing: real, i: nat)
    requires t.Valid() && i < |t.elevation|
  {
    var c := t.centers[i];
    || c.x < spacing
    || t.elevation[i] < t.waterLine
    || c.x >= t.width - spacing
    || c.y >= t.height - spacing
    || c.y < spacing
  }

  /** A cell escapes the mask exactly when its centre lies in the inner
      rectangle `[spacing, width - spacing) x [spacing, height - spacing)`
      and its elevation is not below the water line. */
  lemma AllowedIffInterior(t: Terrain, spacing: real, i: nat)
    requires t.Valid() && i < |t.elevation|
    ensures !OffLimits(t, spacing, i) <==>
      && spacing <= t.centers[i].x < t.width - spacing
      && spacing <= t.centers[i].y < t.height - spacing
      && t.elevation[i] >= t.waterLine
    ensures !OffLimits(t, spacing, i) ==> 2.0 * spacing < t.width && 2.0 * spacing < t.height
  {
  }

  /** `np.sqrt(dx**2 + dy**2) < spacing`, with the square root squared
      away: a distance is never negative, so nothing is near when the
      spacing is not positive. */
  predicate Near(p: Point, q: Point, spacing: real) {
    spacing > 0.0 && (p.x - q.x) * (p.x - q.x) + (p.y - q.y) * (p.y - q.y) < spacing * spacing
  }

  /** Nearness is symmetric, needs a positive spacing, and then holds of a
      point and itself. */
  lemma NearProperties(p: Point, q: Point, spacing: real)
    ensures Near(p, q, spacing) <==> Near(q, p, spacing)
    ensures Near(p, q, spacing) ==> spacing > 0.0
    ensures spacing > 0.0 ==> Near(p, p, spacing)
  {
  }

  /** Some chosen location lies within `spacing` of cell `i`. */
  predicate Excluded(t: Terrain, locations: seq<nat>, spacing: real, i: nat)
    requires t.Valid() && i < |t.elevation|
    requires forall k :: 0 <= k < |locations| ==> locations[k] < |t.elevation|
  {
    exists k :: 0 <= k < |locations| && Near(t.centers[locations[k]], t.centers[i], spacing)
  }

  /** With a positive spacing every chosen location excludes itself, and
      with no locations or a non-positive spacing nothing is excluded. */
  lemma ExcludedProperties(t: Terrain, locations: seq<nat>, spacing: real, i: nat)
    requires t.Valid() && i < |t.elevation|
    requires forall k :: 0 <= k < |locations| ==> locations[k] < |t.elevation|
    ensures spacing > 0.0 && i in locations ==> Excluded(t, locations, spacing, i)
    ensures (locations == [] || spacing <= 0.0) ==> !Excluded(t, locations, spacing, i)
  {
    if spacing > 0.0 && i in locations {
      var k :| 0 <= k < |locations| && locations[k] == i;
      NearProperties(t.centers[i], t.centers[i], spacing);
    }
  }

  /** Adding one more location to the prefix adds exactly the cells near it. */
  lemma ExcludedExtend(t: Terrain, locations: seq<nat>, spacing: real, k: nat, i: nat)
    requires t.Valid() && i < |t.elevation| && k < |locations|
    requires forall m :: 0 <= m < |locations| ==> locations[m] < |t.elevation|
    ensures Excluded(t, locations[..k + 1], spacing, i) <==>
      Excluded(t, locations[..k], spacing, i) || Near(t.centers[locations[k]], t.centers[i], spacing)
  {
  }

  /** The score `city_score` returns, cell by cell: minus infinity where the
      mask or a chosen location rules the cell out, otherwise the water
      proximity plus four times the water flux. */
  function Score(t: Terrain, proximity: seq<real>, locations: seq<nat>, targetCount: nat): (score: seq<Ext>)
    requires t.Valid() && |proximity| == |t.elevation| && targetCount > 0
    requires forall k :: 0 <= k < |locations| ==> locations[k] < |t.elevation|
    ensures |score| == |t.elevation|
  {
    var spacing := Spacing(t, targetCount);
    seq(|t.elevation|, i requires 0 <= i < |t.elevation| =>
      if OffLimits(t, spacing, i) || Excluded(t, locations, spacing, i) then NegInf
      else Fin(proximity[i] + t.waterFlux[i] * 4.0))
  }

  /** A chosen location rules itself out as soon as the spacing is positive;
      with a zero or negative spacing the exclusion never fires. */
  lemma ChosenScoresNegInf(t: Terrain, proximity: seq<real>, locations: seq<nat>, targetCount: nat)
    requires t.Valid() && |proximity| == |t.elevation| && targetCount > 0
    requires forall k :: 0 <= k < |locations| ==> locations[k] < |t.elevation|
    ensures Spacing(t, targetCount) > 0.0 ==>
      forall k :: 0 <= k < |locations| ==> Score(t, proximity, locations, targetCount)[locations[k]] == NegInf
    ensures Spacing(t, targetCount) <= 0.0 ==>
      forall i :: 0 <= i < |t.elevation| ==> !Excluded(t, locations, Spacing(t, targetCount), i)
  {
  }

  /** `city_score`: the mask is written as minus infinity, the proximity and
      four times the flux are added (minus infinity absorbs them), then
      every cell near a chosen location is overwritten with minus infinity.
      The water proximity diffusion is the parameter `proximity`. */
  method CityScore(t: Terrain, proximity: seq<real>, locations: seq<nat>, targetCount: nat)
    returns (score: seq<Ext>)
    requires t.Valid() && |proximity| == |t.elevation| && targetCount > 0
    requires forall k :: 0 <= k < |locations| ==> locations[k] < |t.elevation|
    ensures score == Score(t, proximity, locations, targetCount)
  {
    var n := |t.elevation|;
    var spacing := Spacing(t, targetCount);
    var mask := seq(n, i requires 0 <= i < n => OffLimits(t, spacing, i));
    var a := new Ext[n](_ => Fin(0.0));
    forall i | 0 <= i < n && mask[i] {
      a[i] := NegInf;
    }
    forall i | 0 <= i < n {
      a[i] := Plus(a[i], proximity[i]);
    }
    forall i | 0 <= i < n {
      a[i] := Plus(a[i], t.waterFlux[i] * 4.0);
    }
    assert forall i :: 0 <= i < n ==> !Excluded(t, locations[..0], spacing, i);
    for k := 0 to |locations|
      invariant forall i :: 0 <= i < n ==>
        a[i] == if mask[i] || Excluded(t, locations[..k], spacing, i) then NegInf
                else Fin(proximity[i] + t.waterFlux[i] * 4.0)
    {
      var c := t.centers[locations[k]];
      forall i | 0 <= i < n && Near(c, t.centers[i], spacing) {
        a[i] := NegInf;
      }
      forall i | 0 <= i < n {
        ExcludedExtend(t, locations, spacing, k, i);
      }
    }
    assert locations[..|locations|] == locations;
    score := a[..];
  }

  /** The cells `place_seeds` picks and their populations: 150 on every
      picked cell, 0 elsewhere. */
  function SeedPopulations(n: nat, locations: seq<nat>): (population: seq<real>)
    ensures |population| == n
  {
    seq(n, j requires 0 <= j < n => if j in locations then SeedPopulation else 0.0)
  }

  /** Whenever some cell is still allowed, the first best cell is allowed
      too: it is off the mask and at least `spacing` from every earlier
      pick. */
  lemma PickIsAllowed(t: Terrain, proximity: seq<real>, locations: seq<nat>, targetCount: nat, j: nat)
    requires t.Valid() && |proximity| == |t.elevation| && targetCount > 0
    requires forall k :: 0 <= k < |locations| ==> locations[k] < |t.elevation|
    requires j < |t.elevation|
    requires !OffLimits(t, Spacing(t, targetCount), j) && !Excluded(t, locations, Spacing(t, targetCount), j)
    ensures var pick := ArgMax(Score(t, proximity, locations, targetCount));
      && !OffLimits(t, Spacing(t, targetCount), pick)
      && forall k :: 0 <= k < |locations| ==> !Near(t.centers[locations[k]], t.centers[pick], Spacing(t, targetCount))
  {
    var s := Score(t, proximity, locations, targetCount);
    var pick := ArgMax(s);
    assert s[j].Fin? && Le(s[j], s[pick]);
    assert s[pick] != NegInf;
  }

  /** `place_seeds`: population reset to zero, then `count` rounds each
      scoring the mesh against the picks so far and picking the first cell
      of maximal score. */
  method PlaceSeeds(mesh: Mesh, count: nat, proximity: seq<real>) returns (locations: seq<nat>)
    requires ReadyForCities(mesh) && |proximity| == |mesh.elevation.value|
    requires count > 0 ==> |mesh.elevation.value| > 0
    modifies mesh`population
    ensures |locations| == count
    ensures forall k :: 0 <= k < count ==>
      && (forall m :: 0 <= m < k ==> locations[m] < |mesh.elevation.value|)
      && locations[k] == ArgMax(Score(TerrainOf(mesh), proximity, locations[..k], count))
    ensures mesh.population == Some(SeedPopulations(|mesh.elevation.value|, locations))
  {
    var t := TerrainOf(mesh);
    var n := |t.elevation|;
    locations := [];
    mesh.population := Some(seq(n, _ => 0.0));
    assert mesh.population.value == SeedPopulations(n, locations);
    for round := 0 to count
      invariant |locations| == round
      invariant forall k :: 0 <= k < round ==> locations[k] < n
      invariant forall k :: 0 <= k < round ==>
        locations[k] == ArgMax(Score(t, proximity, locations[..k], count))
      invariant mesh.population == Some(SeedPopulations(n, locations))
    {
      var score := CityScore(t, proximity, locations, count);
      var i := ArgMax(score);
      assert forall k :: 0 <= k < round ==> (locations + [i])[..k] == locations[..k];
      assert (locations + [i])[..round] == locations;
      ghost var previous := locations;
      locations := locations + [i];
      mesh.population := Some(mesh.population.value[i := SeedPopulation]);
      forall j | 0 <= j < n
        ensures mesh.population.value[j] == SeedPopulations(n, locations)[j]
      {
        assert j in locations <==> j in previous || j == i;
      }
      assert mesh.population.value == SeedPopulations(n, locations);
    }
  }

  /** The mesh fields one growth step reads and writes. */
  predicate ReadyToGrow(mesh: Mesh)
    reads mesh`elevation, mesh`waterLine, mesh`population, mesh`neighbors
  {
    && mesh.elevation.Some? && mesh.waterLine.Some? && mesh.population.Some? && mesh.neighbors.Some?
    && |mesh.population.value| == |mesh.elevation.value| == |mesh.neighbors.value|
    && ValidNeighbors(mesh.neighbors.value)
  }

  /** `min(p + 150, 1000)` */
  function Grown(p: real): (q: real)
    ensures q <= PopulationCap || q == p + GrowthStep
    ensures p + GrowthStep > PopulationCap ==> q == PopulationCap
    ensures p + GrowthStep <= PopulationCap ==> q == p + GrowthStep
  {
    if p + GrowthStep > PopulationCap then PopulationCap else p + GrowthStep
  }

  /** The population after one draw has landed in `region` (a cell, or -1
      outside the mesh, which Python reads as the last cell): a cell above
      the water line gains 150 up to the cap of 1000, nothing else moves. */
  function Drawn(pop: seq<real>, e: seq<real>, waterLine: real, region: int): (next: seq<real>)
    requires |pop| == |e| && -|e| <= region < |e|
    ensures |next| == |pop|
    ensures forall j :: 0 <= j < |pop| && j != Resolve(region, |e|) ==> next[j] == pop[j]
    ensures var i := Resolve(region, |e|);
      && (e[i] > waterLine ==> next[i] == Grown(pop[i]))
      && (e[i] <= waterLine ==> next[i] == pop[i])
  {
    var i := Resolve(region, |e|);
    if e[i] > waterLine then pop[i := Grown(pop[i])] else pop
  }

  /** The population after the draws `regions`, taken in order. */
  function Grow(pop: seq<real>, e: seq<real>, waterLine: real, regions: seq<int>): (grown: seq<real>)
    requires |pop| == |e|
    requires forall k :: 0 <= k < |regions| ==> -|e| <= regions[k] < |e|
    ensures |grown| == |pop|
    decreases |regions|
  {
    if regions == [] then pop
    else
      var last := |regions| - 1;
      Drawn(Grow(pop, e, waterLine, regions[..last]), e, waterLine, regions[last])
  }

  /** Whatever the draws, a cell at or below the water line keeps its
      population, a cell that started within the cap only grows and stays
      within it, and a cell above the cap either keeps its population or is
      brought down to the cap. */
  lemma {:induction false} GrowBounds(pop: seq<real>, e: seq<real>, waterLine: real, regions: seq<int>)
    requires |pop| == |e|
    requires forall k :: 0 <= k < |regions| ==> -|e| <= regions[k] < |e|
    ensures forall j :: 0 <= j < |pop| ==>
      var before, after := pop[j], Grow(pop, e, waterLine, regions)[j];
      && (e[j] <= waterLine ==> after == before)
      && (before <= PopulationCap ==> before <= after <= PopulationCap)
      && (before > PopulationCap ==> after == before || after == PopulationCap)
    decreases |regions|
  {
    if regions != [] {
      GrowBounds(pop, e, waterLine, regions[..|regions| - 1]);
    }
  }

  /** One pass of the `grow_population` loop once the random draw has landed
      in `region`. A cell above the water line gains 150 and is clamped to
      1000; the overflow is computed after the clamp, so the neighbours
      receive nothing and the step is exactly `Drawn`. */
  method GrowAt(mesh: Mesh, region: int)
    requires ReadyToGrow(mesh) && -|mesh.elevation.value| <= region < |mesh.elevation.value|
    modifies mesh`population
    ensures ReadyToGrow(mesh)
    ensures mesh.population ==
      Some(Drawn(old(mesh.population.value), mesh.elevation.value, mesh.waterLine.value, region))
  {
    var e, pop, neighbors := mesh.elevation.value, mesh.population.value, mesh.neighbors.value;
    var i := Resolve(region, |e|);
    if At(e, region) > mesh.waterLine.value {
      ghost var grown := pop[i := Grown(pop[i])];
      pop := pop[i := pop[i] + GrowthStep];
      if pop[i] > PopulationCap {
        var ns := Keep(neighbors[i], e, mesh.waterLine.value);
        pop := pop[i := PopulationCap];
        if |ns| > 0 {
          var overflow := pop[i] - PopulationCap;
          var share := overflow / |ns| as real;
          assert share == 0.0;
          ghost var clamped := pop;
          pop := seq(|pop|, j requires 0 <= j < |pop| => if j in ns then pop[j] + share else pop[j]);
          assert pop == clamped;
        }
      }
      assert pop == grown;
      mesh.population := Some(pop);
    }
  }

  /** `[n for n in row if n >= 0 and elevation[n] > water_line]` */
  function Keep(row: seq<int>, e: seq<real>, waterLine: real): (ns: seq<nat>)
    requires forall k :: 0 <= k < |row| ==> row[k] < |e|
    ensures forall k :: 0 <= k < |ns| ==> ns[k] < |e| && e[ns[k]] > waterLine
    ensures forall n: int :: n in ns <==> n in row && n >= 0 && e[n] > waterLine
  {
    if row == [] then []
    else
      var rest := Keep(row[1..], e, waterLine);
      if row[0] >= 0 && e[row[0]] > waterLine then [row[0] as nat] + rest else rest
  }

  /** The `while` loop of `grow_population`, driven by the cells the random
      draws land in: it takes draw after draw while the total is below
      `targetTotal`, and stops there or when the draws run out. The
      population it leaves is `Grow` over the draws it used. */
  method GrowPopulation(mesh: Mesh, targetTotal: real, regions: seq<int>) returns (used: nat)
    requires ReadyToGrow(mesh)
    requires forall k :: 0 <= k < |regions| ==> -|mesh.elevation.value| <= regions[k] < |mesh.elevation.value|
    modifies mesh`population
    ensures ReadyToGrow(mesh) && used <= |regions|
    ensures mesh.population ==
      Some(Grow(old(mesh.population.value), mesh.elevation.value, mesh.waterLine.value, regions[..used]))
    ensures forall k :: 0 <= k < used ==>
      Sum(Grow(old(mesh.population.value), mesh.elevation.value, mesh.waterLine.value, regions[..k])) < targetTotal
    ensures used < |regions| ==> Sum(mesh.population.value) >= targetTotal
    ensures forall j :: 0 <= j < |mesh.elevation.value| ==>
      var before, after := old(mesh.population.value)[j], mesh.population.value[j];
      && (mesh.elevation.value[j] <= mesh.waterLine.value ==> after == before)
      && (before <= PopulationCap ==> before <= after <= PopulationCap)
      && (before > PopulationCap ==> after == before || after == PopulationCap)
  {
    ghost var pop0, e, wl := mesh.population.value, mesh.elevation.value, mesh.waterLine.value;
    used := 0;
    assert regions[..0] == [];
    while used < |regions| && Sum(mesh.population.value) < targetTotal
      invariant ReadyToGrow(mesh) && used <= |regions|
      invariant mesh.elevation.value == e && mesh.waterLine.value == wl
      invariant mesh.neighbors == old(mesh.neighbors)
      invariant mesh.population.value == Grow(pop0, e, wl, regions[..used])
      invariant forall k :: 0 <= k < used ==> Sum(Grow(pop0, e, wl, regions[..k])) < targetTotal
      decreases |regions| - used
    {
      GrowAt(mesh, regions[used]);
      assert regions[..used + 1][..used] == regions[..used];
      used := used + 1;
    }
    GrowBounds(pop0, e, wl, regions[..used]);
  }
}
