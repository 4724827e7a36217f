/** The triangle mesh of `map_maker/mesh.py`: one cell per Delaunay triangle,
    its centre, its three neighbour slots (-1 meaning off-mesh) and the
    edge-region flag that pins a cell during depression filling. */
module Meshes {
  import opened NumPy

  datatype Option<T> = None | Some(value: T)

  datatype Point = Point(x: real, y: real)

  /** A sentinel neighbour slot: the triangle edge lies on the convex hull. */
  const OffMesh: int := -1

  /** Every cell has three neighbour slots, each a cell index or `OffMesh`. */
  predicate ValidNeighbors(neighbors: seq<seq<int>>) {
    forall i :: 0 <= i < |neighbors| ==>
      |neighbors[i]| == 3 && forall k :: 0 <= k < 3 ==> OffMesh <= neighbors[i][k] < |neighbors|
  }

  /** The mesh topology the hydrology code runs on: cells that are not edge
      regions have three real neighbours. */
  predicate Topology(neighbors: seq<seq<int>>, edge: seq<bool>) {
    && ValidNeighbors(neighbors)
    && |edge| == |neighbors|
    && forall i :: 0 <= i < |neighbors| && !edge[i] ==>
         forall k :: 0 <= k < 3 ==> neighbors[i][k] != OffMesh
  }

  /** What `scipy.spatial.Delaunay` hands back: the triangulated points, one
      row of three point indices per triangle, one row of three neighbouring
      triangles per triangle, and the point-location query `find_simplex`. */
  datatype Triangulation = Triangulation(
    points: seq<Point>,
    simplices: seq<seq<nat>>,
    neighbors: seq<seq<int>>,
    findSimplex: Point -> int)
  {
    predicate Valid() {
      && |simplices| == |neighbors|
      && ValidNeighbors(neighbors)
      && forall i :: 0 <= i < |simplices| ==>
           |simplices[i]| == 3 && forall k :: 0 <= k < 3 ==> simplices[i][k] < |points|
    }
  }

  function Min3(a: real, b: real, c: real): real {
    if a <= b && a <= c then a else if b <= c then b else c
  }

  function Max3(a: real, b: real, c: real): real {
    if a >= b && a >= c then a else if b >= c then b else c
  }

  /** The mean of a triangle's three corners (`points[vertices].mean(axis=1)`). */
  function Centroid(a: Point, b: Point, c: Point): (p: Point)
    ensures Min3(a.x, b.x, c.x) <= p.x <= Max3(a.x, b.x, c.x)
    ensures Min3(a.y, b.y, c.y) <= p.y <= Max3(a.y, b.y, c.y)
    ensures a == b == c ==> p == a
  {
    Point((a.x + b.x + c.x) / 3.0, (a.y + b.y + c.y) / 3.0)
  }

  /** One centre per triangle, indexed like the triangles: the centroid of
      that triangle's corners, so inside their bounding box. */
  function Centers(tri: Triangulation): (centers: seq<Point>)
    requires tri.Valid()
    ensures |centers| == |tri.simplices|
    ensures forall i :: 0 <= i < |centers| ==>
      var s := tri.simplices[i];
      centers[i] == Centroid(tri.points[s[0]], tri.points[s[1]], tri.points[s[2]])
    ensures forall i :: 0 <= i < |centers| ==>
      var s := tri.simplices[i];
      Min3(tri.points[s[0]].x, tri.points[s[1]].x, tri.points[s[2]].x) <= centers[i].x
        <= Max3(tri.points[s[0]].x, tri.points[s[1]].x, tri.points[s[2]].x)
    ensures forall i :: 0 <= i < |centers| ==>
      var s := tri.simplices[i];
      Min3(tri.points[s[0]].y, tri.points[s[1]].y, tri.points[s[2]].y) <= centers[i].y
        <= Max3(tri.points[s[0]].y, tri.points[s[1]].y, tri.points[s[2]].y)
  {
    seq(|tri.simplices|, i requires 0 <= i < |tri.simplices| =>
      var s := tri.simplices[i];
      Centroid(tri.points[s[0]], tri.points[s[1]], tri.points[s[2]]))
  }

  /** `neighbors.min(axis=1)` for one row */
  function MinSlot(row: seq<int>): int
    requires |row| == 3
  {
    if row[0] <= row[1] && row[0] <= row[2] then row[0]
    else if row[1] <= row[2] then row[1]
    else row[2]
  }

  /** `edge_regions`: the centre lies right of `width` or above `height`, or
      the triangulation reports a missing neighbour. There is no lower bound
      and no margin. */
  function EdgeRegions(width: real, height: real, centers: seq<Point>, neighbors: seq<seq<int>>): (edge: seq<bool>)
    requires |centers| == |neighbors| && ValidNeighbors(neighbors)
    ensures Topology(neighbors, edge)
    ensures forall i :: 0 <= i < |edge| && (centers[i].x > width || centers[i].y > height) ==> edge[i]
    ensures forall i :: 0 <= i < |edge| && (exists k :: 0 <= k < 3 && neighbors[i][k] == OffMesh) ==> edge[i]
    ensures forall i :: 0 <= i < |edge| ==>
      (centers[i].x <= width && centers[i].y <= height && forall k :: 0 <= k < 3 ==> neighbors[i][k] != OffMesh)
        ==> !edge[i]
  {
    seq(|neighbors|, i requires 0 <= i < |neighbors| =>
      centers[i].x > width || centers[i].y > height || MinSlot(neighbors[i]) == OffMesh)
  }

  /** The mesh record. The source's constructor sets every field to `None`;
      `delauny_mesh` fills the geometry, the elevation seeder sets
      `elevation`, `hydrolic_erosion` the water fields and `place_seeds`
      the population. */
  class Mesh {
    var width: Option<real>
    var height: Option<real>
    var centers: Option<seq<Point>>
    var vertices: Option<seq<seq<nat>>>
    var regions: Option<seq<seq<nat>>>
    var edgeRegions: Option<seq<bool>>
    var neighbors: Option<seq<seq<int>>>
    var elevation: Option<seq<real>>
    var water: Option<seq<Ext>>
    var waterFlux: Option<seq<real>>
    var population: Option<seq<real>>
    var pointToRegion: Option<Point -> int>
    // Attributes the source adds after construction: `points` in
    // `delauny_mesh`, `water_line` in `hydrolic_erosion`.
    var points: Option<seq<Point>>
    var waterLine: Option<real>

    constructor ()
      ensures width == None && height == None && centers == None
      ensures vertices == None && regions == None && edgeRegions == None
      ensures neighbors == None && elevation == None && water == None
      ensures waterFlux == None && population == None && pointToRegion == None
      ensures points == None && waterLine == None
    {
      width, height, centers := None, None, None;
      vertices, regions, edgeRegions := None, None, None;
      neighbors, elevation, water := None, None, None;
      waterFlux, population, pointToRegion := None, None, None;
      points, waterLine := None, None;
    }

    /** Neighbours and edge flags are present and consistent. */
    predicate HasTopology()
      reads this
    {
      neighbors.Some? && edgeRegions.Some? && Topology(neighbors.value, edgeRegions.value)
    }

    /** Topology plus one elevation per cell. */
    predicate HasElevation()
      reads this
    {
      HasTopology() && elevation.Some? && |elevation.value| == |neighbors.value|
    }
  }

  /** `delauny_mesh` after the triangulation: builds the record field by
      field from the scipy output. */
  method DelaunyMesh(width: real, height: real, tri: Triangulation) returns (mesh: Mesh)
    requires tri.Valid()
    ensures fresh(mesh)
    ensures mesh.width == Some(width) && mesh.height == Some(height)
    ensures mesh.centers == Some(Centers(tri))
    ensures mesh.points == Some(tri.points)
    ensures mesh.regions == Some(tri.simplices) && mesh.vertices == Some(tri.simplices)
    ensures mesh.edgeRegions == Some(EdgeRegions(width, height, Centers(tri), tri.neighbors))
    ensures mesh.neighbors == Some(tri.neighbors)
    ensures mesh.pointToRegion == Some(tri.findSimplex)
    ensures mesh.HasTopology()
    ensures |mesh.centers.value| == |mesh.regions.value| == |mesh.edgeRegions.value| == |mesh.neighbors.value|
    ensures mesh.elevation == None && mesh.water == None && mesh.waterFlux == None
    ensures mesh.population == None && mesh.waterLine == None
  {
    mesh := new Mesh();
    mesh.width := Some(width);
    mesh.height := Some(height);
    var centers := Centers(tri);
    mesh.centers := Some(centers);
    mesh.points := Some(tri.points);
    mesh.regions := Some(tri.simplices);
    mesh.vertices := Some(tri.simplices);
    mesh.edgeRegions := Some(EdgeRegions(width, height, centers, tri.neighbors));
    mesh.neighbors := Some(tri.neighbors);
    mesh.pointToRegion := Some(tri.findSimplex);
  }
}
