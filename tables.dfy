/**
 * The four tables the dashboard works on: outlet points, state boundaries
 * (`NAME_1`), district boundaries (`NAM`) and district populations, plus the
 * geometry library the dashboard calls, kept abstract.
 */
module Tables {
  import opened Frames

  /** An opaque handle on a point, polygon or multipolygon. */
  datatype Geometry = Geometry(id: nat)

  /** The geometry library, which the model does not look inside:
      `points_from_xy(x, y)` (None stands for a missing geometry),
      `intersects`, and `unary_union`. */
  datatype GeometryOps = GeometryOps(
    pointFromXY: (Value, Value) -> Option<Geometry>,
    intersects: (Geometry, Geometry) -> bool,
    unaryUnion: seq<Geometry> -> Geometry)

  /** `GeoSeries.intersects` on one cell: a missing geometry intersects nothing. */
  predicate Hits(ops: GeometryOps, g: Option<Geometry>, region: Geometry) {
    g.Some? && ops.intersects(g.value, region)
  }

  /** The union meets a shape exactly when one of its parts does. */
  ghost predicate UnionIsExact(ops: GeometryOps) {
    forall g, parts :: ops.intersects(g, ops.unaryUnion(parts)) <==>
      exists k :: 0 <= k < |parts| && ops.intersects(g, parts[k])
  }

  /** A point built from a missing coordinate is a missing geometry. */
  ghost predicate MissingCoordinatesGiveNoPoint(ops: GeometryOps) {
    forall x: Value, y: Value :: (x.NaN? || y.NaN?) ==> ops.pointFromXY(x, y).None?
  }

  /** A row of the outlet table; coordinates may be malformed strings until coerced. */
  datatype Outlet = Outlet(name: string, state: string, district: string, latitude: Value, longitude: Value)

  /** A row of the outlet GeoDataFrame: the outlet and its point geometry. */
  datatype GeoOutlet = GeoOutlet(outlet: Outlet, geometry: Option<Geometry>)

  /** A row of the state boundary table; `name1` is its `NAME_1` column. */
  datatype StateBoundary = StateBoundary(name1: string, geometry: Geometry)

  /** A row of the district boundary table; `nam` is its `NAM` column. */
  datatype DistrictBoundary = DistrictBoundary(nam: string, geometry: Geometry)

  /** A row of the population table. */
  datatype PopRecord = PopRecord(district: string, population: Value)

  function NamOf(b: DistrictBoundary): string { b.nam }
  function PopDistrictOf(p: PopRecord): string { p.district }

  /** The `state` column. */
  function States(rows: seq<Outlet>): (r: seq<string>)
    ensures |r| == |rows| && forall i :: 0 <= i < |r| ==> r[i] == rows[i].state
  {
    seq(|rows|, i requires 0 <= i < |rows| => rows[i].state)
  }

  /** The `district` column. */
  function Districts(rows: seq<Outlet>): (r: seq<string>)
    ensures |r| == |rows| && forall i :: 0 <= i < |r| ==> r[i] == rows[i].district
  {
    seq(|rows|, i requires 0 <= i < |rows| => rows[i].district)
  }

  /** The outlets of a GeoDataFrame, geometry dropped. */
  function Outlets(rows: seq<GeoOutlet>): (r: seq<Outlet>)
    ensures |r| == |rows| && forall i :: 0 <= i < |r| ==> r[i] == rows[i].outlet
  {
    if rows == [] then [] else [rows[0].outlet] + Outlets(rows[1..])
  }

  function Geometries(rows: seq<StateBoundary>): (r: seq<Geometry>)
    ensures |r| == |rows| && forall i :: 0 <= i < |r| ==> r[i] == rows[i].geometry
  {
    seq(|rows|, i requires 0 <= i < |rows| => rows[i].geometry)
  }

  function RecordsOf(district: seq<string>, population: seq<Value>): (r: seq<PopRecord>)
    requires |district| == |population|
    ensures |r| == |district|
    ensures forall i :: 0 <= i < |r| ==> r[i] == PopRecord(district[i], population[i])
  {
    seq(|district|, i requires 0 <= i < |district| => PopRecord(district[i], population[i]))
  }

  /**
   * The population DataFrame. It is one object, loaded once per run of the
   * script and handed to both the population map and the density table, and
   * both of them assign its columns in place.
   */
  class PopulationFrame {
    var district: seq<string>
    /** The `population` column: thousands as loaded, scaled in place later. */
    var population: seq<Value>
    /** The `population (mil)` column, present once `hasPopulationMil` holds. */
    var populationMil: seq<Value>
    var hasPopulationMil: bool

    ghost predicate Valid()
      reads this
    {
      && |district| == |population|
      && (hasPopulationMil ==> |populationMil| == |population|)
    }

    constructor (district: seq<string>, population: seq<Value>)
      requires |district| == |population|
      ensures Valid()
      ensures this.district == district && this.population == population
      ensures !hasPopulationMil && populationMil == []
    {
      this.district := district;
      this.population := population;
      this.populationMil := [];
      this.hasPopulationMil := false;
    }

    /** The `district` and `population` columns, row by row. */
    function Records(): (r: seq<PopRecord>)
      reads this
      requires Valid()
      ensures |r| == |district|
      ensures forall i :: 0 <= i < |r| ==> r[i].district == district[i] && r[i].population == population[i]
    {
      RecordsOf(district, population)
    }
  }
}
