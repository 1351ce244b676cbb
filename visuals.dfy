/**
 * The data side of `visuals.py`: the two bar-chart tables, the region filter
 * behind both state-zoom maps, the population merge, and the density table.
 * What the charts and maps look like is not modelled; each function returns
 * the rows that would be drawn or shown.
 */
module Visuals {
  import opened Frames
  import opened Tables

  /** The first entry of the zoom drop-down, which shows the whole country. */
  const AllStates: string := "All States"

  // ---------------------------------------------------------------------
  // Bar charts
  // ---------------------------------------------------------------------

  /** `bar_state`: stores per state, from `value_counts` on the `state` column. */
  function BarState(dfSelection: seq<Outlet>): (r: seq<KeyCount>)
    ensures DistinctBy(r, KeyOf)
    ensures forall i, j :: 0 <= i < j < |r| ==> r[i].count >= r[j].count
  {
    ValueCountsRows(States(dfSelection));
    ValueCountsDescending(States(dfSelection));
    ValueCounts(States(dfSelection))
  }

  /** The number of selected outlets whose state (or district) is k. */
  function RowsWith(keys: seq<string>, k: string): nat {
    multiset(keys)[k]
  }

  /** One row per state that occurs in the selection, never a state twice, each
      with its number of outlets (so at least one). */
  lemma BarStateRows(dfSelection: seq<Outlet>)
    ensures var keys := States(dfSelection);
      var r := BarState(dfSelection);
      && |r| == |Distinct(keys)|
      && DistinctBy(r, KeyOf)
      && (forall s :: s in keys <==> exists i :: 0 <= i < |r| && r[i].key == s)
      && (forall i :: 0 <= i < |r| ==> r[i].count == RowsWith(keys, r[i].key) >= 1)
  {
    ValueCountsRows(States(dfSelection));
  }

  /** The bars add up to the number of selected outlets, and the longest comes first. */
  lemma BarStateTotals(dfSelection: seq<Outlet>)
    ensures var r := BarState(dfSelection);
      && SumOf(r, CountOf) == |dfSelection|
      && (forall i, j :: 0 <= i < j < |r| ==> r[i].count >= r[j].count)
  {
    ValueCountsSum(States(dfSelection));
    ValueCountsDescending(States(dfSelection));
  }

  /** `bar_region`: `value_counts` on the `district` column, then `nlargest(5)`.
      The counts are already in descending order, so `nlargest` keeps the first five. */
  function BarRegion(dfSelection: seq<Outlet>): (r: seq<KeyCount>)
    ensures |r| <= 5 && |r| <= |ValueCounts(Districts(dfSelection))|
    ensures r == ValueCounts(Districts(dfSelection))[..|r|]
  {
    Take(ValueCounts(Districts(dfSelection)), 5)
  }

  /** At most five districts, five whenever there are that many, in descending
      count order, each a district of the selection with its outlet count. */
  lemma BarRegionRows(dfSelection: seq<Outlet>)
    ensures var keys := Districts(dfSelection);
      var r := BarRegion(dfSelection);
      && |r| == (if |Distinct(keys)| < 5 then |Distinct(keys)| else 5)
      && DistinctBy(r, KeyOf)
      && (forall i, j :: 0 <= i < j < |r| ==> r[i].count >= r[j].count)
      && (forall i :: 0 <= i < |r| ==> r[i].key in keys && r[i].count == RowsWith(keys, r[i].key))
  {
    var keys := Districts(dfSelection);
    var all := ValueCounts(keys);
    var r := BarRegion(dfSelection);
    ValueCountsRows(keys);
    ValueCountsDescending(keys);
    assert forall i :: 0 <= i < |r| ==> r[i] == all[i];
  }

  /** No district left out of the top five has more outlets than one that is shown. */
  lemma BarRegionIsTop(dfSelection: seq<Outlet>, d: string)
    requires d in Districts(dfSelection)
    requires forall i :: 0 <= i < |BarRegion(dfSelection)| ==> BarRegion(dfSelection)[i].key != d
    ensures forall i :: 0 <= i < |BarRegion(dfSelection)| ==>
      BarRegion(dfSelection)[i].count >= RowsWith(Districts(dfSelection), d)
  {
    var keys := Districts(dfSelection);
    var all := ValueCounts(keys);
    var r := BarRegion(dfSelection);
    ValueCountsCovers(keys, d);
    var k :| 0 <= k < |all| && all[k].key == d;
    ValueCountsRowOrigin(keys, k);
    ValueCountsDescending(keys);
    assert forall i :: 0 <= i < |r| ==> all[i].key != d;
    forall i | 0 <= i < |r| ensures r[i].count >= RowsWith(keys, d) {
      assert r[i] == all[i];
    }
  }

  // ---------------------------------------------------------------------
  // Region filter (both zoom maps)
  // ---------------------------------------------------------------------

  /** What a zoom map draws: state boundaries, district boundaries, outlets. */
  datatype MapView = MapView(states: seq<StateBoundary>, districts: seq<DistrictBoundary>, stores: seq<GeoOutlet>)

  function NamedState(state: string): StateBoundary -> bool {
    (b: StateBoundary) => b.name1 == state
  }

  function StoreHits(ops: GeometryOps, region: Geometry): GeoOutlet -> bool {
    (g: GeoOutlet) => Hits(ops, g.geometry, region)
  }

  function DistrictHits(ops: GeometryOps, region: Geometry): DistrictBoundary -> bool {
    (b: DistrictBoundary) => ops.intersects(b.geometry, region)
  }

  /** `gadm[gadm['NAME_1'] == state]`. */
  function StateBoundaryRows(gadm: seq<StateBoundary>, state: string): (r: seq<StateBoundary>)
    ensures IsSelection(r, gadm, NamedState(state))
    ensures forall b :: b in r <==> b in gadm && b.name1 == state
  {
    Filter(gadm, NamedState(state))
  }

  /** `selected_state_boundary.unary_union`: when union agrees with intersects,
      a shape meets it exactly when it meets a boundary row named after the state. */
  function StateRegion(gadm: seq<StateBoundary>, state: string, ops: GeometryOps): (r: Geometry)
    ensures UnionIsExact(ops) ==> forall g :: ops.intersects(g, r) <==>
      exists b :: b in gadm && b.name1 == state && ops.intersects(g, b.geometry)
  {
    var r := ops.unaryUnion(Geometries(StateBoundaryRows(gadm, state)));
    assert UnionIsExact(ops) ==> forall g :: ops.intersects(g, r) <==>
      exists b :: b in gadm && b.name1 == state && ops.intersects(g, b.geometry) by {
      if UnionIsExact(ops) {
        forall g ensures ops.intersects(g, r) <==>
          exists b :: b in gadm && b.name1 == state && ops.intersects(g, b.geometry) {
          RegionByBoundaryRows(gadm, state, ops, g);
        }
      }
    }
    r
  }

  /** `map_plot_filter`: "All States" draws every table unfiltered; any other
      state draws its boundary rows and the outlets and districts that intersect
      the union of them, each an order-preserving selection of its table. */
  function MapPlotFilter(dfGdf: seq<GeoOutlet>, gadm: seq<StateBoundary>, districtGdf: seq<DistrictBoundary>,
                         selectedState: string, ops: GeometryOps): (v: MapView)
    ensures selectedState == AllStates ==>
      v.states == gadm && v.districts == districtGdf && v.stores == dfGdf
    ensures selectedState != AllStates ==>
      var region := StateRegion(gadm, selectedState, ops);
      && IsSelection(v.states, gadm, NamedState(selectedState))
      && IsSelection(v.stores, dfGdf, StoreHits(ops, region))
      && IsSelection(v.districts, districtGdf, DistrictHits(ops, region))
  {
    if selectedState == AllStates then MapView(gadm, districtGdf, dfGdf)
    else
      var boundary := StateBoundaryRows(gadm, selectedState);
      var region := ops.unaryUnion(Geometries(boundary));
      MapView(boundary, Filter(districtGdf, DistrictHits(ops, region)), Filter(dfGdf, StoreHits(ops, region)))
  }

  /** For one shape: when union agrees with intersects, the shape meets the union
      of the state's boundary rows exactly when it meets one of them. */
  lemma {:induction false} RegionByBoundaryRows(gadm: seq<StateBoundary>, state: string, ops: GeometryOps, g: Geometry)
    requires UnionIsExact(ops)
    ensures ops.intersects(g, ops.unaryUnion(Geometries(StateBoundaryRows(gadm, state)))) <==>
      exists b :: b in gadm && b.name1 == state && ops.intersects(g, b.geometry)
  {
    var rows := StateBoundaryRows(gadm, state);
    var parts := Geometries(rows);
    assert ops.intersects(g, ops.unaryUnion(parts)) <==> exists k :: 0 <= k < |parts| && ops.intersects(g, parts[k]);
    if exists b :: b in gadm && b.name1 == state && ops.intersects(g, b.geometry) {
      var b :| b in gadm && b.name1 == state && ops.intersects(g, b.geometry);
      var k :| 0 <= k < |rows| && rows[k] == b;
      assert parts[k] == b.geometry;
    }
    if exists k :: 0 <= k < |parts| && ops.intersects(g, parts[k]) {
      var k :| 0 <= k < |parts| && ops.intersects(g, parts[k]);
      assert rows[k] in rows;
    }
  }

  /** The union of the boundary rows of a state no row names is the empty
      union, which meets no shape. */
  lemma UnknownStateRegion(gadm: seq<StateBoundary>, state: string, ops: GeometryOps, g: Geometry)
    requires UnionIsExact(ops)
    requires forall b :: b in gadm ==> b.name1 != state
    ensures !ops.intersects(g, StateRegion(gadm, state, ops))
  {
  }

  /** When the union is exact, a state name that no boundary row carries selects
      nothing: the map filters by an empty union, which meets no shape. */
  lemma UnknownStateSelectsNothing(dfGdf: seq<GeoOutlet>, gadm: seq<StateBoundary>, districtGdf: seq<DistrictBoundary>,
                                   selectedState: string, ops: GeometryOps)
    requires UnionIsExact(ops)
    requires selectedState != AllStates
    requires forall b :: b in gadm ==> b.name1 != selectedState
    ensures var v := MapPlotFilter(dfGdf, gadm, districtGdf, selectedState, ops);
      v.states == [] && v.stores == [] && v.districts == []
  {
    var v := MapPlotFilter(dfGdf, gadm, districtGdf, selectedState, ops);
    var region := StateRegion(gadm, selectedState, ops);
    EmptySelection(v.states, gadm, NamedState(selectedState));
    forall g: GeoOutlet | g in dfGdf ensures !StoreHits(ops, region)(g) {
      if g.geometry.Some? {
        UnknownStateRegion(gadm, selectedState, ops, g.geometry.value);
      }
    }
    EmptySelection(v.stores, dfGdf, StoreHits(ops, region));
    forall b: DistrictBoundary | b in districtGdf ensures !DistrictHits(ops, region)(b) {
      UnknownStateRegion(gadm, selectedState, ops, b.geometry);
    }
    EmptySelection(v.districts, districtGdf, DistrictHits(ops, region));
  }

  // ---------------------------------------------------------------------
  // Population map
  // ---------------------------------------------------------------------

  /** What the population map draws: state boundaries, districts with their
      population (or none), outlets. */
  datatype PopulationMapView = PopulationMapView(
    states: seq<StateBoundary>,
    districts: seq<Joined<DistrictBoundary, PopRecord>>,
    stores: seq<GeoOutlet>)

  function JoinedHits(ops: GeometryOps, region: Geometry): Joined<DistrictBoundary, PopRecord> -> bool {
    (j: Joined<DistrictBoundary, PopRecord>) => ops.intersects(j.left.geometry, region)
  }

  /** `district_gdf.merge(population_df, left_on='NAM', right_on='district', how='left')`:
      every boundary row is kept, once with each population row of its name, and
      once with none (a null population) when there is no such row. */
  function DistrictsWithPopulation(districtGdf: seq<DistrictBoundary>, pops: seq<PopRecord>)
    : (r: seq<Joined<DistrictBoundary, PopRecord>>)
    ensures |r| >= |districtGdf|
    ensures KeepsEveryLeftRow(districtGdf, r)
    ensures forall j :: 0 <= j < |r| ==> r[j].left in districtGdf
    ensures forall j :: 0 <= j < |r| && r[j].right.Some? ==>
              r[j].right.value in pops && r[j].right.value.district == r[j].left.nam
    ensures forall j :: 0 <= j < |r| && r[j].right.None? ==>
              forall p :: p in pops ==> p.district != r[j].left.nam
    ensures forall i, p :: 0 <= i < |districtGdf| && p in pops && p.district == districtGdf[i].nam ==>
              Joined(districtGdf[i], Some(p)) in r
  {
    LeftJoinKeepsLeft(districtGdf, pops, NamOf, PopDistrictOf);
    LeftJoinKeepsMatches(districtGdf, pops, NamOf, PopDistrictOf);
    LeftJoin(districtGdf, pops, NamOf, PopDistrictOf)
  }

  /** The merge's rows, counted: a boundary and a population row of its name are
      paired once for each time the boundary and the population row occur, and a
      boundary with no population row is kept once per occurrence. */
  lemma DistrictsWithPopulationCount(districtGdf: seq<DistrictBoundary>, pops: seq<PopRecord>, b: DistrictBoundary)
    ensures forall p: PopRecord :: p.district == b.nam ==>
              multiset(DistrictsWithPopulation(districtGdf, pops))[Joined(b, Some(p))]
                == multiset(districtGdf)[b] * multiset(pops)[p]
    ensures (forall p :: p in pops ==> p.district != b.nam) ==>
              multiset(DistrictsWithPopulation(districtGdf, pops))[Joined(b, None)] == multiset(districtGdf)[b]
  {
    forall p: PopRecord | p.district == b.nam
      ensures multiset(DistrictsWithPopulation(districtGdf, pops))[Joined(b, Some(p))]
                == multiset(districtGdf)[b] * multiset(pops)[p]
    {
      LeftJoinCount(districtGdf, pops, NamOf, PopDistrictOf, b, p);
    }
    if forall p :: p in pops ==> p.district != b.nam {
      LeftJoinUnmatchedCount(districtGdf, pops, NamOf, PopDistrictOf, b);
    }
  }

  /** With unique population district names the merge does not change the row
      count: row i is boundary i with its population row, if it has one. */
  lemma DistrictsWithPopulationUnique(districtGdf: seq<DistrictBoundary>, pops: seq<PopRecord>)
    requires UniqueKeys(pops, PopDistrictOf)
    ensures var r := DistrictsWithPopulation(districtGdf, pops);
      && |r| == |districtGdf|
      && (forall i :: 0 <= i < |r| ==> r[i].left == districtGdf[i])
      && (forall i :: 0 <= i < |r| ==> r[i].right == FirstMatch(pops, districtGdf[i].nam, PopDistrictOf))
  {
    LeftJoinUnique(districtGdf, pops, NamOf, PopDistrictOf);
  }

  /** The drawn tables of `map_plot_filter_population`, given the population rows
      as they are after its in-place scaling. */
  function PopulationView(dfGdf: seq<GeoOutlet>, gadm: seq<StateBoundary>, districtGdf: seq<DistrictBoundary>,
                          pops: seq<PopRecord>, selectedState: string, ops: GeometryOps): (v: PopulationMapView)
    ensures selectedState == AllStates ==>
      v.states == gadm && v.districts == DistrictsWithPopulation(districtGdf, pops) && v.stores == dfGdf
    ensures selectedState != AllStates ==>
      var region := StateRegion(gadm, selectedState, ops);
      && IsSelection(v.states, gadm, NamedState(selectedState))
      && IsSelection(v.stores, dfGdf, StoreHits(ops, region))
      && IsSelection(v.districts, DistrictsWithPopulation(districtGdf, pops), JoinedHits(ops, region))
  {
    var merged := DistrictsWithPopulation(districtGdf, pops);
    if selectedState == AllStates then PopulationMapView(gadm, merged, dfGdf)
    else
      var boundary := StateBoundaryRows(gadm, selectedState);
      var region := ops.unaryUnion(Geometries(boundary));
      PopulationMapView(boundary, Filter(merged, JoinedHits(ops, region)), Filter(dfGdf, StoreHits(ops, region)))
  }

  /** `map_plot_filter_population`: multiplies the caller's population column by
      1000 in place, on every call, then merges and filters as the view says.
      It returns the zoom selection, as the source does, and the drawn tables. */
  method MapPlotFilterPopulation(dfGdf: seq<GeoOutlet>, gadm: seq<StateBoundary>, districtGdf: seq<DistrictBoundary>,
                                 populationDf: PopulationFrame, selectedState: string, ops: GeometryOps)
    returns (selected: string, view: PopulationMapView)
    requires populationDf.Valid()
    modifies populationDf
    ensures populationDf.Valid()
    ensures populationDf.population == ScaleColumn(old(populationDf.population))
    ensures populationDf.district == old(populationDf.district)
    ensures populationDf.populationMil == old(populationDf.populationMil)
    ensures populationDf.hasPopulationMil == old(populationDf.hasPopulationMil)
    ensures selected == selectedState
    ensures view == PopulationView(dfGdf, gadm, districtGdf, populationDf.Records(), selectedState, ops)
  {
    populationDf.population := ScaleColumn(populationDf.population);
    view := PopulationView(dfGdf, gadm, districtGdf, populationDf.Records(), selectedState, ops);
    selected := selectedState;
  }

  // ---------------------------------------------------------------------
  // Density table
  // ---------------------------------------------------------------------

  /** The table's columns, in order; `DensityRow` has one field per column. */
  const DensityColumns: seq<string> :=
    ["District", "Total Store", "population", "Population (mil) as of 2024", "Density per 100k Population"]

  datatype DensityRow = DensityRow(
    district: string,
    totalStore: nat,
    population: Value,
    populationMil: Value,
    density: Value)

  function RowDistrict(row: DensityRow): string { row.district }
  function TotalStoreOf(row: DensityRow): int { row.totalStore }
  function DensityOf(row: DensityRow): Value { row.density }

  /** `(population / 1_000_000).round(3)` on one cell. */
  function PopulationMil(population: Value): (r: Value)
    requires IsNumeric(population)
    ensures population.Num? <==> r.Num?
    ensures population.Num? ==>
      && population.v / 1000000.0 - 0.0005 <= r.v <= population.v / 1000000.0 + 0.0005
      && (r.v * 1000.0).Floor as real == r.v * 1000.0
    ensures population.NaN? ==> r.NaN?
    ensures population.Inf? ==> r.Inf?
    ensures population.NegInf? ==> r.NegInf?
  {
    match population
    case Num(p) => Num(Round3(p / 1000000.0))
    case Inf => Inf
    case NegInf => NegInf
    case NaN => NaN
  }

  /** `(store_count / population_mil / 10).round(0)` on one row: a division by a
      zero population is infinite, one by an infinite population is zero, and
      one by a missing population is missing. */
  function DensityPer100k(count: nat, mil: Value): (r: Value)
    requires IsNumeric(mil)
    ensures mil.Num? && mil.v != 0.0 ==>
      && r.Num? && r.v.Floor as real == r.v
      && count as real / mil.v / 10.0 - 0.5 <= r.v <= count as real / mil.v / 10.0 + 0.5
    ensures mil == Num(0.0) ==> (if count == 0 then r.NaN? else r.Inf?)
    ensures mil.NaN? ==> r.NaN?
    ensures mil.Inf? || mil.NegInf? ==> r == Num(0.0)
  {
    match mil
    case Num(m) =>
      if m == 0.0 then (if count == 0 then NaN else Inf)
      else Num(RoundHalfEven(count as real / m / 10.0) as real)
    case Inf => Num(0.0)
    case NegInf => Num(0.0)
    case NaN => NaN
  }

  /** A population that is a whole number of thousands (a loaded figure in
      thousands, scaled once) has an exact value in millions. */
  lemma PopulationMilExact(k: int)
    ensures PopulationMil(Num(1000.0 * k as real)) == Num(k as real / 1000.0)
  {
  }

  /** For such a population the density is the number of outlets per 100,000
      residents, rounded: `count / (population / 100_000)`. */
  lemma DensityIsPer100k(count: nat, k: int)
    requires k != 0
    ensures var population := 1000.0 * k as real;
      DensityPer100k(count, PopulationMil(Num(population)))
        == Num(RoundHalfEven(count as real / (population / 100000.0)) as real)
  {
    PopulationMilExact(k);
    var population := 1000.0 * k as real;
    var mil := k as real / 1000.0;
    assert count as real / mil / 10.0 == count as real / (population / 100000.0);
  }

  /** The worked example: 4 outlets, 200,000 residents, 0.2 million, density 2. */
  lemma DensityExample()
    ensures PopulationMil(Num(200000.0)) == Num(0.2)
    ensures DensityPer100k(4, Num(0.2)) == Num(2.0)
  {
  }

  function PopulationOf(j: Joined<KeyCount, PopRecord>): Value {
    if j.right.Some? then j.right.value.population else NaN
  }

  /** One row of the table: the district's outlet count, merged population, the
      two derived columns, and `fillna(0)` over all of them. */
  function DensityRowOf(j: Joined<KeyCount, PopRecord>): (row: DensityRow)
    requires IsNumeric(PopulationOf(j))
    ensures row.district == j.left.key && row.totalStore == j.left.count
    ensures !row.population.NaN? && !row.populationMil.NaN? && !row.density.NaN?
    ensures j.right.None? ==>
      row.population == Num(0.0) && row.populationMil == Num(0.0) && row.density == Num(0.0)
    ensures PopulationOf(j).NaN? ==>
      row.population == Num(0.0) && row.populationMil == Num(0.0) && row.density == Num(0.0)
    ensures j.right.Some? && (PopulationOf(j).Inf? || PopulationOf(j).NegInf?) ==>
      row.population == PopulationOf(j) && row.populationMil == PopulationOf(j) && row.density == Num(0.0)
    ensures j.right.Some? && j.right.value.population.Num? ==>
      && row.population == j.right.value.population
      && row.populationMil == PopulationMil(j.right.value.population)
      && row.density == FillNa(DensityPer100k(j.left.count, row.populationMil))
  {
    var population := PopulationOf(j);
    var mil := PopulationMil(population);
    DensityRow(j.left.key, j.left.count, FillNa(population), FillNa(mil), FillNa(DensityPer100k(j.left.count, mil)))
  }

  predicate NumericPopulations(pops: seq<PopRecord>) {
    forall p :: p in pops ==> IsNumeric(p.population)
  }

  function DensityRows(merged: seq<Joined<KeyCount, PopRecord>>): (r: seq<DensityRow>)
    requires forall j :: j in merged ==> IsNumeric(PopulationOf(j))
    ensures |r| == |merged|
    ensures forall i :: 0 <= i < |r| ==> r[i] == DensityRowOf(merged[i])
  {
    if merged == [] then []
    else
      assert merged[0] in merged;
      [DensityRowOf(merged[0])] + DensityRows(merged[1..])
  }

  /** The store counts per district merged with the population table. */
  function MergedCounts(districts: seq<string>, pops: seq<PopRecord>): (r: seq<Joined<KeyCount, PopRecord>>)
    requires NumericPopulations(pops)
    ensures forall j :: j in r ==> IsNumeric(PopulationOf(j))
  {
    LeftJoin(ValueCounts(districts), pops, KeyOf, PopDistrictOf)
  }

  /** `summary_density`'s result for the district column of the selection and the
      population rows as coerced: rows sorted by density, largest first. */
  function DensityTable(districts: seq<string>, pops: seq<PopRecord>): (r: seq<DensityRow>)
    requires NumericPopulations(pops)
    ensures SortedDesc(r, DensityOf)
    ensures forall row :: row in r ==> !row.population.NaN? && !row.populationMil.NaN? && !row.density.NaN?
  {
    var rows := DensityRows(MergedCounts(districts, pops));
    var r := SortDesc(rows, DensityOf);
    assert forall row :: row in r ==> row in rows by {
      forall row | row in r ensures row in rows {
        assert row in multiset(r);
      }
    }
    r
  }

  /** With unique population names the merge keeps one entry per counted
      district, in order, each with that district's population row if any. */
  lemma MergedRowsUnique(districts: seq<string>, pops: seq<PopRecord>)
    requires NumericPopulations(pops)
    requires UniqueKeys(pops, PopDistrictOf)
    ensures var counts := ValueCounts(districts);
      var rows := DensityRows(MergedCounts(districts, pops));
      && |rows| == |counts|
      && forall m :: 0 <= m < |rows| ==>
           rows[m] == DensityRowOf(Joined(counts[m], FirstMatch(pops, counts[m].key, PopDistrictOf)))
  {
    LeftJoinUnique(ValueCounts(districts), pops, KeyOf, PopDistrictOf);
  }

  /** The merged rows are the counted districts, in the order of `value_counts`. */
  lemma MergedRowDistricts(districts: seq<string>, pops: seq<PopRecord>)
    requires NumericPopulations(pops)
    requires UniqueKeys(pops, PopDistrictOf)
    ensures var counts := ValueCounts(districts);
      var rows := DensityRows(MergedCounts(districts, pops));
      && |rows| == |counts|
      && forall m :: 0 <= m < |rows| ==> rows[m].district == counts[m].key && rows[m].totalStore == counts[m].count
  {
    MergedRowsUnique(districts, pops);
  }

  /** When the population table names each district once, the density table has
      one row per distinct district of the selection, and no district twice. */
  lemma DensityTableDistinct(districts: seq<string>, pops: seq<PopRecord>)
    requires NumericPopulations(pops)
    requires UniqueKeys(pops, PopDistrictOf)
    ensures var r := DensityTable(districts, pops);
      |r| == |Distinct(districts)| && DistinctBy(r, RowDistrict)
  {
    var counts := ValueCounts(districts);
    var rows := DensityRows(MergedCounts(districts, pops));
    ValueCountsRows(districts);
    MergedRowDistricts(districts, pops);
    assert DistinctBy(rows, RowDistrict) by {
      forall a, b | 0 <= a < b < |rows| ensures RowDistrict(rows[a]) != RowDistrict(rows[b]) {
        assert KeyOf(counts[a]) != KeyOf(counts[b]);
      }
    }
    SortDistinctBy(rows, DensityOf, RowDistrict);
  }

  /** Whatever the population table, every merged entry holds a counted district,
      and every counted district has an entry. */
  lemma MergedRowCounts(districts: seq<string>, pops: seq<PopRecord>)
    requires NumericPopulations(pops)
    ensures var counts := ValueCounts(districts);
      var merged := MergedCounts(districts, pops);
      var rows := DensityRows(merged);
      && KeepsEveryLeftRow(counts, merged)
      && forall j :: 0 <= j < |rows| ==>
           merged[j].left in counts && rows[j].district == merged[j].left.key
           && rows[j].totalStore == merged[j].left.count
  {
    LeftJoinKeepsLeft(ValueCounts(districts), pops, KeyOf, PopDistrictOf);
  }

  /** Whatever the population table, each row carries its district's number of
      selected outlets, at least one. */
  lemma DensityTableCounts(districts: seq<string>, pops: seq<PopRecord>, i: nat)
    requires NumericPopulations(pops)
    requires i < |DensityTable(districts, pops)|
    ensures var row := DensityTable(districts, pops)[i];
      row.totalStore == RowsWith(districts, row.district) >= 1
  {
    var counts := ValueCounts(districts);
    var merged := MergedCounts(districts, pops);
    var rows := DensityRows(merged);
    var r := DensityTable(districts, pops);
    var row := r[i];
    assert r == SortDesc(rows, DensityOf);
    assert row in multiset(r);
    assert row in multiset(rows);
    var j :| 0 <= j < |rows| && rows[j] == row;
    MergedRowCounts(districts, pops);
    assert merged[j].left in counts;
    var m :| 0 <= m < |counts| && counts[m] == merged[j].left;
    ValueCountsRowOrigin(districts, m);
    assert row.district == counts[m].key && row.totalStore == counts[m].count;
  }

  /** Every district of the selection has a row, whatever the population table. */
  lemma DistrictHasRow(districts: seq<string>, pops: seq<PopRecord>, d: string)
    requires NumericPopulations(pops)
    requires d in districts
    ensures var r := DensityTable(districts, pops);
      exists i :: 0 <= i < |r| && r[i].district == d
  {
    var counts := ValueCounts(districts);
    var merged := MergedCounts(districts, pops);
    ValueCountsCovers(districts, d);
    var m :| 0 <= m < |counts| && counts[m].key == d;
    LeftJoinKeepsLeft(counts, pops, KeyOf, PopDistrictOf);
    assert KeepsEveryLeftRow(counts, merged);
    var j :| 0 <= j < |merged| && merged[j].left == counts[m];
    MergedEntryHasRow(districts, pops, j);
  }

  /** Each entry of the merge gives a row of the table, with its district. */
  lemma MergedEntryHasRow(districts: seq<string>, pops: seq<PopRecord>, j: nat)
    requires NumericPopulations(pops)
    requires j < |MergedCounts(districts, pops)|
    ensures var r := DensityTable(districts, pops);
      exists i :: 0 <= i < |r| && r[i].district == MergedCounts(districts, pops)[j].left.key
  {
    var rows := DensityRows(MergedCounts(districts, pops));
    var r := DensityTable(districts, pops);
    assert r == SortDesc(rows, DensityOf);
    assert rows[j] in multiset(r);
    var i :| 0 <= i < |r| && r[i] == rows[j];
  }

  /** A district has a row exactly when some selected outlet lies in it, even
      when the population table names a district more than once. */
  lemma DensityTableCovers(districts: seq<string>, pops: seq<PopRecord>)
    requires NumericPopulations(pops)
    ensures var r := DensityTable(districts, pops);
      forall d :: d in districts <==> exists i :: 0 <= i < |r| && r[i].district == d
  {
    var r := DensityTable(districts, pops);
    forall d | d in districts ensures exists i :: 0 <= i < |r| && r[i].district == d {
      DistrictHasRow(districts, pops, d);
    }
    forall i | 0 <= i < |r| ensures r[i].district in districts {
      DensityTableCounts(districts, pops, i);
    }
  }

  /** When the population table names each district once, each row is built
      from that district's population row, with zeros when there is none. */
  lemma DensityTableRowValues(districts: seq<string>, pops: seq<PopRecord>, i: nat)
    requires NumericPopulations(pops)
    requires UniqueKeys(pops, PopDistrictOf)
    requires i < |DensityTable(districts, pops)|
    ensures var row := DensityTable(districts, pops)[i];
      row == DensityRowOf(Joined(KeyCount(row.district, row.totalStore),
                                 FirstMatch(pops, row.district, PopDistrictOf)))
  {
    var counts := ValueCounts(districts);
    var rows := DensityRows(MergedCounts(districts, pops));
    var r := DensityTable(districts, pops);
    MergedRowsUnique(districts, pops);
    assert r[i] in multiset(rows);
    var m :| 0 <= m < |rows| && rows[m] == r[i];
    assert counts[m] == KeyCount(r[i].district, r[i].totalStore);
  }

  /** When the population table names each district once, the outlet counts of
      the table add up to the number of selected outlets. (A district named twice
      is merged with each of its rows, as `Frames.LeftJoinCount` counts, so its
      outlets are counted once per row.) */
  lemma DensityTableTotal(districts: seq<string>, pops: seq<PopRecord>)
    requires NumericPopulations(pops)
    requires UniqueKeys(pops, PopDistrictOf)
    ensures SumOf(DensityTable(districts, pops), TotalStoreOf) == |districts|
  {
    var counts := ValueCounts(districts);
    var rows := DensityRows(MergedCounts(districts, pops));
    MergedRowsUnique(districts, pops);
    ValueCountsSum(districts);
    SortSum(rows, DensityOf, TotalStoreOf);
    SumOfPointwise(rows, TotalStoreOf, counts, CountOf);
  }

  /** `summary_density`: coerces the caller's population column in place, adds the
      `population (mil)` column to the caller's table, and returns the density
      table built from the selection's district column. */
  method SummaryDensity(dfSelection: seq<Outlet>, populationDf: PopulationFrame, parse: Parser)
    returns (result: seq<DensityRow>)
    requires populationDf.Valid()
    modifies populationDf
    ensures populationDf.Valid()
    ensures populationDf.district == old(populationDf.district)
    ensures populationDf.population == ToNumericColumn(old(populationDf.population), parse)
    ensures populationDf.hasPopulationMil
    ensures |populationDf.populationMil| == |populationDf.population|
    ensures forall i :: 0 <= i < |populationDf.population| ==>
              populationDf.populationMil[i] == PopulationMil(populationDf.population[i])
    ensures NumericPopulations(populationDf.Records())
    ensures result == DensityTable(Districts(dfSelection), populationDf.Records())
  {
    populationDf.population := ToNumericColumn(populationDf.population, parse);
    var population := populationDf.population;
    populationDf.populationMil := seq(|population|, i requires 0 <= i < |population| => PopulationMil(population[i]));
    populationDf.hasPopulationMil := true;
    var pops := populationDf.Records();
    assert NumericPopulations(pops) by {
      forall p | p in pops ensures IsNumeric(p.population) {
        var i :| 0 <= i < |pops| && pops[i] == p;
        assert p.population == population[i];
      }
    }
    result := DensityTable(Districts(dfSelection), pops);
  }
}
