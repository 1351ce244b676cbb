/**
 * The script `app.py`: it coerces the outlet coordinates, offers the state and
 * district filters, selects the outlets both filters keep, builds their point
 * geometries, and then calls the population map, the two bar charts and the
 * density table, in that order, on one shared population table.
 */
module App {
  import opened Frames
  import opened Tables
  import opened Visuals

  // ---------------------------------------------------------------------
  // Loading
  // ---------------------------------------------------------------------

  /** `pd.to_numeric(..., errors='coerce')` on the `latitude` and `longitude`
      columns: both become numeric, a malformed entry becomes NaN instead of an
      error, and every other column is left alone. */
  function CoerceCoordinates(df: seq<Outlet>, parse: Parser): (r: seq<Outlet>)
    ensures |r| == |df|
    ensures forall i :: 0 <= i < |r| ==>
      && r[i].name == df[i].name && r[i].state == df[i].state && r[i].district == df[i].district
      && IsNumeric(r[i].latitude) && IsNumeric(r[i].longitude)
      && (IsNumeric(df[i].latitude) ==> r[i].latitude == df[i].latitude)
      && (IsNumeric(df[i].longitude) ==> r[i].longitude == df[i].longitude)
      && (df[i].latitude.Str? ==> (r[i].latitude.NaN? <==> parse(df[i].latitude.s).None?))
      && (df[i].longitude.Str? ==> (r[i].longitude.NaN? <==> parse(df[i].longitude.s).None?))
      && r[i].latitude == ToNumeric(df[i].latitude, parse) && r[i].longitude == ToNumeric(df[i].longitude, parse)
  {
    seq(|df|, i requires 0 <= i < |df| =>
      df[i].(latitude := ToNumeric(df[i].latitude, parse), longitude := ToNumeric(df[i].longitude, parse)))
  }

  /** Coercing coordinates that are already numeric changes nothing. */
  lemma CoerceCoordinatesIdempotent(df: seq<Outlet>, parse: Parser)
    ensures CoerceCoordinates(CoerceCoordinates(df, parse), parse) == CoerceCoordinates(df, parse)
  {
  }

  // ---------------------------------------------------------------------
  // Sidebar filters
  // ---------------------------------------------------------------------

  /** What the user did with a multiselect: left its default, or kept some options. */
  datatype Choice = Untouched | Picked(keep: set<string>)

  function Kept(keep: set<string>): string -> bool {
    (x: string) => x in keep
  }

  /** The value of `st.multiselect(options=o, default=o)`: every option by
      default, otherwise the options the user kept and nothing else. */
  function Multiselect(options: seq<string>, choice: Choice): (r: seq<string>)
    ensures choice.Untouched? ==> r == options
    ensures choice.Picked? ==> forall x :: x in r <==> x in options && x in choice.keep
    ensures SubsequenceOf(r, options)
  {
    match choice
    case Untouched => SubsequenceOfSelf(options); options
    case Picked(keep) => Filter(options, Kept(keep))
  }

  /** `df["state"].unique()`: every state once. */
  function StateOptions(df: seq<Outlet>): (r: seq<string>)
    ensures NoDup(r)
    ensures forall s :: s in r <==> exists i :: 0 <= i < |df| && df[i].state == s
  {
    var states := States(df);
    assert forall s :: s in states <==> exists i :: 0 <= i < |df| && df[i].state == s by {
      forall s | s in states ensures exists i :: 0 <= i < |df| && df[i].state == s {
        var i :| 0 <= i < |states| && states[i] == s;
      }
    }
    Distinct(states)
  }

  function StateIn(state: seq<string>): Outlet -> bool {
    (o: Outlet) => o.state in state
  }

  /** The district filter's options: with some state chosen, every district of
      an outlet in a chosen state, once; with none chosen, every district. */
  function DistrictOptions(df: seq<Outlet>, state: seq<string>): (r: seq<string>)
    ensures NoDup(r)
    ensures |state| > 0 ==>
      forall d :: d in r <==> exists i :: 0 <= i < |df| && df[i].state in state && df[i].district == d
    ensures |state| == 0 ==>
      forall d :: d in r <==> exists i :: 0 <= i < |df| && df[i].district == d
  {
    if |state| > 0 then
      var rows := Filter(df, StateIn(state));
      var districts := Districts(rows);
      assert forall d :: d in districts <==> exists i :: 0 <= i < |df| && df[i].state in state && df[i].district == d by {
        forall d ensures d in districts <==> exists i :: 0 <= i < |df| && df[i].state in state && df[i].district == d {
          if d in districts {
            var k :| 0 <= k < |districts| && districts[k] == d;
            assert rows[k] in rows;
            var i :| 0 <= i < |df| && df[i] == rows[k];
          }
          if exists i :: 0 <= i < |df| && df[i].state in state && df[i].district == d {
            var i :| 0 <= i < |df| && df[i].state in state && df[i].district == d;
            assert df[i] in rows;
            var k :| 0 <= k < |rows| && rows[k] == df[i];
            assert districts[k] == d;
          }
        }
      }
      Distinct(districts)
    else
      var districts := Districts(df);
      assert forall d :: d in districts <==> exists i :: 0 <= i < |df| && df[i].district == d by {
        forall d | d in districts ensures exists i :: 0 <= i < |df| && df[i].district == d {
          var i :| 0 <= i < |districts| && districts[i] == d;
        }
      }
      Distinct(districts)
  }

  function Selected(state: seq<string>, district: seq<string>): Outlet -> bool {
    (o: Outlet) => o.state in state && o.district in district
  }

  /** A filter keeps a value when it was left at its default or the user kept it. */
  predicate Keeps(choice: Choice, x: string) {
    choice.Untouched? || x in choice.keep
  }

  /** The outlets the two sidebar choices keep, said without the option lists. */
  function ChoicesKeep(stateChoice: Choice, districtChoice: Choice): Outlet -> bool {
    (o: Outlet) => Keeps(stateChoice, o.state) && Keeps(districtChoice, o.district)
  }

  /** An option is in the multiselect's value exactly when the choice keeps it. */
  lemma MultiselectKeeps(options: seq<string>, choice: Choice, x: string)
    requires x in options
    ensures x in Multiselect(options, choice) <==> Keeps(choice, x)
  {
  }

  /** On the outlets of the table, the state and district values of the two
      multiselects select exactly the outlets the choices keep: every outlet's
      state is an option, and its district is an option once its state is chosen. */
  lemma SelectedMeansKept(df: seq<Outlet>, stateChoice: Choice, districtChoice: Choice)
    ensures var state := Multiselect(StateOptions(df), stateChoice);
      var district := Multiselect(DistrictOptions(df, state), districtChoice);
      forall o :: o in df ==> (Selected(state, district)(o) <==> ChoicesKeep(stateChoice, districtChoice)(o))
  {
    var state := Multiselect(StateOptions(df), stateChoice);
    var options := DistrictOptions(df, state);
    var district := Multiselect(options, districtChoice);
    forall o | o in df ensures Selected(state, district)(o) <==> ChoicesKeep(stateChoice, districtChoice)(o) {
      var i :| 0 <= i < |df| && df[i] == o;
      assert o.state in StateOptions(df);
      MultiselectKeeps(StateOptions(df), stateChoice, o.state);
      if o.state in state {
        assert o.district in options;
        MultiselectKeeps(options, districtChoice, o.district);
      }
    }
  }

  /** `df[df["state"].isin(state) & df["district"].isin(district)]`: the outlets
      whose state and district are both chosen, all of them, in table order.
      Choosing no state selects nothing. */
  function SelectRows(df: seq<Outlet>, state: seq<string>, district: seq<string>): (r: seq<Outlet>)
    ensures IsSelection(r, df, Selected(state, district))
    ensures forall o :: o in r <==> o in df && o.state in state && o.district in district
    ensures |state| == 0 ==> r == []
  {
    var r := Filter(df, Selected(state, district));
    if |state| == 0 then EmptySelection(r, df, Selected(state, district)); r else r
  }

  /** With both filters left at their defaults, every outlet is selected. */
  lemma {:induction false} DefaultSelectsEverything(df: seq<Outlet>)
    ensures var state := Multiselect(StateOptions(df), Untouched);
      var district := Multiselect(DistrictOptions(df, state), Untouched);
      SelectRows(df, state, district) == df
  {
    var state := StateOptions(df);
    var district := DistrictOptions(df, state);
    forall o | o in df ensures Selected(state, district)(o) {
      var i :| 0 <= i < |df| && df[i] == o;
      assert o.state in state;
    }
    FilterAll(df, Selected(state, district));
  }

  // ---------------------------------------------------------------------
  // Point geometries
  // ---------------------------------------------------------------------

  /** `gpd.GeoDataFrame(df_selection, geometry=points_from_xy(longitude, latitude))`:
      each outlet with the point whose x is its longitude and y its latitude. */
  function GeoFrame(dfSelection: seq<Outlet>, ops: GeometryOps): (r: seq<GeoOutlet>)
    ensures Outlets(r) == dfSelection
    ensures forall i :: 0 <= i < |r| ==>
      r[i].geometry == ops.pointFromXY(dfSelection[i].longitude, dfSelection[i].latitude)
  {
    var r := seq(|dfSelection|, i requires 0 <= i < |dfSelection| =>
      GeoOutlet(dfSelection[i], ops.pointFromXY(dfSelection[i].longitude, dfSelection[i].latitude)));
    assert Outlets(r) == dfSelection;
    r
  }

  function HasGeometry(g: GeoOutlet): bool { g.geometry.Some? }

  /** `df_gdf[~df_gdf.geometry.isna()]`: the rows with a geometry, in order. */
  function DropMissingGeometry(gdf: seq<GeoOutlet>): (r: seq<GeoOutlet>)
    ensures IsSelection(r, gdf, HasGeometry)
    ensures forall g :: g in r <==> g in gdf && g.geometry.Some?
  {
    Filter(gdf, HasGeometry)
  }

  /** Leaving rows out of a GeoDataFrame leaves the same outlets out of its outlet table. */
  lemma {:induction false} OutletsSubsequence(r: seq<GeoOutlet>, s: seq<GeoOutlet>)
    requires SubsequenceOf(r, s)
    ensures SubsequenceOf(Outlets(r), Outlets(s))
    decreases |s|
  {
    if r == [] {
    } else if r[0] == s[0] && SubsequenceOf(r[1..], s[1..]) {
      OutletsSubsequence(r[1..], s[1..]);
      assert Outlets(r)[1..] == Outlets(r[1..]);
      assert Outlets(s)[1..] == Outlets(s[1..]);
    } else {
      OutletsSubsequence(r, s[1..]);
      assert Outlets(s)[1..] == Outlets(s[1..]);
    }
  }

  /** `df_gdf`: selected outlets that have a point, each with the point built
      from its own coordinates. */
  function DfGdf(dfSelection: seq<Outlet>, ops: GeometryOps): (r: seq<GeoOutlet>)
    ensures forall g :: g in r ==>
      && g.outlet in dfSelection && g.geometry.Some?
      && g.geometry == ops.pointFromXY(g.outlet.longitude, g.outlet.latitude)
    ensures forall i :: 0 <= i < |dfSelection| && ops.pointFromXY(dfSelection[i].longitude, dfSelection[i].latitude).Some? ==>
      GeoOutlet(dfSelection[i], ops.pointFromXY(dfSelection[i].longitude, dfSelection[i].latitude)) in r
  {
    var gdf := GeoFrame(dfSelection, ops);
    var r := DropMissingGeometry(gdf);
    assert forall i :: 0 <= i < |dfSelection| ==>
      gdf[i] == GeoOutlet(dfSelection[i], ops.pointFromXY(dfSelection[i].longitude, dfSelection[i].latitude)) by {
      forall i | 0 <= i < |dfSelection|
        ensures gdf[i] == GeoOutlet(dfSelection[i], ops.pointFromXY(dfSelection[i].longitude, dfSelection[i].latitude)) {
        assert Outlets(gdf)[i] == gdf[i].outlet;
      }
    }
    assert forall g :: g in r ==>
      g.outlet in dfSelection && g.geometry == ops.pointFromXY(g.outlet.longitude, g.outlet.latitude) by {
      forall g | g in r
        ensures g.outlet in dfSelection && g.geometry == ops.pointFromXY(g.outlet.longitude, g.outlet.latitude) {
        var i :| 0 <= i < |gdf| && gdf[i] == g;
        assert Outlets(gdf)[i] == g.outlet;
      }
    }
    r
  }

  /** The outlets of `df_gdf` keep their selection order. */
  lemma DfGdfKeepsOrder(dfSelection: seq<Outlet>, ops: GeometryOps)
    ensures SubsequenceOf(Outlets(DfGdf(dfSelection, ops)), dfSelection)
  {
    OutletsSubsequence(DfGdf(dfSelection, ops), GeoFrame(dfSelection, ops));
  }

  /** When a missing coordinate gives a missing point, no outlet whose latitude
      or longitude failed to parse reaches the maps. */
  lemma NoMissingCoordinateOnMap(dfSelection: seq<Outlet>, ops: GeometryOps)
    requires MissingCoordinatesGiveNoPoint(ops)
    ensures forall g :: g in DfGdf(dfSelection, ops) ==> !g.outlet.latitude.NaN? && !g.outlet.longitude.NaN?
  {
  }

  // ---------------------------------------------------------------------
  // One run of the script
  // ---------------------------------------------------------------------

  /** `df_selection` for the raw outlet table and the two sidebar choices: the
      coerced outlets whose state and district both choices keep, in table
      order; with both filters at their defaults, every outlet. */
  function DfSelection(df: seq<Outlet>, parse: Parser, stateChoice: Choice, districtChoice: Choice)
    : (r: seq<Outlet>)
    ensures forall o :: o in r ==> o in CoerceCoordinates(df, parse)
    ensures IsSelection(r, CoerceCoordinates(df, parse), ChoicesKeep(stateChoice, districtChoice))
    ensures forall o :: o in r <==>
      o in CoerceCoordinates(df, parse) && Keeps(stateChoice, o.state) && Keeps(districtChoice, o.district)
    ensures stateChoice.Untouched? && districtChoice.Untouched? ==> r == CoerceCoordinates(df, parse)
  {
    var coerced := CoerceCoordinates(df, parse);
    var state := Multiselect(StateOptions(coerced), stateChoice);
    var district := Multiselect(DistrictOptions(coerced, state), districtChoice);
    SelectedMeansKept(coerced, stateChoice, districtChoice);
    SelectionSameMask(SelectRows(coerced, state, district), coerced,
                      Selected(state, district), ChoicesKeep(stateChoice, districtChoice));
    if stateChoice.Untouched? && districtChoice.Untouched? then
      DefaultSelectsEverything(coerced);
      SelectRows(coerced, state, district)
    else
      SelectRows(coerced, state, district)
  }

  /** Everything one run shows: the population map, both bar charts, the density table. */
  datatype DashboardRun = DashboardRun(
    populationMap: PopulationMapView,
    byState: seq<KeyCount>,
    topDistricts: seq<KeyCount>,
    density: seq<DensityRow>)

  /** `app.py` from the loaded tables on. The population map scales the shared
      population table before the density table reads it, so the density table
      sees every population multiplied by 1000 exactly once. */
  method RunDashboard(df: seq<Outlet>, populationDf: PopulationFrame, gadm: seq<StateBoundary>,
                      districtGdf: seq<DistrictBoundary>, stateChoice: Choice, districtChoice: Choice,
                      zoomState: string, ops: GeometryOps, parse: Parser)
    returns (run: DashboardRun)
    requires populationDf.Valid()
    modifies populationDf
    ensures populationDf.Valid()
    ensures populationDf.district == old(populationDf.district)
    ensures populationDf.population == ToNumericColumn(ScaleColumn(old(populationDf.population)), parse)
    ensures forall i :: 0 <= i < |populationDf.population| && old(populationDf.population)[i].Num? ==>
              populationDf.population[i] == Num(1000.0 * old(populationDf.population)[i].v)
    ensures populationDf.hasPopulationMil
    ensures |populationDf.populationMil| == |populationDf.population|
    ensures forall i :: 0 <= i < |populationDf.population| ==>
              populationDf.populationMil[i] == PopulationMil(populationDf.population[i])
    ensures var dfSelection := DfSelection(df, parse, stateChoice, districtChoice);
      && run.populationMap == PopulationView(DfGdf(dfSelection, ops), gadm, districtGdf,
           RecordsOf(populationDf.district, ScaleColumn(old(populationDf.population))), zoomState, ops)
      && run.byState == BarState(dfSelection)
      && run.topDistricts == BarRegion(dfSelection)
      && run.density == DensityTable(Districts(dfSelection), populationDf.Records())
  {
    ghost var population0 := populationDf.population;
    var coerced := CoerceCoordinates(df, parse);
    var state := Multiselect(StateOptions(coerced), stateChoice);
    var districtOptions := DistrictOptions(coerced, state);
    var district := Multiselect(districtOptions, districtChoice);
    var dfSelection := SelectRows(coerced, state, district);
    var dfGdf := DfGdf(dfSelection, ops);

    var _, populationMap := MapPlotFilterPopulation(dfGdf, gadm, districtGdf, populationDf, zoomState, ops);
    var byState := BarState(dfSelection);
    var topDistricts := BarRegion(dfSelection);
    var density := SummaryDensity(dfSelection, populationDf, parse);
    forall i | 0 <= i < |population0| && population0[i].Num?
      ensures populationDf.population[i] == Num(1000.0 * population0[i].v)
    {
      assert ScaleColumn(population0)[i] == Num(1000.0 * population0[i].v);
    }
    run := DashboardRun(populationMap, byState, topDistricts, density);
  }
}
