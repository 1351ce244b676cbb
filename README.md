# Zus Coffee outlet dashboard: a Dafny model of its data pipeline

The dashboard is a Streamlit script, `app.py`, together with a drawing
module, `visuals.py`. It loads four tables:

- the coffee outlets, each with a name, state, district and coordinates;
- the state boundaries (`NAME_1`);
- the district boundaries (`NAM`);
- the district populations, in thousands.

The script first coerces the outlet coordinates to numbers. A sidebar lets the
user pick states, and then districts among those the picked states contain.
The outlets whose state and district are both picked form `df_selection`.
From that selection the script builds point geometries, draws a population
map that can zoom to one state, draws two bar charts (outlets per state, and
the top five districts), and shows a table of outlets per 100,000 residents
for each district.

This project models the data side of that pipeline on exact arithmetic:
- `real` stands in for floating point.
- A cell is a `Value`: a finite number, `+inf`, `-inf`, NaN (missing), or a
  string left in an object column.
- Geometry is opaque. `points_from_xy`, `intersects` and `unary_union` are
  function parameters, collected in `GeometryOps`.
- The population table is the one object the script shares between two
  functions, and both assign its columns in place. It is a class,
  `Tables.PopulationFrame`. The two methods that update it,
  `Visuals.MapPlotFilterPopulation` and `Visuals.SummaryDensity`, state each
  column's new value.

Modules:
- `Frames` (`frames.dfy`): the pandas operations used. These are
  `to_numeric(errors='coerce')`, `* 1000`, `fillna(0)`, numpy's half-to-even
  `round`, `unique`, boolean-mask selection, `value_counts`, `nlargest`, stable
  descending `sort_values` (`+inf` first, then numbers, then `-inf`, missing
  values last) and a left
  `merge` on a string key.
- `Tables` (`tables.dfy`): the four tables and the geometry interface.
- `Visuals` (`visuals.dfy`): `bar_state`, `bar_region`, the region filter of
  `map_plot_filter`, the merge and filter of `map_plot_filter_population`,
  and `summary_density`.
- `App` (`app.dfy`): coordinate coercion, the sidebar filters, `df_selection`,
  `df_gdf`, and one run of the script in its call order.

Some behaviour of the code differs from the written design of the system. The
model follows the code.
- The design says a state name absent from the boundary table fails with a
  region-not-found error. In the code the zoom drop-down offers only
  "All States" and the boundary table's own names, so no such state can be
  chosen. For such a name the three filtered tables would be empty
  (`Visuals.UnknownStateSelectsNothing`). Setting the axis limits from their
  empty bounds at visuals.py:270-272 would then fail. That step draws only
  and is not modelled.
- The design says a district without a population row gets a missing density.
  The code's `fillna(0)` gives that row zeros for population, population in
  millions and density (`Visuals.DensityRowOf`).
- A population that rounds to 0.000 million gives `+inf` density in the code
  (or NaN with no outlets, which `fillna` turns into 0). It does not give a
  missing value, and `+inf` rows sort first (`Visuals.DensityPer100k`).
- The design joins outlet counts onto the population table. The code joins
  population onto the outlet counts, so a district without outlets has no row
  (`Visuals.DensityTableCovers`).
- The population is scaled by 1000 inside the map function, on the caller's
  table. The density table reads the same table afterwards, so it sees the
  scaled figures (`App.RunDashboard`).
- A population cell that is still a string when it is scaled is repeated 1000
  times (Python's `str * int`) before `to_numeric` parses it
  (`Frames.Times1000`).

## Model

| member | source | states |
|---|---|---|
| Frames.ToNumeric | app.py:12-13 | a coerced cell is numeric; a number is unchanged; a string becomes the finite number, `+inf` or `-inf` it parses to, or NaN exactly when it does not parse |
| Frames.ToNumericColumn | visuals.py:297 | coercing a column keeps its length and coerces every cell, so the column is numeric |
| Frames.ToNumericColumnIdempotent | visuals.py:297 | coercing an already coerced column changes nothing |
| Frames.Times1000 | visuals.py:202 | `* 1000` keeps a number a number and multiplies it by 1000, leaves +inf, -inf and NaN as they are, and writes a string 1000 times: 1000 times as long, beginning with the string and repeating every string length |
| Frames.ScaleColumn | visuals.py:202 | scaling a column keeps its length and scales every cell |
| Frames.Times1000TwiceDiffers | visuals.py:202 | scaling twice gives the same cell as scaling once only for 0, +inf, -inf, NaN and the empty string, so the in-place scaling is not idempotent |
| Frames.Times1000Twice | visuals.py:202 | two scalings multiply a number by one million |
| Frames.FillNa | visuals.py:318 | `fillna(0)` leaves no NaN, replaces NaN by 0 and leaves every other cell alone |
| Frames.RoundHalfEven | visuals.py:315 | `round(0)` gives an integer within 1/2 of its argument, the even one on a tie |
| Frames.Round3 | visuals.py:298 | `round(3)` gives a multiple of 1/1000 within 1/2000 of its argument |
| Frames.Insert | visuals.py:318 | inserting into a sorted column adds exactly that element |
| Frames.InsertSorted | visuals.py:318 | insertion keeps a column sorted in descending order |
| Frames.SortDesc | visuals.py:318 | `sort_values(ascending=False)` returns a permutation of its input in descending order: +inf first, numbers by value, then -inf, missing values last |
| Frames.SortSum | visuals.py:318 | sorting does not change the sum of a column |
| Frames.SortDistinctBy | visuals.py:318 | sorting keeps a key column free of duplicates |
| Frames.Distinct | app.py:22 | `unique()` lists every value of the column, each once, and nothing else |
| Frames.Filter | app.py:37-39 | `df[mask]` keeps every row the mask holds for, once per occurrence, in table order, and no other row |
| Frames.EmptySelection | visuals.py:239-242 | a mask that fails on every row selects no row |
| Frames.FilterAll | app.py:37-39 | a mask that holds on every row selects the whole table |
| Frames.Take | visuals.py:54 | `nlargest(5)` on an already descending column is its first five entries, or all of them when there are fewer |
| Frames.CountsOver | visuals.py:24 | each listed value is paired with its number of occurrences |
| Frames.TallySum | visuals.py:24 | the counts of all distinct values add up to the number of rows |
| Frames.ValueCounts | visuals.py:24 | `value_counts` is a permutation of the (value, count) tally, in descending count order |
| Frames.ValueCountsRowOrigin | visuals.py:24 | each row of `value_counts` is a value of the column with its number of occurrences, at least one |
| Frames.ValueCountsCovers | visuals.py:24 | each value of the column has a row in `value_counts` |
| Frames.ValueCountsRows | visuals.py:24 | `value_counts` has one row per distinct value, no value twice, and the right count on each row |
| Frames.ValueCountsSum | visuals.py:24 | the counts of `value_counts` add up to the number of rows |
| Frames.ValueCountsDescending | visuals.py:24 | `value_counts` lists the largest count first |
| Frames.Matches | visuals.py:205-210 | the right rows merged onto a key are exactly those with that key, each as often as on the right, in right-table order |
| Frames.MatchesUnique | visuals.py:205-210 | with unique right keys a key has at most one match |
| Frames.LeftJoin | visuals.py:205-210 | a left merge has at least as many rows as its left side; every row holds a left row; a matched right row has the same key; an unmatched row has no right row with that key |
| Frames.LeftJoinCount | visuals.py:205-210 | a left row and a right row with the same key are paired as many times as the left row occurs times the right row occurs, so every matching right row yields a row |
| Frames.LeftJoinUnmatchedCount | visuals.py:205-210 | a left row without a matching right row is kept, with no right part, once per occurrence |
| Frames.LeftJoinKeepsMatches | visuals.py:205-210 | every left row appears paired with every right row of its key |
| Frames.LeftJoinKeepsLeft | visuals.py:205-210 | a left merge drops no left row |
| Frames.FirstMatch | visuals.py:310 | the right row for a key, if there is one, has that key |
| Frames.LeftJoinUnique | visuals.py:205-210 | with unique right keys the merge has one row per left row, in order, each with the unique match for its key |
| Tables.PopulationFrame.constructor | app.py:8 | the loaded population table has its district and population columns, and no `population (mil)` column yet |
| Tables.PopulationFrame.Records | visuals.py:205-210 | the table seen row by row: row i pairs the i-th district with the i-th population |
| Visuals.BarState | visuals.py:23-27 | `bar_state` names no state twice and lists the largest count first |
| Visuals.BarStateRows | visuals.py:23-27 | `bar_state` has one row per state of the selection, no state twice, each with its number of outlets, at least one |
| Visuals.BarStateTotals | visuals.py:23-27 | the `bar_state` counts add up to the number of selected outlets and come in descending order |
| Visuals.BarRegion | visuals.py:52-57 | `bar_region` has at most five rows and is a prefix of the district `value_counts` |
| Visuals.BarRegionRows | visuals.py:52-57 | `bar_region` shows five districts, or all of them when there are fewer, no district twice, in descending count order, each with its outlet count |
| Visuals.BarRegionIsTop | visuals.py:52-57 | no district left out of `bar_region` has more outlets than one that is shown |
| Visuals.StateBoundaryRows | visuals.py:157 | the boundary rows of the zoomed state are those named after it, in order |
| Visuals.MapPlotFilter | visuals.py:149-165 | "All States" draws every table unfiltered; another state draws its boundary rows and, in order, exactly the outlets and districts that intersect their union |
| Visuals.StateRegion | visuals.py:160 | when the union is exact, a shape meets `unary_union` of the zoomed state exactly when it meets one of the boundary rows named after that state |
| Visuals.RegionByBoundaryRows | visuals.py:157-160 | the same fact for one shape, about the union of the selected boundary rows' geometries |
| Visuals.UnknownStateRegion | visuals.py:239-242 | the union for a state no boundary row names meets no shape |
| Visuals.UnknownStateSelectsNothing | visuals.py:155-165 | for a state no boundary row names, the boundary rows, outlets and districts selected are all empty |
| Visuals.DistrictsWithPopulation | visuals.py:205-210 | the district/population merge keeps every boundary row, pairs it with every population row of its name, and pairs a matched row only with such a row; an unmatched one carries none |
| Visuals.DistrictsWithPopulationCount | visuals.py:205-210 | a boundary is merged once with each population row of its name per occurrence of both, and an unmatched boundary appears once per occurrence with no population |
| Visuals.DistrictsWithPopulationUnique | visuals.py:205-210 | with unique population names the merge keeps the row count, and row i is boundary i with its population row |
| Visuals.PopulationView | visuals.py:215-247 | "All States" draws the whole merge and every outlet; another state draws, in order, exactly the merged districts and outlets that intersect its union |
| Visuals.MapPlotFilterPopulation | visuals.py:183-291 | the call multiplies the caller's population column by 1000 in place and changes nothing else; it returns the zoom choice and the tables drawn from the scaled population |
| Visuals.PopulationMil | visuals.py:298 | `population (mil)` is within 1/2000 of population / 1,000,000 and a multiple of 1/1000; NaN, +inf and -inf stay as they are |
| Visuals.DensityPer100k | visuals.py:315 | density is a whole number within 1/2 of count / pop_mil / 10; a zero population gives +inf (NaN with no outlets); an infinite one, of either sign, gives 0; a missing one gives NaN |
| Visuals.PopulationMilExact | visuals.py:298 | a whole number of thousands has an exact value in millions |
| Visuals.DensityIsPer100k | visuals.py:315 | for such a population, density is count / (population / 100,000), rounded |
| Visuals.DensityExample | visuals.py:298-315 | 4 outlets and 200,000 residents give 0.2 million and a density of 2 |
| Visuals.DensityRowOf | visuals.py:310-318 | a row keeps its district and outlet count and has no NaN left; a district with no population row, or a missing population, gets 0 population, 0 millions and 0 density; an infinite population stays, with infinite millions and density 0; a finite one gets that population and the two derived values |
| Visuals.DensityRows | visuals.py:313-315 | every merged entry gives its density row, in order |
| Visuals.MergedCounts | visuals.py:310 | the merge of outlet counts with a coerced population table has numeric populations |
| Visuals.DensityTable | visuals.py:318 | the table is in descending density order and has no NaN left |
| Visuals.MergedRowsUnique | visuals.py:302-315 | with unique population names there is one merged row per counted district, in order, with that district's population row |
| Visuals.MergedRowDistricts | visuals.py:302-310 | the merged rows carry the districts and counts of `value_counts`, in order |
| Visuals.DensityTableDistinct | visuals.py:302-324 | with unique population names the table has one row per distinct district of the selection and no district twice |
| Visuals.MergedRowCounts | visuals.py:302-310 | whatever the population table, each merged entry holds a counted district with its count, and every counted district has an entry |
| Visuals.MergedEntryHasRow | visuals.py:310-318 | each merged entry gives a row of the table with its district |
| Visuals.DistrictHasRow | visuals.py:302-318 | every district of the selection has a row, whatever the population table |
| Visuals.DensityTableCounts | visuals.py:302-313 | whatever the population table, each row carries its district's number of selected outlets, at least one |
| Visuals.DensityTableCovers | visuals.py:302-324 | whatever the population table, a district has a row exactly when a selected outlet lies in it |
| Visuals.DensityTableRowValues | visuals.py:302-324 | with unique population names each row is built from its district's outlet count and population row, with zeros when there is none |
| Visuals.DensityTableTotal | visuals.py:302-324 | with unique population names the Total Store column adds up to the number of selected outlets |
| Visuals.SummaryDensity | visuals.py:293-324 | the call coerces the caller's population column in place, adds its `population (mil)` column, and returns the density table for the selection's districts |
| App.CoerceCoordinates | app.py:12-13 | latitude and longitude become numeric, each the coerced value of its own cell (the parsed number for a well-formed string), a malformed entry becomes NaN rather than an error, and all other columns stay |
| App.CoerceCoordinatesIdempotent | app.py:12-13 | coercing the coordinates twice is the same as once |
| App.Multiselect | app.py:20-24 | a multiselect left alone returns all its options; otherwise it returns the kept options, in option order, and nothing else |
| App.StateOptions | app.py:22-23 | the state options are the states of the outlet table, each once |
| App.DistrictOptions | app.py:26-29 | with some state chosen, the district options are every district of an outlet in a chosen state, each once; with none, every district |
| App.SelectRows | app.py:37-39 | `df_selection` is the outlets whose state and district are both chosen, all of them, in table order; choosing no state selects nothing |
| App.SelectedMeansKept | app.py:20-39 | on the outlet table, the two multiselect values select exactly the outlets whose state and district the user's choices keep |
| App.DefaultSelectsEverything | app.py:20-39 | with both filters at their defaults every outlet is selected |
| App.GeoFrame | app.py:42-44 | each selected outlet gets the point with x its longitude and y its latitude |
| App.DropMissingGeometry | app.py:45 | `df_gdf` keeps every row with a geometry, in order, and no row without one |
| App.OutletsSubsequence | app.py:45 | dropping rows of a GeoDataFrame keeps its outlets in order |
| App.DfGdf | app.py:42-45 | every row of `df_gdf` is a selected outlet with a point built from its own longitude and latitude, and every selected outlet whose point is not missing is kept |
| App.DfGdfKeepsOrder | app.py:42-45 | the outlets of `df_gdf` keep their selection order |
| App.NoMissingCoordinateOnMap | app.py:42-45 | when a missing coordinate gives a missing point, no outlet with a missing coordinate reaches the maps |
| App.DfSelection | app.py:12-39 | the selection is the coerced outlets whose state and district both choices keep, each as often as in the table, in table order; with both filters at their defaults it is the whole coerced table |
| App.RunDashboard | app.py:49-62 | one run scales every population by 1000 before the density table reads it, exactly once, and leaves the caller's table with its `population (mil)` column; the map, bar charts and density table are those of the selection and of the scaled population table |

## Left out

- Drawing: figures, colours, colour normalisation, markers, legends, titles
  and axis bounds are not modelled. The functions return the rows they would
  draw.
- Widget text: subheaders, `st.info` counts and the analysis prose after the
  density table are left out. They show values but compute none.
- `map_plot` and `map_folium` are not modelled. They only draw.
- The zoom drop-down options (`All States` followed by the sorted state names)
  are left out. The chosen state is a parameter.
- The `show_population` checkbox is left out. It only chooses how the districts
  are drawn, not which are drawn.
- File loading (`read_csv`, `read_file`) is left out. The four tables are
  parameters, and the population table is given as a `PopulationFrame`.
- Geometry is not modelled. `points_from_xy`, `intersects` and `unary_union`
  are opaque functions. Some members take a hypothesis about them as a
  precondition:
  - `Visuals.RegionByBoundaryRows`, `Visuals.UnknownStateRegion` and
    `Visuals.UnknownStateSelectsNothing` assume the union intersects exactly
    what its parts intersect. `Visuals.StateRegion` states its property only
    under that same hypothesis.
  - `App.NoMissingCoordinateOnMap` assumes a missing coordinate gives a
    missing point. The geometry library may not meet this: `points_from_xy`
    may build a point with NaN coordinates, which `isna()` does not treat as
    missing, and the drop at app.py:45 would then keep that outlet.
- Floating point is not modelled. Numbers are exact reals, so rounding error,
  overflow and the sign of zero are absent.
- Multiselect: the value is modelled as kept options in option order, not in
  the order the user clicked. Only membership matters downstream.
- The string parser used by `to_numeric` is the parameter `parse`. It returns a
  finite number, `+inf` or `-inf`, or nothing for a string that is not a number.
- Frames.ValueCountsSum, Visuals.BarStateTotals, Visuals.DensityTableTotal: the
  model's key columns (outlet `state` and `district`, boundary `NAM`, population
  `district`) are plain strings and are never missing. In pandas a missing key
  is dropped by `value_counts` but kept by `unique`, `isin` and `merge`. So an
  outlet with a missing district could be selected yet counted nowhere, and
  these totals would then fall short of the number of selected outlets.
- Frames.SortDesc: ties keep their input order, a stable sort. The contract
  states only the descending order and the permutation, since pandas does not
  promise an order for ties in `value_counts` or `sort_values`.
- Visuals.DensityTableDistinct, Visuals.DensityTableRowValues,
  Visuals.DensityTableTotal: assume the population table names each district
  at most once. With several rows for one name the merge repeats the
  district once per row, as `Frames.LeftJoinCount` states.
- Visuals.SummaryDensity: the `astype(int)` on `store_count` changes nothing,
  since counts are whole numbers already, so it is not modelled as a step.
- The fixed output column order is the field order of `Visuals.DensityRow`,
  listed in `Visuals.DensityColumns`.
