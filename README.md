# GDP-PY forecasting core in Dafny

This project models the data logic of GDP-PY, a dashboard that forecasts
India's GDP with a pre-fitted one-feature linear regression
(GDP of year t = intercept + slope * GDP of year t-1). It covers three parts:

- **Database** (`database.dfy`, database.py): `LocalDatabase.loadData`. It
  melts the wide World Bank table (four identifier columns, then one column
  per year) into (Year, GDP) rows. It parses the year labels with format `%Y`
  and drops the identifier columns. With `lag=True` it adds `GDP_L1`, the
  GDP column shifted down one row, and drops every row that has a missing
  value.
- **Business** (`business.dfy`, business.py): the regression as
  `LinearModel(intercept, slope)`, and the autoregressive rollout
  `Model.makeForecast`. This is a loop that starts from the hard-coded 2023
  value 3,353,470,000,000 and feeds each prediction back in. The module also
  has the in-sample diagnostics `Model.predict`, plus `get_fitted_values`,
  `intercept` and `coef`.
- **Display** (`display.dfy`, display.py): the data assembly of
  `forecast_primary_chart`, `forecast_bar_chart` and `downloadData`. This
  covers the horizon `range(1, years)`, the "Type" labels, the concatenation
  of actual and forecast rows, and the `years > 17` warning.

`wrappers.dfy` holds the `Option` type (an empty CSV field, NaN) and the
`Result` type (the exceptions `loadData` raises).

In the source, `LocalDatabase`, `Model` and `PresentationComponents` set
their fields once in `__init__` and never reassign them. So each is modelled
as an immutable datatype with member functions and methods. `makeForecast` is
a loop in the source and is a `method` with loop invariants here. It is
proved equal to `Rollout`, a reference definition indexed by the number of
predictor applications. It has no `modifies` clause, so it provably leaves
the model and the database unchanged.

Some behaviours of the code that the model keeps as they are:

- `loadData` does not sort by year. It keeps the CSV's column order.
- `loadData` does not reject duplicate years. Duplicate headers are renamed
  by `read_csv` (for example `2000.1`), and such a name then fails the `%Y`
  parse. The model states this as the `DistinctNames` assumption plus the
  `BadYearLabel` error.
- With fewer than two years, `loadData(lag=True)` raises no error. It
  returns an empty table. `predict()` then raises, because the regression's
  `predict` needs at least one sample; the model returns `NoSamples`.
- The seed value and seed year are literals in `makeForecast`, not
  parameters.
- The display methods ask for `range(1, years)`, so they produce `years - 1`
  forecast rows, one fewer than their docstrings describe: `years = 10`
  forecasts 2024 to 2032, not 2033. The app passes `slider + 1`, so the
  slider value is the number of rows, and the `years > 17` warning appears
  at exactly 17 forecast rows (`Display.SliderHorizon`,
  `Display.WarningFromSeventeenRows`).
- `forecast_primary_chart` shows the warning or the information message only
  after the data is assembled, so when loading fails neither is shown.

## Model

| member | source | states |
|---|---|---|
| `Database.YearLabelRoundTrip` | database.py:81 | every year 0..9999 has a four-digit label that the `%Y` parse maps back to that year |
| `Database.YearLabelUnique` | database.py:81 | a label parses if and only if it is exactly four digits, and it is then the only label of its year |
| `Database.ParseYearInjective` | database.py:81 | two different parseable labels give two different years |
| `Database.ValueColumns` | database.py:73-78 | melt's value columns are exactly the non-identifier columns of the raw table |
| `Database.ValueColumnsAppend` | database.py:73-78 | melt keeps the CSV's column order: the value columns of a concatenation are the concatenation of the value columns |
| `Database.ValueColumnsOfYears` | database.py:73-78 | no identifier column has a year label, so a table of year columns keeps all its columns, in order |
| `Database.ValueColumnsDistinct` | database.py:73-78 | melt introduces no repeated header |
| `Database.ParseYear` | database.py:81 | a label parses if and only if it is exactly four digits, and then to a year between 0 and 9999 |
| `Database.ParseYears` | database.py:81 | the year conversion succeeds if and only if every label is a four-digit year; it then gives one row per column, in order, with that column's cell as GDP; otherwise it fails on the first bad label |
| `Database.Melt` | database.py:73-82 | fails with the missing-identifier error when an identifier column is absent, and otherwise exactly when some non-identifier label is not a four-digit year; on success one row per value column, in column order, with that column's parsed year and its cell |
| `Database.MeltYearsDistinct` | database.py:73-82 | with distinct headers, the melted table has no two rows with the same year |
| `Database.WithLag` | database.py:86 | the shifted table has one row per melted row, each keeping its year and GDP; GDP_L1 is missing in the first row and is row i-1's GDP in row i |
| `Database.Shift` | database.py:86 | `shift(1)` keeps the length, makes the first value missing, and moves every other value down one row |
| `Database.DropNa` | database.py:87 | `dropna` keeps every complete row and only complete rows, and never lengthens the table |
| `Database.DropNaAppend` | database.py:87 | `dropna` works row by row and keeps the order: the result for a concatenation is the concatenation of the results |
| `Database.DropNaSingle` | database.py:87 | a single row is kept, with its values unwrapped, exactly when neither GDP nor GDP_L1 is missing |
| `Database.DropNaAllComplete` | database.py:87 | with no missing value anywhere, `dropna` keeps every row in place |
| `Database.WithLagRow` | database.py:86 | after `shift(1)`, row i >= 1 holds row i's year and GDP with row i-1's GDP as GDP_L1 |
| `Database.LagFrame` | database.py:86-87 | the lagged table is never longer than the melted table, and strictly shorter when the melted table is not empty |
| `Database.LagAlignment` | database.py:86-87 | every lagged row comes from a melted row i >= 1, with GDP_L1 equal to row i-1's GDP; every such pair with both values present survives |
| `Database.LagDropsFirstRow` | database.py:86-87 | the first melted row never survives, so the lagged table has at most k-1 rows |
| `Database.LagOmitsFirstYear` | database.py:86-87 | with distinct years, the first year never appears in the lagged table |
| `Database.LagNoMissing` | database.py:86-87 | with no missing value, k melted rows give exactly k-1 lagged rows, row j pairing year j+1's GDP with year j's |
| `Database.LocalDatabase.LoadData` | database.py:52-94 | fails exactly when an identifier column is missing or a year label is not four digits; otherwise it gives the GDP column alone (lag off) or the shifted and dropna'd table with GDP_L1 (lag on) |
| `Database.LoadPlainRows` | database.py:73-82 | without the lag, one row per year column, in column order, carrying that column's cell unchanged (missing values kept) |
| `Database.LoadDataExample` | database.py:73-94 | years 2020..2023 with values 100, 110, 121, 133.1 give three lagged rows, the last (2023, 133.1, 121) |
| `Business.LinearModel.Predict` | business.py:62 | the regression's prediction intercept + slope * x; its meaning is stated by `Business.Model.Intercept`, `Business.Model.Coef` and `Business.Model.FittedLine` |
| `Business.Rollout` | business.py:48-70 | n rows; years seedYear+1 .. seedYear+n; the first value is the prediction from the seed; each later value is the prediction from the previous one |
| `Business.Model.MakeForecast` | business.py:19-83 | the loop yields exactly `Rollout` from 3,353,470,000,000 in 2023, with one row per element of `years`; it depends only on the length of `years` |
| `Business.RolloutPrefix` | business.py:57-70 | a longer horizon extends a shorter one: the first k rows do not depend on the horizon |
| `Business.IterateClosedForm` | business.py:59-66 | k steps from x give slope^k * x + intercept * (1 + slope + ... + slope^(k-1)) |
| `Business.IterateFromZero` | business.py:59-66 | from a zero seed, k steps accumulate intercept * (1 + slope + ... + slope^(k-1)) |
| `Business.IterateSeedPart` | business.py:59-66 | the seed enters k steps only as slope^k * seed, added to the zero-seed run |
| `Business.RolloutClosedForm` | business.py:59-70 | each forecast row in that closed form |
| `Business.RolloutClosedFormAt` | business.py:59-70 | forecast row i in that closed form, with exponent i+1 |
| `Business.IterateSeedError` | business.py:59-66 | a difference d between two seeds becomes slope^k * d after k steps: the error compounds |
| `Business.RolloutSeedError` | business.py:59-70 | two forecasts from different seeds differ, in row i, by slope^(i+1) times the seed gap |
| `Business.RolloutSeedErrorAt` | business.py:59-70 | the same gap for one row i |
| `Business.PredictMonotone` | business.py:62 | with a non-negative slope, a larger input never gives a smaller prediction |
| `Business.IterateNondecreasing` | business.py:59-66 | with a non-negative slope and a first step that does not fall, no later step falls |
| `Business.RolloutNondecreasing` | business.py:59-70 | under the same condition, the forecast values never decrease along the horizon |
| `Business.RolloutExample` | business.py:57-70 | intercept 0.5, slope 2, seed 10: three steps give 20.5, 41.5 and 83.5 in the next three years |
| `Business.Diagnostics` | business.py:116-120 | one diagnostics row per lagged row, with GDP and GDP_L1 copied and the prediction made from GDP_L1 |
| `Business.FollowsModelIffIterate` | business.py:59-66 | a series in which every value is the prediction from the one before is exactly the rollout of its first value, and conversely |
| `Business.PerfectFitIffFollows` | business.py:109-120 | with no missing value, the diagnostics match every actual value exactly when the history follows the model year by year |
| `Business.PerfectFitIffRollout` | business.py:109-120 | with no missing value, a perfect in-sample fit holds if and only if the history is the rollout of its first value |
| `Business.Model.Predict` | business.py:86-122 | raises exactly when `loadData(lag=True)` raises (with that error) or gives no row (the regression rejects an empty input); otherwise one row per lagged row, GDP and GDP_L1 copied, `Predicted GDP` the prediction from GDP_L1 |
| `Business.Model.GetFittedValues` | business.py:241-242 | returns the database's `loadData(lag)` with no further change |
| `Business.Model.Intercept` | business.py:244-259 | the intercept is the prediction when the lagged GDP is zero |
| `Business.Model.Coef` | business.py:261-277 | raising the lagged GDP by one changes the prediction by exactly the coefficient, at every input |
| `Business.Model.FittedLine` | business.py:244-277 | every prediction lies on the line intercept() + coef() * x, the equation the dashboard reports |
| `Display.Range` | display.py:126 | `range(1, years)` has max(years-1, 0) elements, 1, 2, ..., years-1 |
| `Display.Horizon` | display.py:126 | the number of forecast rows a display method asks for: years - 1 when years > 1, otherwise none |
| `Display.SliderHorizon` | streamlit_app.py:32-39 | since the app passes `slider + 1`, the forecast has exactly as many rows as the slider value |
| `Display.LabelActual` | display.py:133 | every actual row keeps its year and GDP and is labelled "Actual GDP" |
| `Display.LabelForecast` | display.py:134 | every forecast row keeps its year and GDP and gets the method's forecast label |
| `Display.Combine` | display.py:137 | the combined table has #actual + #forecast rows: the actual rows first in their order, then the forecast rows in generated order, nothing merged |
| `Display.CombineSplit` | display.py:126-137 | selecting the combined table by Type gives back exactly the labelled actual rows and the labelled forecast rows, in order |
| `Display.CombinedYearsIncreasing` | display.py:126-137 | if the history's years increase and end no later than 2023, the combined table's years increase strictly |
| `Display.ShowsWarning` | display.py:171-174 | the condition `years > 17` holds exactly when 17 or more forecast rows are asked for |
| `Display.WarningFromSeventeenRows` | display.py:171-174 | with `years = slider + 1`, the warning is shown exactly when the forecast has 17 or more rows |
| `Display.PresentationComponents.ForecastPrimaryChart` | display.py:125-174 | the chart data is the actual table followed by `Rollout` of max(years-1, 0) rows labelled "Predicted GDP"; it fails exactly when loading fails; the warning is shown if and only if loading succeeds and `years > 17` |
| `Display.PresentationComponents.ForecastBarChart` | display.py:242-250 | the bar data is `Rollout` of max(years-1, 0) rows, and the title's horizon `years - 1` equals the row count whenever years >= 1 |
| `Display.PresentationComponents.DownloadData` | display.py:465-477 | the download table is the actual table followed by the forecast rows labelled "Forecasted GDP"; it fails exactly when loading fails |

## Left out

- Rendering: every `st.*` and Plotly call, figure styling, `gdpGrowth`, `get_fitted_figure`, `empericalResults` and `resilientEconomy`. They only render.
- streamlit_app.py page setup and navigation. Only its `slider + 1` call is used, as the assumption of `Display.SliderHorizon` and `Display.WarningFromSeventeenRows`.
- Loading the pickled regression with `joblib.load`. The artifact is a `LinearModel(intercept, slope)`, and its one-element `coef_` array is represented by its only entry. A missing or corrupt artifact is not modelled.
- `pd.read_csv`. The raw table is an in-memory list of columns with one data row. Only the numbers in it are represented, not the text of the identifier cells. A CSV with several data rows is not modelled.
- Floating point and the `astype(float)` coercions. All values are Dafny `real`.
- Datetimes. Years are integers. `Database.ParseYear` accepts every four-digit label, but pandas would also reject years outside its timestamp range (roughly 1677 to 2262). The concatenated table mixes datetime years (actual rows) and integer years (forecast rows); the model uses integers for both.
- DataFrame indexes. Setting Year as the index, `reset_index`, and the repeated integer index that `pd.concat` leaves are not modelled.
- Business.Model.MakeForecast: the source appends the one-element prediction arrays and converts them with `astype(float)`. The model appends the scalar values directly.
- Display.PresentationComponents.ForecastBarChart: only the number in the chart title is modelled, not the rest of the text.
