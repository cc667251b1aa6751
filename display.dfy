/**
  The data assembly of the presentation layer (display.py): the forecast
  horizon requested with `range(1, years)`, the "Type" labels, the
  concatenation of actual and forecast rows, and the long-horizon warning.
  Rendering itself is not modelled.
*/
module Display {
  import opened Wrappers
  import opened Database
  import opened Business

  const ACTUAL_LABEL: string := "Actual GDP"
  /** The forecast label of the line chart. */
  const PREDICTED_LABEL: string := "Predicted GDP"
  /** The forecast label of the downloadable table. */
  const FORECASTED_LABEL: string := "Forecasted GDP"

  /** The line chart warns when `years` exceeds this value. */
  const WARNING_THRESHOLD: int := 17

  /** Python's `range(start, stop)`: the integers start, start + 1, ..., stop - 1. */
  function Range(start: int, stop: int): (r: seq<int>)
    ensures |r| == if start < stop then stop - start else 0
    ensures forall i :: 0 <= i < |r| ==> r[i] == start + i
    decreases stop - start
  {
    if stop <= start then [] else [start] + Range(start + 1, stop)
  }

  /** The number of forecast rows a display method asks for: the length of `range(1, years)`. */
  function Horizon(years: int): (h: nat)
    ensures h == if years > 1 then years - 1 else 0
  {
    |Range(1, years)|
  }

  /** The app passes `slider + 1`, so the forecast has exactly as many rows as the slider says. */
  lemma SliderHorizon(slider: int)
    requires 0 <= slider
    ensures Horizon(slider + 1) == slider
  {
  }

  /** A row of the combined table: Year, GDP and Type. */
  datatype LabelledRow = LabelledRow(year: int, gdp: Option<real>, kind: string)

  /** `actual_gdps["Type"] = "Actual GDP"` after `reset_index()`. */
  function LabelActual(actual: seq<Obs>): (r: seq<LabelledRow>)
    ensures |r| == |actual|
    ensures forall i :: 0 <= i < |r| ==> r[i] == LabelledRow(actual[i].year, actual[i].gdp, ACTUAL_LABEL)
  {
    if actual == [] then []
    else [LabelledRow(actual[0].year, actual[0].gdp, ACTUAL_LABEL)] + LabelActual(actual[1..])
  }

  /** `predicted_gdps["Type"] = typeLabel`. */
  function LabelForecast(forecast: seq<Point>, typeLabel: string): (r: seq<LabelledRow>)
    ensures |r| == |forecast|
    ensures forall i :: 0 <= i < |r| ==> r[i] == LabelledRow(forecast[i].year, Some(forecast[i].gdp), typeLabel)
  {
    if forecast == [] then []
    else [LabelledRow(forecast[0].year, Some(forecast[0].gdp), typeLabel)] + LabelForecast(forecast[1..], typeLabel)
  }

  /** `pd.concat([actual_gdps, predicted_gdps])`: all actual rows, then all forecast rows, nothing merged. */
  function Combine(actual: seq<Obs>, forecast: seq<Point>, typeLabel: string): (r: seq<LabelledRow>)
    ensures |r| == |actual| + |forecast|
    ensures forall i :: 0 <= i < |actual| ==> r[i] == LabelledRow(actual[i].year, actual[i].gdp, ACTUAL_LABEL)
    ensures forall j :: 0 <= j < |forecast| ==>
      r[|actual| + j] == LabelledRow(forecast[j].year, Some(forecast[j].gdp), typeLabel)
  {
    LabelActual(actual) + LabelForecast(forecast, typeLabel)
  }

  /** The rows of a table with the given Type, in order. */
  function RowsOfKind(rows: seq<LabelledRow>, kind: string): (r: seq<LabelledRow>)
  {
    if rows == [] then []
    else (if rows[0].kind == kind then [rows[0]] else []) + RowsOfKind(rows[1..], kind)
  }

  lemma {:induction false} RowsOfKindAppend(a: seq<LabelledRow>, b: seq<LabelledRow>, kind: string)
    ensures RowsOfKind(a + b, kind) == RowsOfKind(a, kind) + RowsOfKind(b, kind)
  {
    if a == [] {
      assert a + b == b;
    } else {
      var head := if a[0].kind == kind then [a[0]] else [];
      assert (a + b)[0] == a[0];
      assert (a + b)[1..] == a[1..] + b;
      assert RowsOfKind(a + b, kind) == head + RowsOfKind(a[1..] + b, kind);
      RowsOfKindAppend(a[1..], b, kind);
      assert RowsOfKind(a, kind) == head + RowsOfKind(a[1..], kind);
    }
  }

  lemma {:induction false} RowsOfKindAll(rows: seq<LabelledRow>, kind: string)
    requires forall i :: 0 <= i < |rows| ==> rows[i].kind == kind
    ensures RowsOfKind(rows, kind) == rows
  {
    if rows != [] {
      RowsOfKindAll(rows[1..], kind);
    }
  }

  lemma {:induction false} RowsOfKindNone(rows: seq<LabelledRow>, kind: string)
    requires forall i :: 0 <= i < |rows| ==> rows[i].kind != kind
    ensures RowsOfKind(rows, kind) == []
  {
    if rows != [] {
      RowsOfKindNone(rows[1..], kind);
    }
  }

  /**
    Selecting the combined table by Type gives back the labelled actual rows
    and the labelled forecast rows, in their original order: the concatenation
    loses and duplicates nothing.
  */
  lemma CombineSplit(actual: seq<Obs>, forecast: seq<Point>, typeLabel: string)
    requires typeLabel != ACTUAL_LABEL
    ensures RowsOfKind(Combine(actual, forecast, typeLabel), ACTUAL_LABEL) == LabelActual(actual)
    ensures RowsOfKind(Combine(actual, forecast, typeLabel), typeLabel) == LabelForecast(forecast, typeLabel)
  {
    var a, f := LabelActual(actual), LabelForecast(forecast, typeLabel);
    RowsOfKindAppend(a, f, ACTUAL_LABEL);
    RowsOfKindAppend(a, f, typeLabel);
    RowsOfKindAll(a, ACTUAL_LABEL);
    RowsOfKindNone(f, ACTUAL_LABEL);
    RowsOfKindNone(a, typeLabel);
    RowsOfKindAll(f, typeLabel);
  }

  predicate StrictlyIncreasing(years: seq<int>)
  {
    forall i, j :: 0 <= i < j < |years| ==> years[i] < years[j]
  }

  function Years(rows: seq<LabelledRow>): (ys: seq<int>)
    ensures |ys| == |rows| && forall i :: 0 <= i < |rows| ==> ys[i] == rows[i].year
  {
    seq(|rows|, i requires 0 <= i < |rows| => rows[i].year)
  }

  /**
    When the history is in increasing year order and ends no later than the
    seed year, the combined table is in increasing year order too.
  */
  lemma CombinedYearsIncreasing(m: LinearModel, actual: seq<Obs>, n: nat, typeLabel: string)
    requires forall i, j :: 0 <= i < j < |actual| ==> actual[i].year < actual[j].year
    requires forall i :: 0 <= i < |actual| ==> actual[i].year <= SEED_YEAR
    ensures StrictlyIncreasing(Years(Combine(actual, Rollout(m, SEED_GDP, SEED_YEAR, n), typeLabel)))
  {
    var f := Rollout(m, SEED_GDP, SEED_YEAR, n);
    var ys := Years(Combine(actual, f, typeLabel));
    forall i, j | 0 <= i < j < |ys|
      ensures ys[i] < ys[j]
    {
      if j < |actual| {
      } else if i < |actual| {
        assert ys[j] == f[j - |actual|].year;
      } else {
        assert ys[i] == f[i - |actual|].year && ys[j] == f[j - |actual|].year;
      }
    }
  }

  /** The long-horizon warning is shown when `years > 17`, that is, when 17 or more forecast rows are asked for. */
  function ShowsWarning(years: int): (b: bool)
    ensures b <==> Horizon(years) >= WARNING_THRESHOLD
  {
    years > WARNING_THRESHOLD
  }

  /**
    Since the app passes `slider + 1`, the warning appears from 17 forecast rows
    on, and the information message up to 16.
  */
  lemma WarningFromSeventeenRows(slider: int)
    requires 0 <= slider
    ensures ShowsWarning(slider + 1) <==> Horizon(slider + 1) >= 17
  {
  }

  /** The presentation object: it holds the model, set once in `__init__`. */
  datatype PresentationComponents = PresentationComponents(model: Model)
  {
    /**
      The data behind `forecast_primary_chart(years)`: the actual table with
      `years - 1` forecast rows labelled "Predicted GDP" after it, and whether
      the warning (rather than the information message) is shown. When loading
      fails the method raises before either message is shown.
    */
    method ForecastPrimaryChart(years: int) returns (combined: Result<seq<LabelledRow>, LoadError>, warning: bool)
      ensures warning <==> combined.Ok? && ShowsWarning(years)
      ensures combined.Err? <==> model.db.LoadData(false).Err?
      ensures combined.Err? ==> combined.error == model.db.LoadData(false).error
      ensures combined.Ok? ==> combined.value == Combine(model.db.LoadData(false).value.plain,
        Rollout(model.model, SEED_GDP, SEED_YEAR, Horizon(years)), PREDICTED_LABEL)
    {
      var predictedGdps := model.MakeForecast(Range(1, years));
      var actualGdps := model.GetFittedValues(false);
      match actualGdps {
        case Err(e) =>
          combined, warning := Err(e), false;
        case Ok(frame) =>
          combined := Ok(Combine(frame.plain, predictedGdps, PREDICTED_LABEL));
          warning := ShowsWarning(years);
      }
    }

    /**
      The data behind `forecast_bar_chart(years)`: the forecast rows and the
      horizon the title reports, `years - 1`.
    */
    method ForecastBarChart(years: int) returns (df: seq<Point>, titleHorizon: int)
      ensures df == Rollout(model.model, SEED_GDP, SEED_YEAR, Horizon(years))
      ensures titleHorizon == years - 1
      ensures years >= 1 ==> titleHorizon == |df|
    {
      df := model.MakeForecast(Range(1, years));
      titleHorizon := years - 1;
    }

    /**
      The table behind `downloadData(years)`: the actual table with `years - 1`
      forecast rows labelled "Forecasted GDP" after it.
    */
    method DownloadData(years: int) returns (combined: Result<seq<LabelledRow>, LoadError>)
      ensures combined.Err? <==> model.db.LoadData(false).Err?
      ensures combined.Ok? ==> combined.value == Combine(model.db.LoadData(false).value.plain,
        Rollout(model.model, SEED_GDP, SEED_YEAR, Horizon(years)), FORECASTED_LABEL)
    {
      var predictedGdps := model.MakeForecast(Range(1, years));
      var actualGdps := model.GetFittedValues(false);
      match actualGdps {
        case Err(e) => combined := Err(e);
        case Ok(frame) => combined := Ok(Combine(frame.plain, predictedGdps, FORECASTED_LABEL));
      }
    }
  }
}
