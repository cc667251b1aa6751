/**
  The forecasting model (business.py): a pre-fitted one-feature linear
  regression of GDP on the previous year's GDP, the autoregressive rollout
  `makeForecast`, the in-sample diagnostics `predict`, and the accessors of the
  fitted parameters.
*/
module Business {
  import opened Wrappers
  import opened Database

  /** The last known GDP, from which every forecast starts (the 2023 value). */
  const SEED_GDP: real := 3353470000000.0

  /** The year of SEED_GDP. */
  const SEED_YEAR: int := 2023

  /** The fitted regression: GDP_next = intercept + slope * GDP_previous. */
  datatype LinearModel = LinearModel(intercept: real, slope: real)
  {
    /** `model.predict([[x]])[0]`. */
    function Predict(x: real): real
    {
      intercept + slope * x
    }
  }

  /** The predictor applied k times to x. */
  function Iterate(m: LinearModel, x: real, k: nat): real
  {
    if k == 0 then x else m.Predict(Iterate(m, x, k - 1))
  }

  /** A row of the forecast table: a year and its predicted GDP. */
  datatype Point = Point(year: int, gdp: real)

  /**
    The forecast of n years from a seed: year seedYear + 1 + i holds the seed
    value after i + 1 applications of the predictor.
  */
  function Rollout(m: LinearModel, seedGdp: real, seedYear: int, n: nat): (f: seq<Point>)
    ensures |f| == n
    ensures forall i :: 0 <= i < n ==> f[i].year == seedYear + 1 + i
    ensures n > 0 ==> f[0].gdp == m.Predict(seedGdp)
    ensures forall i :: 1 <= i < n ==> f[i].gdp == m.Predict(f[i - 1].gdp)
  {
    assert n > 0 ==> Iterate(m, seedGdp, 1) == m.Predict(Iterate(m, seedGdp, 0));
    seq(n, i requires 0 <= i < n => Point(seedYear + 1 + i, Iterate(m, seedGdp, i + 1)))
  }

  /** A longer horizon extends a shorter one: the first k rows do not depend on n. */
  lemma RolloutPrefix(m: LinearModel, seedGdp: real, seedYear: int, n: nat, k: nat)
    requires k <= n
    ensures Rollout(m, seedGdp, seedYear, n)[..k] == Rollout(m, seedGdp, seedYear, k)
  {
  }

  function Pow(b: real, k: nat): real
  {
    if k == 0 then 1.0 else b * Pow(b, k - 1)
  }

  /** 1 + b + ... + b^(k-1). */
  function GeomSum(b: real, k: nat): real
  {
    if k == 0 then 0.0 else 1.0 + b * GeomSum(b, k - 1)
  }

  /** Closed form of k steps: slope^k * x + intercept * (1 + slope + ... + slope^(k-1)). */
  lemma IterateClosedForm(m: LinearModel, x: real, k: nat)
    ensures Iterate(m, x, k) == Pow(m.slope, k) * x + m.intercept * GeomSum(m.slope, k)
  {
    IterateFromZero(m, k);
    IterateSeedPart(m, x, k);
  }

  /** From a zero seed, k steps accumulate intercept * (1 + slope + ... + slope^(k-1)). */
  lemma {:induction false} IterateFromZero(m: LinearModel, k: nat)
    ensures Iterate(m, 0.0, k) == m.intercept * GeomSum(m.slope, k)
  {
    if k == 0 {
      assert m.intercept * GeomSum(m.slope, 0) == 0.0;
    } else {
      IterateFromZero(m, k - 1);
      MulBoth(m.slope, Iterate(m, 0.0, k - 1), m.intercept * GeomSum(m.slope, k - 1));
      MulBoth(m.intercept, GeomSum(m.slope, k), 1.0 + m.slope * GeomSum(m.slope, k - 1));
    }
  }

  /** The seed enters k steps only through slope^k * x, on top of the zero-seed run. */
  lemma {:induction false} IterateSeedPart(m: LinearModel, x: real, k: nat)
    ensures Iterate(m, x, k) == Iterate(m, 0.0, k) + Pow(m.slope, k) * x
  {
    if k == 0 {
      assert Pow(m.slope, 0) * x == x;
    } else {
      IterateSeedPart(m, x, k - 1);
      SeedPartStep(m, x, k);
    }
  }

  /** The inductive step of IterateSeedPart, from k - 1 steps to k. */
  lemma SeedPartStep(m: LinearModel, x: real, k: nat)
    requires k > 0
    requires Iterate(m, x, k - 1) == Iterate(m, 0.0, k - 1) + Pow(m.slope, k - 1) * x
    ensures Iterate(m, x, k) == Iterate(m, 0.0, k) + Pow(m.slope, k) * x
  {
    MulBoth(m.slope, Iterate(m, x, k - 1), Iterate(m, 0.0, k - 1) + Pow(m.slope, k - 1) * x);
    MulBoth(x, Pow(m.slope, k), m.slope * Pow(m.slope, k - 1));
  }

  /** Multiplying both sides of an equation by c. */
  lemma MulBoth(c: real, u: real, v: real)
    requires u == v
    ensures c * u == c * v
  {
  }

  /** Each forecast row in closed form. */
  lemma RolloutClosedForm(m: LinearModel, seedGdp: real, seedYear: int, n: nat)
    ensures forall i :: 0 <= i < n ==> (Rollout(m, seedGdp, seedYear, n)[i].gdp
      == Pow(m.slope, i + 1) * seedGdp + m.intercept * GeomSum(m.slope, i + 1))
  {
    forall i | 0 <= i < n
      ensures Rollout(m, seedGdp, seedYear, n)[i].gdp
        == Pow(m.slope, i + 1) * seedGdp + m.intercept * GeomSum(m.slope, i + 1)
    {
      RolloutClosedFormAt(m, seedGdp, seedYear, n, i);
    }
  }

  /** Row i of the forecast in closed form. */
  lemma RolloutClosedFormAt(m: LinearModel, seedGdp: real, seedYear: int, n: nat, i: nat)
    requires i < n
    ensures Rollout(m, seedGdp, seedYear, n)[i].gdp
      == Pow(m.slope, i + 1) * seedGdp + m.intercept * GeomSum(m.slope, i + 1)
  {
    assert Rollout(m, seedGdp, seedYear, n)[i].gdp == Iterate(m, seedGdp, i + 1);
    IterateClosedForm(m, seedGdp, i + 1);
  }

  /** An error d in the seed becomes slope^k * d after k steps: errors compound. */
  lemma IterateSeedError(m: LinearModel, x: real, y: real, k: nat)
    ensures Iterate(m, x, k) - Iterate(m, y, k) == Pow(m.slope, k) * (x - y)
  {
    IterateClosedForm(m, x, k);
    IterateClosedForm(m, y, k);
    var p := Pow(m.slope, k);
    assert p * x - p * y == p * (x - y);
  }

  /** Two forecasts from different seeds differ, in year i + 1, by slope^(i+1) times the seed gap. */
  lemma RolloutSeedError(m: LinearModel, x: real, y: real, seedYear: int, n: nat)
    ensures forall i :: 0 <= i < n ==>
      Rollout(m, x, seedYear, n)[i].gdp - Rollout(m, y, seedYear, n)[i].gdp == Pow(m.slope, i + 1) * (x - y)
  {
    forall i | 0 <= i < n
      ensures Rollout(m, x, seedYear, n)[i].gdp - Rollout(m, y, seedYear, n)[i].gdp == Pow(m.slope, i + 1) * (x - y)
    {
      RolloutSeedErrorAt(m, x, y, seedYear, n, i);
    }
  }

  /** The seed gap in row i of two forecasts. */
  lemma RolloutSeedErrorAt(m: LinearModel, x: real, y: real, seedYear: int, n: nat, i: nat)
    requires i < n
    ensures Rollout(m, x, seedYear, n)[i].gdp - Rollout(m, y, seedYear, n)[i].gdp == Pow(m.slope, i + 1) * (x - y)
  {
    assert Rollout(m, x, seedYear, n)[i].gdp == Iterate(m, x, i + 1);
    assert Rollout(m, y, seedYear, n)[i].gdp == Iterate(m, y, i + 1);
    IterateSeedError(m, x, y, i + 1);
  }

  /** With a non-negative slope the predictor is monotone. */
  lemma PredictMonotone(m: LinearModel, x: real, y: real)
    requires m.slope >= 0.0 && x <= y
    ensures m.Predict(x) <= m.Predict(y)
  {
    assert m.slope * (y - x) >= 0.0;
  }

  /** Once the first step goes up, a non-negative slope keeps every later step going up. */
  lemma {:induction false} IterateNondecreasing(m: LinearModel, x: real, k: nat)
    requires m.slope >= 0.0 && x <= m.Predict(x)
    ensures Iterate(m, x, k) <= Iterate(m, x, k + 1)
  {
    if k > 0 {
      IterateNondecreasing(m, x, k - 1);
      PredictMonotone(m, Iterate(m, x, k - 1), Iterate(m, x, k));
    }
  }

  /** If the first forecast is not below the seed and the slope is non-negative, the forecast never falls. */
  lemma RolloutNondecreasing(m: LinearModel, seedGdp: real, seedYear: int, n: nat)
    requires m.slope >= 0.0 && seedGdp <= m.Predict(seedGdp)
    ensures forall i, j :: 0 <= i <= j < n ==>
      Rollout(m, seedGdp, seedYear, n)[i].gdp <= Rollout(m, seedGdp, seedYear, n)[j].gdp
  {
    var f := Rollout(m, seedGdp, seedYear, n);
    forall i, j | 0 <= i <= j < n
      ensures f[i].gdp <= f[j].gdp
    {
      var k := i;
      while k < j
        invariant i <= k <= j
        invariant f[i].gdp <= f[k].gdp
      {
        IterateNondecreasing(m, seedGdp, k + 1);
        k := k + 1;
      }
    }
  }

  /** Intercept 0.5, slope 2, seed 10: three steps give 20.5, 41.5 and 83.5. */
  lemma RolloutExample(seedYear: int)
    ensures Rollout(LinearModel(0.5, 2.0), 10.0, seedYear, 3)
      == [Point(seedYear + 1, 20.5), Point(seedYear + 2, 41.5), Point(seedYear + 3, 83.5)]
  {
    var m := LinearModel(0.5, 2.0);
    assert Iterate(m, 10.0, 0) == 10.0;
    assert Iterate(m, 10.0, 1) == 20.5;
    assert Iterate(m, 10.0, 2) == 41.5;
    assert Iterate(m, 10.0, 3) == 83.5;
  }

  /**
    Why `predict()` can raise: loading the lagged table failed, or the table
    is empty, which the regression's `predict` rejects (it needs at least one sample).
  */
  datatype PredictError = LoadFailed(cause: LoadError) | NoSamples

  /** A row of the in-sample diagnostics: actual GDP, lagged GDP, and the model's prediction. */
  datatype FitRow = FitRow(year: int, gdp: real, gdpL1: real, predictedGdp: real)

  /** The diagnostics table: one row per lagged row, predicted from its GDP_L1. */
  function Diagnostics(m: LinearModel, rows: seq<LaggedObs>): (r: seq<FitRow>)
    ensures |r| == |rows|
    ensures forall i :: 0 <= i < |rows| ==> (r[i].year == rows[i].year && r[i].gdp == rows[i].gdp
      && r[i].gdpL1 == rows[i].gdpL1 && r[i].predictedGdp == m.Predict(rows[i].gdpL1))
  {
    seq(|rows|, i requires 0 <= i < |rows| =>
      FitRow(rows[i].year, rows[i].gdp, rows[i].gdpL1, m.Predict(rows[i].gdpL1)))
  }

  /** Every value is the prediction from the one before it. */
  predicate FollowsModel(m: LinearModel, v: seq<real>)
  {
    forall j :: 0 <= j < |v| - 1 ==> v[j + 1] == m.Predict(v[j])
  }

  /** A series follows the model step by step exactly when it is the rollout of its first value. */
  lemma {:induction false} FollowsModelIffIterate(m: LinearModel, v: seq<real>)
    requires |v| > 0
    ensures FollowsModel(m, v) <==> forall i :: 0 <= i < |v| ==> v[i] == Iterate(m, v[0], i)
  {
    if FollowsModel(m, v) {
      forall i | 0 <= i < |v|
        ensures v[i] == Iterate(m, v[0], i)
      {
        var k := 0;
        while k < i
          invariant 0 <= k <= i
          invariant v[k] == Iterate(m, v[0], k)
        {
          k := k + 1;
        }
      }
    }
    if forall i :: 0 <= i < |v| ==> v[i] == Iterate(m, v[0], i) {
      forall j | 0 <= j < |v| - 1
        ensures v[j + 1] == m.Predict(v[j])
      {
        assert v[j + 1] == Iterate(m, v[0], j + 1);
      }
    }
  }

  /** The GDP values of a history with no missing value. */
  function Values(obs: seq<Obs>): (v: seq<real>)
    requires forall i :: 0 <= i < |obs| ==> obs[i].gdp.Some?
    ensures |v| == |obs| && forall i :: 0 <= i < |obs| ==> Some(v[i]) == obs[i].gdp
  {
    seq(|obs|, i requires 0 <= i < |obs| => obs[i].gdp.value)
  }

  /** The diagnostics fit every row exactly when the history follows the model step by step. */
  lemma PerfectFitIffFollows(m: LinearModel, obs: seq<Obs>)
    requires |obs| > 0 && forall i :: 0 <= i < |obs| ==> obs[i].gdp.Some?
    ensures var d := Diagnostics(m, LagFrame(obs));
      (forall j :: 0 <= j < |d| ==> d[j].predictedGdp == d[j].gdp) <==> FollowsModel(m, Values(obs))
  {
    LagNoMissing(obs);
    var rows := LagFrame(obs);
    var d := Diagnostics(m, rows);
    var v := Values(obs);
    assert |d| == |v| - 1;
    forall j | 0 <= j < |d|
      ensures d[j].gdp == v[j + 1] && d[j].predictedGdp == m.Predict(v[j])
    {
      assert rows[j] == LaggedObs(obs[j + 1].year, obs[j + 1].gdp.value, obs[j].gdp.value);
    }
    if forall j :: 0 <= j < |d| ==> d[j].predictedGdp == d[j].gdp {
      forall j | 0 <= j < |v| - 1
        ensures v[j + 1] == m.Predict(v[j])
      {
        assert d[j].predictedGdp == d[j].gdp;
      }
    } else {
      var j :| 0 <= j < |d| && d[j].predictedGdp != d[j].gdp;
      assert v[j + 1] != m.Predict(v[j]);
    }
  }

  /**
    For a history with no missing value, the model fits every lagged row
    exactly if and only if the history is the rollout of its first value.
  */
  lemma PerfectFitIffRollout(m: LinearModel, obs: seq<Obs>)
    requires |obs| > 0 && forall i :: 0 <= i < |obs| ==> obs[i].gdp.Some?
    ensures var d := Diagnostics(m, LagFrame(obs));
      (forall j :: 0 <= j < |d| ==> d[j].predictedGdp == d[j].gdp)
      <==> (forall i :: 0 <= i < |obs| ==> Values(obs)[i] == Iterate(m, Values(obs)[0], i))
  {
    PerfectFitIffFollows(m, obs);
    FollowsModelIffIterate(m, Values(obs));
  }

  /**
    The model object: `__init__` loads the fitted regression and keeps the
    database; neither is reassigned afterwards, so the object is a value.
  */
  datatype Model = Model(model: LinearModel, db: LocalDatabase)
  {
    /**
      `makeForecast(years)`: starting from SEED_GDP in SEED_YEAR, one row per
      element of `years`, each the prediction from the previous one. The
      elements of `years` are never read: only its length matters.
    */
    method MakeForecast(years: seq<int>) returns (df: seq<Point>)
      ensures df == Rollout(model, SEED_GDP, SEED_YEAR, |years|)
      ensures |df| == |years|
      ensures forall i :: 0 <= i < |df| ==> df[i].year == SEED_YEAR + 1 + i
      ensures |df| > 0 ==> df[0].gdp == model.Predict(SEED_GDP)
      ensures forall i :: 1 <= i < |df| ==> df[i].gdp == model.Predict(df[i - 1].gdp)
    {
      var gdp := SEED_GDP;
      var correspondingYear := SEED_YEAR;
      var predictedGdps: seq<real> := [];
      var correspondingYears: seq<int> := [];
      for k := 0 to |years|
        invariant |predictedGdps| == k && |correspondingYears| == k
        invariant gdp == Iterate(model, SEED_GDP, k)
        invariant correspondingYear == SEED_YEAR + k
        invariant forall i :: 0 <= i < k ==> correspondingYears[i] == SEED_YEAR + 1 + i
        invariant forall i :: 0 <= i < k ==> predictedGdps[i] == Iterate(model, SEED_GDP, i + 1)
      {
        var predictedGdp := model.Predict(gdp);
        correspondingYear := correspondingYear + 1;
        gdp := predictedGdp;
        predictedGdps := predictedGdps + [predictedGdp];
        correspondingYears := correspondingYears + [correspondingYear];
      }
      df := seq(|years|, i requires 0 <= i < |years| => Point(correspondingYears[i], predictedGdps[i]));
    }

    /**
      `predict()`: one diagnostics row per row of `loadData(lag=True)`, GDP and
      GDP_L1 copied, and the prediction made from GDP_L1. It raises when
      loading fails or when the lagged table has no row.
    */
    function Predict(): (r: Result<seq<FitRow>, PredictError>)
      ensures r.Err? <==> db.LoadData(true).Err? || |db.LoadData(true).value.lagged| == 0
      ensures db.LoadData(true).Err? ==> r == Err(LoadFailed(db.LoadData(true).error))
      ensures db.LoadData(true).Ok? && |db.LoadData(true).value.lagged| == 0 ==> r == Err(NoSamples)
      ensures r.Ok? ==> var rows := db.LoadData(true).value.lagged;
        |r.value| == |rows| && forall i :: 0 <= i < |rows| ==>
          (r.value[i].year == rows[i].year && r.value[i].gdp == rows[i].gdp
           && r.value[i].gdpL1 == rows[i].gdpL1 && r.value[i].predictedGdp == model.Predict(rows[i].gdpL1))
    {
      match db.LoadData(true)
      case Err(e) => Err(LoadFailed(e))
      case Ok(frame) =>
        if |frame.lagged| == 0 then Err(NoSamples) else Ok(Diagnostics(model, frame.lagged))
    }

    /** `get_fitted_values(lag)`: the database's table, unchanged. */
    function GetFittedValues(lag: bool): (r: Result<GdpFrame, LoadError>)
      ensures r == db.LoadData(lag)
    {
      db.LoadData(lag)
    }

    /** `intercept()`: the regression's intercept_, the prediction when the lagged GDP is zero. */
    function Intercept(): (b0: real)
      ensures b0 == model.Predict(0.0)
    {
      model.intercept
    }

    /** `coef()`: coef_[0], the change in the prediction for a unit increase of the lagged GDP. */
    function Coef(): (b1: real)
      ensures forall x :: model.Predict(x + 1.0) - model.Predict(x) == b1
    {
      model.slope
    }

    /** Every prediction lies on the line reported by Intercept and Coef. */
    lemma FittedLine(x: real)
      ensures model.Predict(x) == Intercept() + Coef() * x
    {
    }
  }
}
