/**
  The local GDP table (database.py): the raw wide table as read from the CSV
  file, and `loadData`, which melts its year columns into (Year, GDP) rows and
  optionally adds the one-step lagged column GDP_L1.
*/
module Database {
  import opened Wrappers

  /** The identifier columns that `loadData` passes to melt as id_vars and then drops. */
  const ID_COLUMNS: seq<string> := ["Country Name", "Country Code", "Indicator Name", "Indicator Code"]

  /**
    One column of the raw table: its header label and the number in its single
    data row, None where the CSV field is empty (NaN). The text held by the
    identifier columns is never read by the pipeline and is not represented.
  */
  datatype Column = Column(name: string, cell: Option<real>)

  /** The raw wide table: its columns in the CSV's order. */
  type RawTable = seq<Column>

  /** A row of the melted table, indexed by its year; GDP may be missing. */
  datatype Obs = Obs(year: int, gdp: Option<real>)

  /** A row after `df["GDP_L1"] = df["GDP"].shift(1)`, before dropna. */
  datatype ShiftedObs = ShiftedObs(year: int, gdp: Option<real>, gdpL1: Option<real>)

  /** A row of the lagged table, which survived dropna: both values present. */
  datatype LaggedObs = LaggedObs(year: int, gdp: real, gdpL1: real)

  /** What `loadData` returns: the GDP column alone, or GDP with GDP_L1. */
  datatype GdpFrame = Plain(plain: seq<Obs>) | Lagged(lagged: seq<LaggedObs>)

  /** The exceptions `loadData` can raise: melt's KeyError, to_datetime's ValueError. */
  datatype LoadError = MissingIdColumns | BadYearLabel(name: string)

  // ---------------------------------------------------------------------------
  // Year labels, parsed with format "%Y"

  predicate IsDigit(c: char) { '0' <= c <= '9' }

  function DigitValue(c: char): (d: int)
    requires IsDigit(c)
    ensures 0 <= d <= 9
  {
    c as int - '0' as int
  }

  function DigitChar(d: int): (c: char)
    requires 0 <= d <= 9
    ensures IsDigit(c) && DigitValue(c) == d
  {
    ('0' as int + d) as char
  }

  /** A label that format "%Y" accepts: exactly four decimal digits. */
  predicate IsYearLabel(s: string)
  {
    |s| == 4 && forall i :: 0 <= i < 4 ==> IsDigit(s[i])
  }

  /** `pd.to_datetime(label, format="%Y")`, keeping only the calendar year. */
  function ParseYear(name: string): (r: Option<int>)
    ensures r.Some? <==> IsYearLabel(name)
    ensures r.Some? ==> 0 <= r.value <= 9999
  {
    if IsYearLabel(name) then
      Some(1000 * DigitValue(name[0]) + 100 * DigitValue(name[1])
           + 10 * DigitValue(name[2]) + DigitValue(name[3]))
    else
      None
  }

  /** The four-digit label of a year, zero-padded. */
  function FormatYear(y: int): (s: string)
    requires 0 <= y <= 9999
    ensures IsYearLabel(s)
  {
    var tens := y / 10;
    var hundreds := tens / 10;
    var thousands := hundreds / 10;
    [DigitChar(thousands), DigitChar(hundreds % 10), DigitChar(tens % 10), DigitChar(y % 10)]
  }

  /** Division by ten is determined by its quotient and remainder. */
  lemma DivModTen(y: int, q: int, d: int)
    requires y == 10 * q + d && 0 <= d < 10
    ensures y / 10 == q && y % 10 == d
  {
  }

  /** Every year 0..9999 has a label that parses back to it. */
  lemma YearLabelRoundTrip(y: int)
    requires 0 <= y <= 9999
    ensures ParseYear(FormatYear(y)) == Some(y)
  {
    var tens := y / 10;
    var hundreds := tens / 10;
    var thousands := hundreds / 10;
    assert y == 10 * tens + y % 10;
    assert tens == 10 * hundreds + tens % 10;
    assert hundreds == 10 * thousands + hundreds % 10;
    assert thousands <= 9;
    var s := FormatYear(y);
    assert DigitValue(s[0]) == thousands && DigitValue(s[1]) == hundreds % 10;
    assert DigitValue(s[2]) == tens % 10 && DigitValue(s[3]) == y % 10;
  }

  /** A label parses if and only if it has four digits, and it is the only label of its year. */
  lemma YearLabelUnique(s: string)
    ensures ParseYear(s).Some? <==> IsYearLabel(s)
    ensures ParseYear(s).Some? ==> FormatYear(ParseYear(s).value) == s
  {
    if IsYearLabel(s) {
      var a, b, c, d := DigitValue(s[0]), DigitValue(s[1]), DigitValue(s[2]), DigitValue(s[3]);
      var y := 1000 * a + 100 * b + 10 * c + d;
      DivModTen(y, 100 * a + 10 * b + c, d);
      DivModTen(100 * a + 10 * b + c, 10 * a + b, c);
      DivModTen(10 * a + b, a, b);
      DivModTen(a, 0, a);
      var t := FormatYear(y);
      assert t[0] == s[0] && t[1] == s[1] && t[2] == s[2] && t[3] == s[3];
    }
  }

  /** Distinct year labels give distinct years. */
  lemma ParseYearInjective(s: string, t: string)
    requires ParseYear(s).Some? && ParseYear(t).Some?
    requires s != t
    ensures ParseYear(s).value != ParseYear(t).value
  {
    YearLabelUnique(s);
    YearLabelUnique(t);
  }

  // ---------------------------------------------------------------------------
  // melt

  function Labels(raw: RawTable): (ls: seq<string>)
    ensures |ls| == |raw| && forall i :: 0 <= i < |raw| ==> ls[i] == raw[i].name
  {
    if raw == [] then [] else [raw[0].name] + Labels(raw[1..])
  }

  /** The columns melt unpivots (its value_vars): every non-identifier column, in order. */
  function ValueColumns(raw: RawTable): (cols: seq<Column>)
    ensures |cols| <= |raw|
    ensures forall c :: c in cols <==> c in raw && c.name !in ID_COLUMNS
  {
    if raw == [] then []
    else (if raw[0].name in ID_COLUMNS then [] else [raw[0]]) + ValueColumns(raw[1..])
  }

  /** No identifier column has a year label, so a table of year columns melts to all of itself. */
  lemma {:induction false} ValueColumnsOfYears(cols: RawTable)
    requires forall i :: 0 <= i < |cols| ==> IsYearLabel(cols[i].name)
    ensures ValueColumns(cols) == cols
  {
    if cols != [] {
      assert |cols[0].name| == 4;
      assert cols[0].name !in ID_COLUMNS;
      ValueColumnsOfYears(cols[1..]);
    }
  }

  /** Melt keeps the column order: the value columns of a concatenation are concatenated. */
  lemma {:induction false} ValueColumnsAppend(a: RawTable, b: RawTable)
    ensures ValueColumns(a + b) == ValueColumns(a) + ValueColumns(b)
  {
    if a == [] {
      assert a + b == b;
    } else {
      assert (a + b)[1..] == a[1..] + b;
      ValueColumnsAppend(a[1..], b);
    }
  }

  /** No two columns share a header; read_csv renames repeated headers, so a table it returns has this property. */
  predicate DistinctNames(cols: seq<Column>)
  {
    forall i, j :: 0 <= i < j < |cols| ==> cols[i].name != cols[j].name
  }

  lemma {:induction false} ValueColumnsDistinct(raw: RawTable)
    requires DistinctNames(raw)
    ensures DistinctNames(ValueColumns(raw))
  {
    if raw != [] {
      ValueColumnsDistinct(raw[1..]);
      var rest := ValueColumns(raw[1..]);
      forall c | c in rest
        ensures c.name != raw[0].name
      {
        var k :| 0 <= k < |raw[1..]| && raw[1..][k] == c;
        assert raw[k + 1] == c;
      }
    }
  }

  /**
    Converts the melted Year column with format "%Y": one row per value column,
    in order, or the first label that is not a four-digit year.
  */
  function ParseYears(cols: seq<Column>): (r: Result<seq<Obs>, LoadError>)
    ensures r.Ok? <==> forall i :: 0 <= i < |cols| ==> IsYearLabel(cols[i].name)
    ensures r.Ok? ==> |r.value| == |cols|
    ensures r.Ok? ==> forall i :: 0 <= i < |cols| ==>
      ParseYear(cols[i].name) == Some(r.value[i].year) && r.value[i].gdp == cols[i].cell
    ensures r.Err? ==> exists i :: (0 <= i < |cols| && r.error == BadYearLabel(cols[i].name)
      && !IsYearLabel(cols[i].name) && forall j :: 0 <= j < i ==> IsYearLabel(cols[j].name))
  {
    if cols == [] then Ok([])
    else
      match ParseYear(cols[0].name)
      case None => Err(BadYearLabel(cols[0].name))
      case Some(y) =>
        match ParseYears(cols[1..])
        case Err(e) => Err(e)
        case Ok(rest) => Ok([Obs(y, cols[0].cell)] + rest)
  }

  predicate HasIdColumns(raw: RawTable)
  {
    forall k :: 0 <= k < |ID_COLUMNS| ==> ID_COLUMNS[k] in Labels(raw)
  }

  /** melt followed by the year conversion and the drop of the identifier columns. */
  function Melt(raw: RawTable): (r: Result<seq<Obs>, LoadError>)
    ensures r.Err? <==> (!HasIdColumns(raw)
      || exists c :: c in raw && c.name !in ID_COLUMNS && !IsYearLabel(c.name))
    ensures !HasIdColumns(raw) ==> r == Err(MissingIdColumns)
    ensures r.Ok? ==> var cols := ValueColumns(raw);
      |r.value| == |cols| && forall i :: 0 <= i < |cols| ==>
        (ParseYear(cols[i].name) == Some(r.value[i].year) && r.value[i].gdp == cols[i].cell)
  {
    if !HasIdColumns(raw) then Err(MissingIdColumns)
    else ParseYears(ValueColumns(raw))
  }

  /** Distinct headers give distinct years: the melted table has one row per year. */
  lemma MeltYearsDistinct(raw: RawTable)
    requires DistinctNames(raw) && Melt(raw).Ok?
    ensures forall i, j :: 0 <= i < j < |Melt(raw).value| ==> Melt(raw).value[i].year != Melt(raw).value[j].year
  {
    ValueColumnsDistinct(raw);
    var cols := ValueColumns(raw);
    var obs := Melt(raw).value;
    forall i, j | 0 <= i < j < |obs|
      ensures obs[i].year != obs[j].year
    {
      ParseYearInjective(cols[i].name, cols[j].name);
    }
  }

  // ---------------------------------------------------------------------------
  // The lag: shift(1) and dropna

  function GdpColumn(obs: seq<Obs>): (col: seq<Option<real>>)
    ensures |col| == |obs| && forall i :: 0 <= i < |obs| ==> col[i] == obs[i].gdp
  {
    if obs == [] then [] else [obs[0].gdp] + GdpColumn(obs[1..])
  }

  /** `Series.shift(1)`: every value moves one row down and the first row becomes NaN. */
  function Shift(col: seq<Option<real>>): (s: seq<Option<real>>)
    ensures |s| == |col|
    ensures |s| > 0 ==> s[0] == None
    ensures forall i :: 1 <= i < |s| ==> s[i] == col[i - 1]
  {
    if col == [] then [] else [None] + col[..|col| - 1]
  }

  /** `df["GDP_L1"] = df["GDP"].shift(1)`. */
  function WithLag(obs: seq<Obs>): (rows: seq<ShiftedObs>)
    ensures |rows| == |obs|
    ensures forall i :: 0 <= i < |obs| ==> rows[i].year == obs[i].year && rows[i].gdp == obs[i].gdp
    ensures |obs| > 0 ==> rows[0].gdpL1 == None
    ensures forall i :: 1 <= i < |obs| ==> rows[i].gdpL1 == obs[i - 1].gdp
  {
    var lag := Shift(GdpColumn(obs));
    seq(|obs|, i requires 0 <= i < |obs| => ShiftedObs(obs[i].year, obs[i].gdp, lag[i]))
  }

  predicate Complete(row: ShiftedObs)
  {
    row.gdp.Some? && row.gdpL1.Some?
  }

  function Strip(row: ShiftedObs): LaggedObs
    requires Complete(row)
  {
    LaggedObs(row.year, row.gdp.value, row.gdpL1.value)
  }

  function Restore(x: LaggedObs): ShiftedObs
  {
    ShiftedObs(x.year, Some(x.gdp), Some(x.gdpL1))
  }

  /** `DataFrame.dropna()`: keeps, in order, exactly the rows with no missing value. */
  function DropNa(rows: seq<ShiftedObs>): (r: seq<LaggedObs>)
    ensures |r| <= |rows|
    ensures forall x :: x in r ==> Restore(x) in rows
    ensures forall i :: 0 <= i < |rows| && Complete(rows[i]) ==> Strip(rows[i]) in r
  {
    if rows == [] then []
    else (if Complete(rows[0]) then [Strip(rows[0])] else []) + DropNa(rows[1..])
  }

  /**
    `dropna` keeps the order of the rows: it works row by row, so it distributes
    over concatenation.
  */
  lemma {:induction false} DropNaAppend(a: seq<ShiftedObs>, b: seq<ShiftedObs>)
    ensures DropNa(a + b) == DropNa(a) + DropNa(b)
  {
    if a == [] {
      assert a + b == b;
    } else {
      var head := if Complete(a[0]) then [Strip(a[0])] else [];
      assert (a + b)[0] == a[0];
      assert (a + b)[1..] == a[1..] + b;
      assert DropNa(a + b) == head + DropNa(a[1..] + b);
      DropNaAppend(a[1..], b);
      assert DropNa(a) == head + DropNa(a[1..]);
    }
  }

  /** A single row is kept, stripped of its options, exactly when it is complete. */
  lemma DropNaSingle(x: ShiftedObs)
    ensures DropNa([x]) == if Complete(x) then [Strip(x)] else []
  {
    assert [x][1..] == [];
  }

  /** With no missing value anywhere, dropna keeps every row, in place. */
  lemma {:induction false} DropNaAllComplete(rows: seq<ShiftedObs>)
    requires forall i :: 0 <= i < |rows| ==> Complete(rows[i])
    ensures |DropNa(rows)| == |rows|
    ensures forall i :: 0 <= i < |rows| ==> DropNa(rows)[i] == Strip(rows[i])
  {
    if rows != [] {
      DropNaAllComplete(rows[1..]);
      assert DropNa(rows) == [Strip(rows[0])] + DropNa(rows[1..]);
    }
  }

  /** The lagged table: shift, then dropna. */
  function LagFrame(obs: seq<Obs>): (r: seq<LaggedObs>)
    ensures |r| <= |obs|
    ensures |obs| > 0 ==> |r| < |obs|
  {
    var rows := WithLag(obs);
    assert |obs| > 0 ==> !Complete(rows[0]) && DropNa(rows) == DropNa(rows[1..]);
    DropNa(rows)
  }

  /**
    Every lagged row comes from some row i >= 1 of the melted table, with GDP_L1
    the GDP of row i - 1; and every such pair with both values present survives.
  */
  lemma LagAlignment(obs: seq<Obs>)
    ensures forall x :: x in LagFrame(obs) ==> exists i :: (1 <= i < |obs|
      && obs[i].year == x.year && obs[i].gdp == Some(x.gdp) && obs[i - 1].gdp == Some(x.gdpL1))
    ensures forall i :: 1 <= i < |obs| && obs[i].gdp.Some? && obs[i - 1].gdp.Some? ==>
      LaggedObs(obs[i].year, obs[i].gdp.value, obs[i - 1].gdp.value) in LagFrame(obs)
  {
    var rows := WithLag(obs);
    forall x | x in LagFrame(obs)
      ensures exists i :: (1 <= i < |obs|
        && obs[i].year == x.year && obs[i].gdp == Some(x.gdp) && obs[i - 1].gdp == Some(x.gdpL1))
    {
      var i :| 0 <= i < |rows| && rows[i] == Restore(x);
      assert i != 0;
    }
    forall i | 1 <= i < |obs| && obs[i].gdp.Some? && obs[i - 1].gdp.Some?
      ensures LaggedObs(obs[i].year, obs[i].gdp.value, obs[i - 1].gdp.value) in LagFrame(obs)
    {
      assert Complete(rows[i]);
    }
  }

  /** The first melted row never survives, so the lagged table is at least one row shorter. */
  lemma LagDropsFirstRow(obs: seq<Obs>)
    requires |obs| > 0
    ensures |LagFrame(obs)| <= |obs| - 1
    ensures LagFrame(obs) == DropNa(WithLag(obs)[1..])
  {
    var rows := WithLag(obs);
    assert !Complete(rows[0]);
  }

  /** When the years are distinct, the first year never appears in the lagged table. */
  lemma LagOmitsFirstYear(obs: seq<Obs>)
    requires |obs| > 0
    requires forall i, j :: 0 <= i < j < |obs| ==> obs[i].year != obs[j].year
    ensures forall x :: x in LagFrame(obs) ==> x.year != obs[0].year
  {
    LagAlignment(obs);
  }

  /** With no missing value, k melted rows give exactly k - 1 lagged rows, aligned. */
  lemma LagNoMissing(obs: seq<Obs>)
    requires |obs| > 0
    requires forall i :: 0 <= i < |obs| ==> obs[i].gdp.Some?
    ensures |LagFrame(obs)| == |obs| - 1
    ensures forall j :: 0 <= j < |obs| - 1 ==>
      LagFrame(obs)[j] == LaggedObs(obs[j + 1].year, obs[j + 1].gdp.value, obs[j].gdp.value)
  {
    LagDropsFirstRow(obs);
    var rows := WithLag(obs);
    var tail := rows[1..];
    forall j | 0 <= j < |tail|
      ensures tail[j] == ShiftedObs(obs[j + 1].year, obs[j + 1].gdp, obs[j].gdp)
    {
      assert tail[j] == rows[j + 1];
    }
    DropNaAllComplete(tail);
  }

  /** Row i >= 1 of the shifted table pairs row i with the GDP of row i - 1. */
  lemma WithLagRow(obs: seq<Obs>, i: nat)
    requires 1 <= i < |obs|
    ensures WithLag(obs)[i] == ShiftedObs(obs[i].year, obs[i].gdp, obs[i - 1].gdp)
  {
    assert Shift(GdpColumn(obs))[i] == GdpColumn(obs)[i - 1];
  }

  // ---------------------------------------------------------------------------
  // LocalDatabase

  /**
    The database object: `__init__` stores the raw table once and nothing ever
    reassigns it, so the object is a value holding that table.
  */
  datatype LocalDatabase = LocalDatabase(df: RawTable)
  {
    /** `loadData(lag)`. */
    function LoadData(lag: bool): (r: Result<GdpFrame, LoadError>)
      ensures r.Err? <==> (!HasIdColumns(df)
        || exists c :: c in df && c.name !in ID_COLUMNS && !IsYearLabel(c.name))
      ensures r.Ok? ==> (r.value.Lagged? <==> lag)
      ensures r.Ok? && !lag ==> r.value.plain == Melt(df).value
      ensures r.Ok? && lag ==> r.value.lagged == LagFrame(Melt(df).value)
    {
      match Melt(df)
      case Err(e) => Err(e)
      case Ok(obs) => if lag then Ok(Lagged(LagFrame(obs))) else Ok(Plain(obs))
    }
  }

  /** Without the lag, one row per year column, in the CSV's column order, carrying its cell. */
  lemma LoadPlainRows(db: LocalDatabase)
    requires db.LoadData(false).Ok?
    ensures var obs := db.LoadData(false).value.plain;
      var cols := ValueColumns(db.df);
      |obs| == |cols| && forall i :: 0 <= i < |cols| ==>
        ParseYear(cols[i].name) == Some(obs[i].year) && obs[i].gdp == cols[i].cell
  {
  }

  // A four-year table used by LoadDataExample.

  const EXAMPLE_IDS: seq<Column> := [Column("Country Name", None), Column("Country Code", None),
    Column("Indicator Name", None), Column("Indicator Code", None)]

  const EXAMPLE_YEARS: seq<Column> := [Column("2020", Some(100.0)), Column("2021", Some(110.0)),
    Column("2022", Some(121.0)), Column("2023", Some(133.1))]

  const EXAMPLE_OBS: seq<Obs> :=
    [Obs(2020, Some(100.0)), Obs(2021, Some(110.0)), Obs(2022, Some(121.0)), Obs(2023, Some(133.1))]

  const EXAMPLE_LAGGED: seq<LaggedObs> :=
    [LaggedObs(2021, 110.0, 100.0), LaggedObs(2022, 121.0, 110.0), LaggedObs(2023, 133.1, 121.0)]

  lemma ExampleHasIds()
    ensures HasIdColumns(EXAMPLE_IDS + EXAMPLE_YEARS)
  {
    assert Labels(EXAMPLE_IDS + EXAMPLE_YEARS)[..4] == ID_COLUMNS;
  }

  lemma ExampleValueColumns()
    ensures ValueColumns(EXAMPLE_IDS + EXAMPLE_YEARS) == EXAMPLE_YEARS
  {
    ValueColumnsAppend(EXAMPLE_IDS, EXAMPLE_YEARS);
    ExampleIdsDropped();
    ExampleYearsKept();
  }

  lemma ExampleIdsDropped()
    ensures ValueColumns(EXAMPLE_IDS) == []
  {
    var ids := EXAMPLE_IDS;
    assert ids[1..][1..][1..][1..] == [];
  }

  lemma ExampleYearsKept()
    ensures ValueColumns(EXAMPLE_YEARS) == EXAMPLE_YEARS
  {
    var years := EXAMPLE_YEARS;
    assert forall i :: 0 <= i < 4 ==> IsYearLabel(years[i].name);
    ValueColumnsOfYears(years);
  }

  lemma ExampleParseYears()
    ensures ParseYears(EXAMPLE_YEARS) == Ok(EXAMPLE_OBS)
  {
    var years, obs := EXAMPLE_YEARS, EXAMPLE_OBS;
    assert ParseYear("2020") == Some(2020) && ParseYear("2021") == Some(2021);
    assert ParseYear("2022") == Some(2022) && ParseYear("2023") == Some(2023);
    assert forall i :: 0 <= i < 4 ==> IsYearLabel(years[i].name);
    var r := ParseYears(years);
    assert r.value[0] == obs[0] && r.value[1] == obs[1] && r.value[2] == obs[2] && r.value[3] == obs[3];
    assert r.value == obs;
  }

  /** Years 2020..2023 with values 100, 110, 121, 133.1: the lagged table has three rows, the last (2023, 133.1, 121). */
  lemma LoadDataExample()
    ensures LocalDatabase(EXAMPLE_IDS + EXAMPLE_YEARS).LoadData(true)
      == Ok(Lagged(EXAMPLE_LAGGED))
  {
    ExampleHasIds();
    ExampleValueColumns();
    ExampleParseYears();
    ExampleLag();
  }

  lemma ExampleLag()
    ensures LagFrame(EXAMPLE_OBS) == EXAMPLE_LAGGED
  {
    var obs, lagged := EXAMPLE_OBS, EXAMPLE_LAGGED;
    assert |obs| == 4 && forall i :: 0 <= i < 4 ==> obs[i].gdp.Some?;
    LagNoMissing(obs);
    var r := LagFrame(obs);
    assert r[0] == lagged[0];
    assert r[1] == lagged[1];
    assert r[2] == lagged[2];
    SameThreeRows(r, lagged);
  }

  lemma SameThreeRows(r: seq<LaggedObs>, s: seq<LaggedObs>)
    requires |r| == |s| == 3
    requires r[0] == s[0] && r[1] == s[1] && r[2] == s[2]
    ensures r == s
  {
  }
}
