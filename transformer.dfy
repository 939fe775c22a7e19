/**
 * The transform stage: a fixed sequence of filters and column maps over a frame of
 * extracted rows, ending in a validated, enriched frame ready for loading.
 */
module Transformer {
  import opened Wrappers
  import opened Calendar
  import opened Sequences
  import opened Observations

  /** The ways the transform can abort. */
  datatype TransformError =
    | InvalidDate                   // a `time` value does not parse as `%Y-%m-%d`
    | InvalidWeatherCode            // a weather code that cannot be cast to a nullable integer
    | UnknownStrategy(name: string) // a missing-value strategy other than drop / fill_zero / fill_mean
    | NonIntegralFill               // fill_mean would put a fractional mean into the integer weather code
    | MissingColumn(column: Column) // a column the stage reads is not in the frame

  const MinTemperature: real := -60.0
  const MaxTemperature: real := 60.0

  // ---------------------------------------------------------------------------
  // Stage 1: strip provenance

  /** Drops the `source_file` column; a frame without it is left as it is. */
  function DropProvenance(f: Frame<RawRow>): Frame<RawRow> {
    Frame(f.columns - {SourceFile},
          seq(|f.rows|, i requires 0 <= i < |f.rows| => f.rows[i].(sourceFile := None)))
  }

  // ---------------------------------------------------------------------------
  // Stage 2: de-duplicate on (city, time), keeping the first row of each key

  /** The de-duplication key, on the time value as extracted (before it is parsed). */
  datatype RawKey = RawKey(city: string, time: Option<string>)

  function RawKeyOf(r: RawRow): RawKey {
    RawKey(r.city, r.time)
  }

  function RawKeys(s: seq<RawRow>): set<RawKey> {
    set i | 0 <= i < |s| :: RawKeyOf(s[i])
  }

  /** The position of the first row of `s` whose key is `k`. */
  function FirstIndex(s: seq<RawRow>, k: RawKey): (i: nat)
    requires k in RawKeys(s)
    ensures i < |s| && RawKeyOf(s[i]) == k
    ensures forall j :: 0 <= j < i ==> RawKeyOf(s[j]) != k
    decreases |s|
  {
    var s' := s[..|s| - 1];
    if k in RawKeys(s') then FirstIndex(s', k)
    else
      assert forall j :: 0 <= j < |s'| ==> RawKeyOf(s'[j]) in RawKeys(s');
      |s| - 1
  }

  /** Each row of `s` whose key no earlier row has, in order. */
  function KeepFirst(s: seq<RawRow>): seq<RawRow>
    decreases |s|
  {
    if s == [] then []
    else
      var s' := s[..|s| - 1];
      KeepFirst(s') + (if RawKeyOf(s[|s| - 1]) in RawKeys(s') then [] else [s[|s| - 1]])
  }

  /** `drop_duplicates(subset=["city", "time"], keep="first")`. */
  function RemoveDuplicates(f: Frame<RawRow>): Frame<RawRow> {
    Frame(f.columns, KeepFirst(f.rows))
  }

  // ---------------------------------------------------------------------------
  // Stage 3: type normalisation

  /** `pd.to_numeric(errors="coerce")` on one cell: numbers stay, text goes through the number parser. */
  function Coerce(parseNumber: string -> Option<real>, c: Cell): Option<real> {
    match c
    case Blank => None
    case Number(x) => Some(x)
    case Text(s) => parseNumber(s)
  }

  predicate IsIntegral(x: real) {
    x.Floor as real == x
  }

  /** The row's time is missing or parses under `%Y-%m-%d`. */
  predicate TimeParses(parseDate: string -> Option<CalendarDate>, r: RawRow) {
    r.time.Some? ==> parseDate(r.time.value).Some?
  }

  /** The row's weather code, once coerced, is missing or integral, so `astype("Int64")` accepts it. */
  predicate CodeCasts(parseNumber: string -> Option<real>, r: RawRow) {
    var v := Coerce(parseNumber, r.weatherCode);
    v.Some? ==> IsIntegral(v.value)
  }

  function CastRow(columns: set<Column>, parseDate: string -> Option<CalendarDate>,
                   parseNumber: string -> Option<real>, r: RawRow): Observation
  {
    var num := (m: Measure) => if Numeric(m) in columns then Coerce(parseNumber, RawMeasure(r, m)) else None;
    var code := Coerce(parseNumber, r.weatherCode);
    Observation(
      r.city,
      if r.time.Some? then parseDate(r.time.value) else None,
      num(PrecipitationSum),
      num(Temperature2mMax),
      num(Temperature2mMin),
      num(RainSum),
      num(SnowfallSum),
      if WeatherCode in columns && code.Some? then Some(code.value.Floor) else None,
      num(WindSpeed10mMax))
  }

  /** `cast_types`: parse every time (or abort), coerce the numeric columns, cast the weather code. */
  function CastTypes(f: Frame<RawRow>, parseDate: string -> Option<CalendarDate>,
                     parseNumber: string -> Option<real>): Result<Frame<Observation>, TransformError>
  {
    if exists i :: 0 <= i < |f.rows| && !TimeParses(parseDate, f.rows[i]) then
      Err(InvalidDate)
    else if WeatherCode in f.columns && exists i :: 0 <= i < |f.rows| && !CodeCasts(parseNumber, f.rows[i]) then
      Err(InvalidWeatherCode)
    else
      Ok(Frame(f.columns,
               seq(|f.rows|, i requires 0 <= i < |f.rows| => CastRow(f.columns, parseDate, parseNumber, f.rows[i]))))
  }

  // ---------------------------------------------------------------------------
  // Stage 4: missing values

  /** Some column of the frame holds no value in this row. */
  predicate HasMissing(columns: set<Column>, o: Observation) {
    || o.time.None?
    || (exists m :: m in NumericMeasures && Numeric(m) in columns && Value(o, m).None?)
    || (WeatherCode in columns && o.weatherCode.None?)
  }

  predicate AnyMissing(f: Frame<Observation>) {
    exists i :: 0 <= i < |f.rows| && HasMissing(f.columns, f.rows[i])
  }

  /** The measurement after filling: a missing value of a present column becomes `fill(m)`. */
  function FillValue(columns: set<Column>, o: Observation, m: Measure, fill: Measure -> Option<real>): Option<real> {
    if Numeric(m) in columns && Value(o, m).None? then fill(m) else Value(o, m)
  }

  /** `fillna` on the numeric columns of one row; the time is not numeric and stays as it is. */
  function FillRow(columns: set<Column>, o: Observation, fill: Measure -> Option<real>, codeFill: Option<int>): Observation {
    Observation(
      o.city,
      o.time,
      FillValue(columns, o, PrecipitationSum, fill),
      FillValue(columns, o, Temperature2mMax, fill),
      FillValue(columns, o, Temperature2mMin, fill),
      FillValue(columns, o, RainSum, fill),
      FillValue(columns, o, SnowfallSum, fill),
      if WeatherCode in columns && o.weatherCode.None? then codeFill else o.weatherCode,
      FillValue(columns, o, WindSpeed10mMax, fill))
  }

  function FillAll(f: Frame<Observation>, fill: Measure -> Option<real>, codeFill: Option<int>): Frame<Observation> {
    Frame(f.columns, seq(|f.rows|, i requires 0 <= i < |f.rows| => FillRow(f.columns, f.rows[i], fill, codeFill)))
  }

  function SumPresent(vs: seq<Option<real>>): real
    decreases |vs|
  {
    if vs == [] then 0.0
    else SumPresent(vs[..|vs| - 1]) + vs[|vs| - 1].GetOr(0.0)
  }

  function CountPresent(vs: seq<Option<real>>): nat
    decreases |vs|
  {
    if vs == [] then 0
    else CountPresent(vs[..|vs| - 1]) + (if vs[|vs| - 1].Some? then 1 else 0)
  }

  /** pandas' `mean()`: the average of the values present, NaN (here `None`) when there are none. */
  function Mean(vs: seq<Option<real>>): Option<real> {
    if CountPresent(vs) == 0 then None else Some(SumPresent(vs) / CountPresent(vs) as real)
  }

  function ColumnValues(rows: seq<Observation>, m: Measure): seq<Option<real>> {
    seq(|rows|, i requires 0 <= i < |rows| => Value(rows[i], m))
  }

  function CodeValues(rows: seq<Observation>): seq<Option<real>> {
    seq(|rows|, i requires 0 <= i < |rows| =>
      if rows[i].weatherCode.Some? then Some(rows[i].weatherCode.value as real) else None)
  }

  /** Strategy `fill_zero`. */
  function FillZero(f: Frame<Observation>): Frame<Observation> {
    FillAll(f, _ => Some(0.0), Some(0))
  }

  /** Strategy `fill_mean`; the nullable-integer weather code only accepts an integral mean. */
  function FillMean(f: Frame<Observation>): Result<Frame<Observation>, TransformError> {
    var codeMean := Mean(CodeValues(f.rows));
    if && WeatherCode in f.columns
       && (exists i :: 0 <= i < |f.rows| && f.rows[i].weatherCode.None?)
       && codeMean.Some? && !IsIntegral(codeMean.value)
    then Err(NonIntegralFill)
    else Ok(FillAll(f, m => Mean(ColumnValues(f.rows, m)),
                    if codeMean.Some? then Some(codeMean.value.Floor) else None))
  }

  /** Strategy `drop`: `dropna()` removes every row with a missing value in any column. */
  function DropMissing(f: Frame<Observation>): Frame<Observation> {
    Frame(f.columns, Filter(f.rows, o => !HasMissing(f.columns, o)))
  }

  /** `handle_missing_values`: a frame with nothing missing is returned before the strategy is looked at. */
  function HandleMissingValues(f: Frame<Observation>, strategy: string): Result<Frame<Observation>, TransformError> {
    if !AnyMissing(f) then Ok(f)
    else if strategy == "drop" then Ok(DropMissing(f))
    else if strategy == "fill_zero" then Ok(FillZero(f))
    else if strategy == "fill_mean" then FillMean(f)
    else Err(UnknownStrategy(strategy))
  }

  // ---------------------------------------------------------------------------
  // Stage 5: temperature range

  /** A present value outside the closed range; a missing value compares false and is not out of range. */
  predicate OutOfRange(v: Option<real>) {
    v.Some? && (v.value < MinTemperature || v.value > MaxTemperature)
  }

  predicate TemperatureRejected(o: Observation) {
    OutOfRange(o.temperature2mMax) || OutOfRange(o.temperature2mMin)
  }

  /** `validate_temperature`: both temperature columns are read, so both must exist. */
  function ValidateTemperature(f: Frame<Observation>): Result<Frame<Observation>, TransformError> {
    if Numeric(Temperature2mMax) !in f.columns then Err(MissingColumn(Numeric(Temperature2mMax)))
    else if Numeric(Temperature2mMin) !in f.columns then Err(MissingColumn(Numeric(Temperature2mMin)))
    else Ok(Frame(f.columns, Filter(f.rows, o => !TemperatureRejected(o))))
  }

  // ---------------------------------------------------------------------------
  // Stage 6: non-negative precipitation

  predicate Negative(v: Option<real>) {
    v.Some? && v.value < 0.0
  }

  /** Some precipitation-family column that the frame has is negative in this row. */
  predicate NegativePrecipitation(columns: set<Column>, o: Observation) {
    exists m :: m in PrecipitationColumns && Numeric(m) in columns && Negative(Value(o, m))
  }

  /** What `validate_precipitation` returns. */
  function PrecipitationChecked(f: Frame<Observation>): Frame<Observation> {
    Frame(f.columns, Filter(f.rows, o => !NegativePrecipitation(f.columns, o)))
  }

  /** `existing_cols`: the precipitation-family columns the frame has, in their listed order. */
  function ExistingPrecipitation(columns: set<Column>): seq<Measure> {
    Filter(PrecipitationColumns, m => Numeric(m) in columns)
  }

  /** `validate_precipitation`: OR a negativity mask column by column, then keep the unmasked rows. */
  method ValidatePrecipitation(f: Frame<Observation>) returns (r: Frame<Observation>)
    ensures r == PrecipitationChecked(f)
  {
    var existing := ExistingPrecipitation(f.columns);
    var n := |f.rows|;
    var mask: seq<bool> := seq(n, _ => false);
    for k := 0 to |existing|
      invariant |mask| == n
      invariant forall i :: 0 <= i < n ==>
        mask[i] == exists j :: 0 <= j < k && Negative(Value(f.rows[i], existing[j]))
    {
      var col := existing[k];
      mask := seq(n, i requires 0 <= i < n => mask[i] || Negative(Value(f.rows[i], col)));
    }
    FilterMembers(PrecipitationColumns, m => Numeric(m) in f.columns);
    var keep := seq(n, i requires 0 <= i < n => !mask[i]);
    forall i | 0 <= i < n
      ensures keep[i] == !NegativePrecipitation(f.columns, f.rows[i])
    {
      if NegativePrecipitation(f.columns, f.rows[i]) {
        var m :| m in PrecipitationColumns && Numeric(m) in f.columns && Negative(Value(f.rows[i], m));
        assert m in existing;
        var j :| 0 <= j < |existing| && existing[j] == m;
      }
    }
    SelectByTestIsFilter(f.rows, keep, o => !NegativePrecipitation(f.columns, o));
    r := Frame(f.columns, Select(f.rows, keep));
  }

  // ---------------------------------------------------------------------------
  // Stage 7: derived columns

  function Difference(a: Option<real>, b: Option<real>): Option<real> {
    if a.Some? && b.Some? then Some(a.value - b.value) else None
  }

  function Enrich(o: Observation): Enriched {
    Enriched(
      o,
      Difference(o.temperature2mMax, o.temperature2mMin),
      if o.time.Some? then Some(o.time.value.month) else None,
      if o.time.Some? then Some(DayName(o.time.value)) else None)
  }

  /** `add_computed_columns`: `temp_range`, `month` and `day_of_week`, row by row. */
  function AddComputedColumns(f: Frame<Observation>): Result<Frame<Enriched>, TransformError> {
    if Numeric(Temperature2mMax) !in f.columns then Err(MissingColumn(Numeric(Temperature2mMax)))
    else if Numeric(Temperature2mMin) !in f.columns then Err(MissingColumn(Numeric(Temperature2mMin)))
    else Ok(Frame(f.columns + {TempRange, Month, DayOfWeek},
                  seq(|f.rows|, i requires 0 <= i < |f.rows| => Enrich(f.rows[i]))))
  }

  // ---------------------------------------------------------------------------
  // The pipeline

  /** What `transform` returns, stage by stage. */
  function Pipeline(raw: Frame<RawRow>, strategy: string, parseDate: string -> Option<CalendarDate>,
                    parseNumber: string -> Option<real>): Result<Frame<Enriched>, TransformError>
  {
    var deduplicated := RemoveDuplicates(DropProvenance(raw));
    var typed :- CastTypes(deduplicated, parseDate, parseNumber);
    var complete :- HandleMissingValues(typed, strategy);
    var plausible :- ValidateTemperature(complete);
    AddComputedColumns(PrecipitationChecked(plausible))
  }

  /** `transform`: the stages in their fixed order; resetting the index has no counterpart in a sequence. */
  method Transform(raw: Frame<RawRow>, strategy: string, parseDate: string -> Option<CalendarDate>,
                   parseNumber: string -> Option<real>) returns (r: Result<Frame<Enriched>, TransformError>)
    ensures r == Pipeline(raw, strategy, parseDate, parseNumber)
  {
    var df := DropProvenance(raw);
    df := RemoveDuplicates(df);
    var typed :- CastTypes(df, parseDate, parseNumber);
    typed :- HandleMissingValues(typed, strategy);
    typed :- ValidateTemperature(typed);
    typed := ValidatePrecipitation(typed);
    r := AddComputedColumns(typed);
  }
}
