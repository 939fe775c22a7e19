/** The daily weather observation in its three shapes: as extracted, after type casting, and enriched. */
module Observations {
  import opened Wrappers
  import opened Calendar

  /** The six floating-point measurement columns, in the order `cast_types` lists them. */
  datatype Measure =
    | PrecipitationSum
    | Temperature2mMax
    | Temperature2mMin
    | RainSum
    | SnowfallSum
    | WindSpeed10mMax

  /** Every column a frame of this pipeline can carry. `city` and `time` are always present. */
  datatype Column =
    | City
    | Time
    | Numeric(measure: Measure)
    | WeatherCode
    | SourceFile
    | TempRange
    | Month
    | DayOfWeek

  /** The numeric measurement columns, as `cast_types` lists them. */
  const NumericMeasures: seq<Measure> :=
    [PrecipitationSum, Temperature2mMax, Temperature2mMin, RainSum, SnowfallSum, WindSpeed10mMax]

  /** The precipitation-family columns, as `validate_precipitation` lists them. */
  const PrecipitationColumns: seq<Measure> := [PrecipitationSum, RainSum, SnowfallSum]

  lemma EveryMeasureListed(m: Measure)
    ensures m in NumericMeasures
  {
  }

  /** A cell as the file readers produce it: a blank (NaN), a number, or text. */
  datatype Cell = Blank | Number(x: real) | Text(s: string)

  /** One extracted row, tagged with its city and origin file. */
  datatype RawRow = RawRow(
    city: string,
    time: Option<string>,
    precipitationSum: Cell,
    temperature2mMax: Cell,
    temperature2mMin: Cell,
    rainSum: Cell,
    snowfallSum: Cell,
    weatherCode: Cell,
    windSpeed10mMax: Cell,
    sourceFile: Option<string>)

  function RawMeasure(r: RawRow, m: Measure): Cell {
    match m
    case PrecipitationSum => r.precipitationSum
    case Temperature2mMax => r.temperature2mMax
    case Temperature2mMin => r.temperature2mMin
    case RainSum => r.rainSum
    case SnowfallSum => r.snowfallSum
    case WindSpeed10mMax => r.windSpeed10mMax
  }

  /** One row after type casting: a parsed date, reals for measurements, an integer weather code. */
  datatype Observation = Observation(
    city: string,
    time: Option<CalendarDate>,
    precipitationSum: Option<real>,
    temperature2mMax: Option<real>,
    temperature2mMin: Option<real>,
    rainSum: Option<real>,
    snowfallSum: Option<real>,
    weatherCode: Option<int>,
    windSpeed10mMax: Option<real>)

  function Value(o: Observation, m: Measure): Option<real> {
    match m
    case PrecipitationSum => o.precipitationSum
    case Temperature2mMax => o.temperature2mMax
    case Temperature2mMin => o.temperature2mMin
    case RainSum => o.rainSum
    case SnowfallSum => o.snowfallSum
    case WindSpeed10mMax => o.windSpeed10mMax
  }

  /** The identity of an observation: one row per city and date. */
  datatype ObsKey = ObsKey(city: string, time: Option<CalendarDate>)

  function KeyOf(o: Observation): ObsKey {
    ObsKey(o.city, o.time)
  }

  /** `o` with measurement `m` replaced by `v`, every other field as it was. */
  function WithValue(o: Observation, m: Measure, v: Option<real>): (r: Observation)
    ensures Value(r, m) == v
    ensures forall m' :: m' != m ==> Value(r, m') == Value(o, m')
    ensures r.city == o.city && r.time == o.time && r.weatherCode == o.weatherCode
  {
    match m
    case PrecipitationSum => o.(precipitationSum := v)
    case Temperature2mMax => o.(temperature2mMax := v)
    case Temperature2mMin => o.(temperature2mMin := v)
    case RainSum => o.(rainSum := v)
    case SnowfallSum => o.(snowfallSum := v)
    case WindSpeed10mMax => o.(windSpeed10mMax := v)
  }

  /** An observation with the three derived columns of `add_computed_columns`. */
  datatype Enriched = Enriched(
    obs: Observation,
    tempRange: Option<real>,
    month: Option<int>,
    dayOfWeek: Option<string>)

  /** A data frame: the columns it carries and its rows in order. */
  datatype Frame<R> = Frame(columns: set<Column>, rows: seq<R>)
}
