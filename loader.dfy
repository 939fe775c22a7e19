/**
 * The load stage: enriched rows become 12-value records, and the records are upserted into the
 * `weather_data` table keyed on (city, time), in one transaction that commits or rolls back.
 */
module Loader {
  import opened Wrappers
  import opened Calendar
  import opened Observations

  // ---------------------------------------------------------------------------
  // Values and records

  /** A value as the database driver sends it. */
  datatype SqlValue =
    | Null
    | SqlText(s: string)
    | SqlFloat(x: real)
    | SqlInt(i: int)
    | SqlDate(d: CalendarDate)

  /** One row of the batch: a value per column of `LoadColumns`, in that order. */
  type Record = seq<SqlValue>

  /** The ways `load`, `create_table` and `get_row_count` can fail. */
  datatype LoadError =
    | MissingColumn(column: Column) // `row[col]` on a column the frame lacks
    | Unreachable                   // no connection to the database
    | WriteFailed                   // the write or the commit failed for a reason outside the data
    | Rejected                      // the database refused the batch (a constraint, or one key twice in a statement)
    | NoTable                       // `weather_data` does not exist yet

  /** The connection the database offers to one call. */
  datatype Connection = Up | Down | FailsOnWrite

  /** The columns `load` reads from each row, in insert order. */
  const LoadColumns: seq<Column> := [
    City, Time, Numeric(PrecipitationSum), Numeric(Temperature2mMax), Numeric(Temperature2mMin),
    Numeric(RainSum), Numeric(SnowfallSum), WeatherCode, Numeric(WindSpeed10mMax),
    TempRange, Month, DayOfWeek]

  /** What `row[col]` holds: missing (NaN, NaT or NA), a float, an integer, a string or a timestamp. */
  datatype FrameValue = Missing | FrameFloat(x: real) | FrameInt(i: int) | FrameStr(s: string) | FrameTimestamp(d: CalendarDate)

  function FloatOrMissing(v: Option<real>): FrameValue {
    if v.Some? then FrameFloat(v.value) else Missing
  }

  /** `row[col]`; provenance is never read by `load`. */
  function Lookup(e: Enriched, c: Column): FrameValue {
    match c
    case City => FrameStr(e.obs.city)
    case Time => if e.obs.time.Some? then FrameTimestamp(e.obs.time.value) else Missing
    case Numeric(m) => FloatOrMissing(Value(e.obs, m))
    case WeatherCode => if e.obs.weatherCode.Some? then FrameInt(e.obs.weatherCode.value) else Missing
    case TempRange => FloatOrMissing(e.tempRange)
    case Month => if e.month.Some? then FrameInt(e.month.value) else Missing
    case DayOfWeek => if e.dayOfWeek.Some? then FrameStr(e.dayOfWeek.value) else Missing
    case SourceFile => Missing
  }

  /** The database value of column `c` of a row: NULL where the row holds nothing. */
  function CellOf(e: Enriched, c: Column): SqlValue {
    match c
    case City => SqlText(e.obs.city)
    case Time => if e.obs.time.Some? then SqlDate(e.obs.time.value) else Null
    case Numeric(m) => if Value(e.obs, m).Some? then SqlFloat(Value(e.obs, m).value) else Null
    case WeatherCode => if e.obs.weatherCode.Some? then SqlInt(e.obs.weatherCode.value) else Null
    case TempRange => if e.tempRange.Some? then SqlFloat(e.tempRange.value) else Null
    case Month => if e.month.Some? then SqlInt(e.month.value) else Null
    case DayOfWeek => if e.dayOfWeek.Some? then SqlText(e.dayOfWeek.value) else Null
    case SourceFile => Null
  }

  function RecordOf(e: Enriched): Record {
    seq(|LoadColumns|, k requires 0 <= k < |LoadColumns| => CellOf(e, LoadColumns[k]))
  }

  /** The first of `cs` the frame does not carry. */
  function FirstAbsent(cs: seq<Column>, columns: set<Column>): Option<Column> {
    if cs == [] then None
    else if cs[0] !in columns then Some(cs[0])
    else FirstAbsent(cs[1..], columns)
  }

  /** The records `load` builds, or the KeyError of the first column it cannot find; an empty frame reads no column. */
  function Records(f: Frame<Enriched>): Result<seq<Record>, LoadError> {
    if |f.rows| == 0 then Ok([])
    else match FirstAbsent(LoadColumns, f.columns)
      case Some(c) => Err(MissingColumn(c))
      case None => Ok(seq(|f.rows|, i requires 0 <= i < |f.rows| => RecordOf(f.rows[i])))
  }

  lemma {:induction false} FirstAbsentAt(cs: seq<Column>, columns: set<Column>, k: nat)
    requires k < |cs| && cs[k] !in columns
    requires forall j :: 0 <= j < k ==> cs[j] in columns
    ensures FirstAbsent(cs, columns) == Some(cs[k])
    decreases k
  {
    if k > 0 {
      assert cs[0] in columns;
      FirstAbsentAt(cs[1..], columns, k - 1);
    }
  }

  lemma {:induction false} FirstAbsentNone(cs: seq<Column>, columns: set<Column>)
    requires forall j :: 0 <= j < |cs| ==> cs[j] in columns
    ensures FirstAbsent(cs, columns) == None
    decreases |cs|
  {
    if cs != [] {
      FirstAbsentNone(cs[1..], columns);
    }
  }

  /** The driver's conversion of a value `load` passes through unchanged. */
  function Adapt(v: FrameValue): SqlValue {
    match v
    case Missing => Null
    case FrameFloat(x) => SqlFloat(x)
    case FrameInt(i) => SqlInt(i)
    case FrameStr(s) => SqlText(s)
    case FrameTimestamp(d) => SqlDate(d)
  }

  /** The record-building loops of `load`: NULL for missing values, `time` as a date, `weather_code` as an int. */
  method BuildRecords(f: Frame<Enriched>) returns (r: Result<seq<Record>, LoadError>)
    ensures r == Records(f)
  {
    var records: seq<Record> := [];
    for i := 0 to |f.rows|
      invariant |records| == i
      invariant forall j :: 0 <= j < i ==> records[j] == RecordOf(f.rows[j])
      invariant i > 0 ==> forall c :: c in LoadColumns ==> c in f.columns
    {
      var row := f.rows[i];
      var record: Record := [];
      for k := 0 to |LoadColumns|
        invariant |record| == k
        invariant forall j :: 0 <= j < k ==> record[j] == CellOf(row, LoadColumns[j]) && LoadColumns[j] in f.columns
      {
        var col := LoadColumns[k];
        if col !in f.columns {
          FirstAbsentAt(LoadColumns, f.columns, k);
          return Err(MissingColumn(col));
        }
        var val := Lookup(row, col);
        var cell: SqlValue;
        if val.Missing? {
          cell := Null;
        } else if col == Time {
          cell := SqlDate(val.d);
        } else if col == WeatherCode {
          cell := SqlInt(val.i);
        } else {
          cell := Adapt(val);
        }
        record := record + [cell];
      }
      assert record == RecordOf(row);
      records := records + [record];
    }
    if |f.rows| > 0 {
      FirstAbsentNone(LoadColumns, f.columns);
    }
    assert records == seq(|f.rows|, i requires 0 <= i < |f.rows| => RecordOf(f.rows[i]));
    r := Ok(records);
  }

  /** The column values of a record back as a row. */
  function DecodeRecord(rec: Record): Option<Enriched>
    requires |rec| == |LoadColumns|
  {
    var float := (v: SqlValue) => if v.SqlFloat? then Some(v.x) else None;
    var integer := (v: SqlValue) => if v.SqlInt? then Some(v.i) else None;
    if !rec[0].SqlText? then None
    else Some(Enriched(
      Observation(
        rec[0].s,
        if rec[1].SqlDate? then Some(rec[1].d) else None,
        float(rec[2]), float(rec[3]), float(rec[4]), float(rec[5]), float(rec[6]),
        integer(rec[7]),
        float(rec[8])),
      float(rec[9]),
      integer(rec[10]),
      if rec[11].SqlText? then Some(rec[11].s) else None))
  }

  // ---------------------------------------------------------------------------
  // The table

  datatype SqlType = Varchar(length: nat) | DateType | FloatType | IntegerType

  datatype SqlColumn = SqlColumn(sqlType: SqlType, notNull: bool)

  /** The columns of `weather_data` that `load` writes, in insert order. */
  const Schema: seq<SqlColumn> := [
    SqlColumn(Varchar(50), true),  // city
    SqlColumn(DateType, true),     // time
    SqlColumn(FloatType, false),   // precipitation_sum
    SqlColumn(FloatType, false),   // temperature_2m_max
    SqlColumn(FloatType, false),   // temperature_2m_min
    SqlColumn(FloatType, false),   // rain_sum
    SqlColumn(FloatType, false),   // snowfall_sum
    SqlColumn(IntegerType, false), // weather_code
    SqlColumn(FloatType, false),   // wind_speed_10m_max
    SqlColumn(FloatType, false),   // temp_range
    SqlColumn(IntegerType, false), // month
    SqlColumn(Varchar(10), false)] // day_of_week

  /** The range of PostgreSQL's 4-byte INTEGER. */
  const MinInteger: int := -0x8000_0000
  const MaxInteger: int := 0x7FFF_FFFF

  /** Rows per INSERT statement. */
  const PageSize: nat := 500

  /** VARCHAR(n): a longer string is refused unless what is past `n` is all spaces, which are cut off. */
  function FitVarchar(s: string, n: nat): Option<string> {
    if |s| <= n then Some(s)
    else if forall k :: n <= k < |s| ==> s[k] == ' ' then Some(s[..n])
    else None
  }

  /** The value column `col` stores for `v`, or `None` when the database refuses it. */
  function StoreCell(col: SqlColumn, v: SqlValue): Option<SqlValue> {
    match v
    case Null => if col.notNull then None else Some(Null)
    case SqlText(s) =>
      if col.sqlType.Varchar? && FitVarchar(s, col.sqlType.length).Some?
      then Some(SqlText(FitVarchar(s, col.sqlType.length).value)) else None
    case SqlFloat(_) => if col.sqlType == FloatType then Some(v) else None
    case SqlInt(i) => if col.sqlType == IntegerType && MinInteger <= i <= MaxInteger then Some(v) else None
    case SqlDate(_) => if col.sqlType == DateType then Some(v) else None
  }

  /** The unique key of the table: `UNIQUE(city, time)`. */
  datatype Key = Key(city: string, day: CalendarDate)

  /** A stored row: its key and its ten other values, in insert order. */
  datatype StoredRow = StoredRow(key: Key, values: seq<SqlValue>)

  type Table = map<Key, seq<SqlValue>>

  /** The values the columns store, or `None` when some column refuses its value. */
  function StoreCells(cols: seq<SqlColumn>, vals: seq<SqlValue>): (r: Option<seq<SqlValue>>)
    requires |cols| == |vals|
    ensures r.Some? <==> forall k :: 0 <= k < |cols| ==> StoreCell(cols[k], vals[k]).Some?
    ensures r.Some? ==> |r.value| == |cols| && forall k :: 0 <= k < |cols| ==> StoreCell(cols[k], vals[k]) == Some(r.value[k])
    decreases |cols|
  {
    if cols == [] then Some([])
    else
      match StoreCell(cols[0], vals[0])
      case None => None
      case Some(v) =>
        match StoreCells(cols[1..], vals[1..])
        case None =>
          assert exists k :: 0 <= k < |cols| - 1 && StoreCell(cols[1..][k], vals[1..][k]).None?;
          None
        case Some(rest) =>
          assert forall k :: 1 <= k < |cols| ==> cols[k] == cols[1..][k - 1] && vals[k] == vals[1..][k - 1];
          Some([v] + rest)
  }

  /** The row the database stores for a record, or `None` when it refuses some value of it. */
  function StoreRow(rec: Record): Option<StoredRow> {
    if |rec| != |Schema| then None
    else
      match StoreCells(Schema, rec)
      case None => None
      case Some(cells) =>
        if cells[0].SqlText? && cells[1].SqlDate? then Some(StoredRow(Key(cells[0].s, cells[1].d), cells[2..]))
        else None
  }

  /** What the database makes of each record of the batch. */
  function Converted(records: seq<Record>): seq<Option<StoredRow>> {
    seq(|records|, i requires 0 <= i < |records| => StoreRow(records[i]))
  }

  /** The upsert of one statement, row by row; `None` when a row is refused or a key comes twice. */
  function RunPage(t: Table, page: seq<Option<StoredRow>>): Option<(Table, set<Key>)>
    decreases |page|
  {
    if page == [] then Some((t, {}))
    else
      match RunPage(t, page[..|page| - 1])
      case None => None
      case Some((t', touched)) =>
        match page[|page| - 1]
        case None => None
        case Some(row) =>
          if row.key in touched then None
          else Some((t'[row.key := row.values], touched + {row.key}))
  }

  /** The statements `execute_values` sends, one per page of `PageSize` rows, inside one transaction. */
  function RunPages(t: Table, rows: seq<Option<StoredRow>>): Option<Table>
    decreases |rows|
  {
    if rows == [] then Some(t)
    else
      var n := if |rows| < PageSize then |rows| else PageSize;
      match RunPage(t, rows[..n])
      case None => None
      case Some((t', _)) => RunPages(t', rows[n..])
  }

  /** `load` against a table: the row count it returns and the table it commits, or its error. */
  function LoadTable(t: Table, f: Frame<Enriched>, connection: Connection): Result<(nat, Table), LoadError> {
    if connection == Down then Err(Unreachable)
    else
      match Records(f)
      case Err(e) => Err(e)
      case Ok(records) =>
        if connection == FailsOnWrite then Err(WriteFailed)
        else match RunPages(t, Converted(records))
          case None => Err(Rejected)
          case Some(t') => Ok((|f.rows|, t'))
  }

  /** Every stored row has ten values besides its key. */
  predicate WellFormed(t: Table) {
    forall k :: k in t ==> |t[k]| == |Schema| - 2
  }

  lemma StoreRowWellFormed(rec: Record)
    ensures StoreRow(rec).Some? ==> |StoreRow(rec).value.values| == |Schema| - 2
  {
  }

  predicate RowsWellFormed(rows: seq<Option<StoredRow>>) {
    forall i :: 0 <= i < |rows| && rows[i].Some? ==> |rows[i].value.values| == |Schema| - 2
  }

  lemma ConvertedWellFormed(records: seq<Record>)
    ensures RowsWellFormed(Converted(records))
  {
    forall i | 0 <= i < |records|
      ensures StoreRow(records[i]).Some? ==> |StoreRow(records[i]).value.values| == |Schema| - 2
    {
      StoreRowWellFormed(records[i]);
    }
  }

  lemma {:induction false} RunPageWellFormed(t: Table, page: seq<Option<StoredRow>>)
    requires WellFormed(t) && RowsWellFormed(page)
    ensures RunPage(t, page).Some? ==> WellFormed(RunPage(t, page).value.0)
    decreases |page|
  {
    if page != [] {
      RunPageWellFormed(t, page[..|page| - 1]);
    }
  }

  lemma {:induction false} RunPagesWellFormed(t: Table, rows: seq<Option<StoredRow>>)
    requires WellFormed(t) && RowsWellFormed(rows)
    ensures RunPages(t, rows).Some? ==> WellFormed(RunPages(t, rows).value)
    decreases |rows|
  {
    if rows != [] {
      var n := if |rows| < PageSize then |rows| else PageSize;
      RunPageWellFormed(t, rows[..n]);
      if RunPage(t, rows[..n]).Some? {
        RunPagesWellFormed(RunPage(t, rows[..n]).value.0, rows[n..]);
      }
    }
  }

  /** The `weather_data` table and whether `create_table` has made it. */
  class Store {
    var created: bool
    var table: Table

    predicate Valid()
      reads this
    {
      WellFormed(table) && (!created ==> table == map[])
    }

    /** A database without the table. */
    constructor()
      ensures Valid() && !created && table == map[]
    {
      created := false;
      table := map[];
    }

    /** `create_table`: `CREATE TABLE IF NOT EXISTS` makes the table once and never touches its rows. */
    method CreateTable(connection: Connection) returns (r: Result<(), LoadError>)
      requires Valid()
      modifies this
      ensures Valid()
      ensures table == old(table)
      ensures connection == Down ==> r == Err(Unreachable) && created == old(created)
      ensures connection != Down ==> r == Ok(()) && created
    {
      if connection == Down {
        return Err(Unreachable);
      }
      created := true;
      r := Ok(());
    }

    /**
     * `load`: make the table, build the records, upsert them and commit, or roll back and raise.
     * A failure after `create_table` leaves the table made but its rows as they were.
     */
    method Load(f: Frame<Enriched>, connection: Connection) returns (r: Result<nat, LoadError>)
      requires Valid()
      modifies this
      ensures Valid()
      ensures created == (old(created) || connection != Down)
      ensures match LoadTable(old(table), f, connection)
              case Ok((n, t)) => r == Ok(n) && table == t
              case Err(e) => r == Err(e) && table == old(table)
    {
      var made := CreateTable(connection);
      if made.Err? {
        return Err(made.error);
      }
      var records :- BuildRecords(f);
      if connection == FailsOnWrite {
        return Err(WriteFailed);
      }
      var written := RunPages(table, Converted(records));
      if written.None? {
        return Err(Rejected);
      }
      ConvertedWellFormed(records);
      RunPagesWellFormed(table, Converted(records));
      table := written.value;
      r := Ok(|f.rows|);
    }

    /** `get_row_count`: `SELECT COUNT(*)`, which fails while the table does not exist. */
    method GetRowCount(connection: Connection) returns (r: Result<nat, LoadError>)
      ensures connection == Down ==> r == Err(Unreachable)
      ensures connection != Down && !created ==> r == Err(NoTable)
      ensures connection != Down && created ==> r == Ok(|table.Keys|)
    {
      if connection == Down {
        return Err(Unreachable);
      }
      if !created {
        return Err(NoTable);
      }
      r := Ok(|table.Keys|);
    }
  }
}
