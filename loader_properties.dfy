/** What `load`, `create_table` and `get_row_count` promise, proved about the model of the load stage. */
module LoaderProperties {
  import opened Wrappers
  import opened Calendar
  import opened Observations
  import opened Loader

  // ---------------------------------------------------------------------------
  // Record conversion

  /** A record keeps every value of its row: decoding it gives the row back. */
  lemma DecodeRecordOfRow(e: Enriched)
    ensures DecodeRecord(RecordOf(e)) == Some(e)
  {
    var rec := RecordOf(e);
    assert rec[0] == SqlText(e.obs.city);
    assert rec[2] == CellOf(e, Numeric(PrecipitationSum));
  }

  /** Records use the fixed column order, NULL for missing values and `time` as a date. */
  lemma RecordsFollowColumnOrder(f: Frame<Enriched>)
    requires forall c :: c in LoadColumns ==> c in f.columns
    ensures var r := Records(f);
            && r.Ok? && |r.value| == |f.rows|
            && forall i :: 0 <= i < |f.rows| ==>
                 && |r.value[i]| == 12
                 && r.value[i][0] == SqlText(f.rows[i].obs.city)
                 && (r.value[i][1] == Null <==> f.rows[i].obs.time.None?)
                 && (f.rows[i].obs.time.Some? ==> r.value[i][1] == SqlDate(f.rows[i].obs.time.value))
                 && (r.value[i][7] == Null <==> f.rows[i].obs.weatherCode.None?)
                 && (f.rows[i].obs.weatherCode.Some? ==> r.value[i][7] == SqlInt(f.rows[i].obs.weatherCode.value))
  {
    if |f.rows| > 0 {
      FirstAbsentNone(LoadColumns, f.columns);
    }
  }

  /** `load` raises KeyError exactly when the frame has rows and lacks a column it reads. */
  lemma RecordsNeedEveryColumn(f: Frame<Enriched>)
    ensures Records(f).Err? <==> |f.rows| > 0 && exists c :: c in LoadColumns && c !in f.columns
  {
    if |f.rows| > 0 {
      if forall c :: c in LoadColumns ==> c in f.columns {
        FirstAbsentNone(LoadColumns, f.columns);
      } else {
        var c :| c in LoadColumns && c !in f.columns;
        FirstAbsentSome(LoadColumns, f.columns, c);
      }
    }
  }

  lemma {:induction false} FirstAbsentSome(cs: seq<Column>, columns: set<Column>, c: Column)
    requires c in cs && c !in columns
    ensures FirstAbsent(cs, columns).Some?
    decreases |cs|
  {
    if cs[0] in columns {
      assert c in cs[1..];
      FirstAbsentSome(cs[1..], columns, c);
    }
  }

  // ---------------------------------------------------------------------------
  // What the table accepts from one row

  predicate IntegerFits(v: Option<int>) {
    v.None? || MinInteger <= v.value <= MaxInteger
  }

  /** The row satisfies every column constraint of `weather_data`. */
  predicate Loadable(e: Enriched) {
    && e.obs.time.Some?
    && FitVarchar(e.obs.city, 50).Some?
    && IntegerFits(e.obs.weatherCode)
    && IntegerFits(e.month)
    && (e.dayOfWeek.Some? ==> FitVarchar(e.dayOfWeek.value, 10).Some?)
  }

  /** How each of the twelve values of a row's record fares in its column. */
  lemma StoreCellsOfRecord(e: Enriched)
    ensures var rec := RecordOf(e);
            && StoreCell(Schema[0], rec[0]) == (if FitVarchar(e.obs.city, 50).Some? then Some(SqlText(FitVarchar(e.obs.city, 50).value)) else None)
            && StoreCell(Schema[1], rec[1]) == (if e.obs.time.Some? then Some(SqlDate(e.obs.time.value)) else None)
            && (StoreCell(Schema[7], rec[7]).Some? <==> IntegerFits(e.obs.weatherCode))
            && (StoreCell(Schema[10], rec[10]).Some? <==> IntegerFits(e.month))
            && (StoreCell(Schema[11], rec[11]).Some? <==> e.dayOfWeek.Some? ==> FitVarchar(e.dayOfWeek.value, 10).Some?)
            && (e.dayOfWeek.Some? && FitVarchar(e.dayOfWeek.value, 10).Some? ==>
                  StoreCell(Schema[11], rec[11]) == Some(SqlText(FitVarchar(e.dayOfWeek.value, 10).value)))
            && (e.dayOfWeek.None? ==> StoreCell(Schema[11], rec[11]) == Some(Null))
            && forall k :: 2 <= k < 11 && (k == 7 ==> IntegerFits(e.obs.weatherCode)) && (k == 10 ==> IntegerFits(e.month)) ==>
                 StoreCell(Schema[k], rec[k]) == Some(rec[k])
  {
    var rec := RecordOf(e);
    assert rec[0] == CellOf(e, City) && rec[1] == CellOf(e, Time) && rec[7] == CellOf(e, WeatherCode);
    assert rec[10] == CellOf(e, Month) && rec[11] == CellOf(e, DayOfWeek);
    forall k | 2 <= k < 11 && (k == 7 ==> IntegerFits(e.obs.weatherCode)) && (k == 10 ==> IntegerFits(e.month))
      ensures StoreCell(Schema[k], rec[k]) == Some(rec[k])
    {
      assert rec[k] == CellOf(e, LoadColumns[k]);
    }
  }

  lemma LoadableRowStored(e: Enriched)
    requires Loadable(e)
    ensures StoreRow(RecordOf(e)).Some?
    ensures var row := StoreRow(RecordOf(e)).value;
            && row.key == Key(FitVarchar(e.obs.city, 50).value, e.obs.time.value)
            && |row.values| == 10
            && row.values[..9] == RecordOf(e)[2..11]
            && (e.dayOfWeek.Some? ==> row.values[9] == SqlText(FitVarchar(e.dayOfWeek.value, 10).value))
            && (e.dayOfWeek.None? ==> row.values[9] == Null)
  {
    var rec := RecordOf(e);
    StoreCellsOfRecord(e);
    forall k | 0 <= k < |Schema|
      ensures StoreCell(Schema[k], rec[k]).Some?
    {
      if 2 <= k < 11 {
        assert StoreCell(Schema[k], rec[k]) == Some(rec[k]);
      }
    }
    var cells := seq(|Schema|, k requires 0 <= k < |Schema| => StoreCell(Schema[k], rec[k]).value);
    assert forall k :: 2 <= k < 11 ==> cells[k] == rec[k];
    assert cells[2..][..9] == rec[2..11];
  }

  lemma UnloadableRowRefused(e: Enriched)
    requires !Loadable(e)
    ensures StoreRow(RecordOf(e)).None?
  {
    var rec := RecordOf(e);
    StoreCellsOfRecord(e);
    if e.obs.time.None? {
      assert StoreCell(Schema[1], rec[1]).None?;
    } else if FitVarchar(e.obs.city, 50).None? {
      assert StoreCell(Schema[0], rec[0]).None?;
    } else if !IntegerFits(e.obs.weatherCode) {
      assert StoreCell(Schema[7], rec[7]).None?;
    } else if !IntegerFits(e.month) {
      assert StoreCell(Schema[10], rec[10]).None?;
    } else {
      assert StoreCell(Schema[11], rec[11]).None?;
    }
  }

  /**
   * The database stores a row exactly when it meets the constraints (NOT NULL city and time,
   * VARCHAR lengths, INTEGER range), keyed on its city and date, with its ten other values.
   */
  lemma StoreRowOfRecord(e: Enriched)
    ensures StoreRow(RecordOf(e)).Some? <==> Loadable(e)
    ensures Loadable(e) ==>
              var row := StoreRow(RecordOf(e)).value;
              && row.key == Key(FitVarchar(e.obs.city, 50).value, e.obs.time.value)
              && |row.values| == 10
              && row.values[..9] == RecordOf(e)[2..11]
              && (e.dayOfWeek.Some? ==> row.values[9] == SqlText(FitVarchar(e.dayOfWeek.value, 10).value))
              && (e.dayOfWeek.None? ==> row.values[9] == Null)
  {
    if Loadable(e) {
      LoadableRowStored(e);
    } else {
      UnloadableRowRefused(e);
    }
  }

  /** A row named in at most 50 characters is keyed on exactly its city and date. */
  lemma ShortCityIsKey(e: Enriched)
    requires Loadable(e) && |e.obs.city| <= 50
    ensures StoreRow(RecordOf(e)).Some? && StoreRow(RecordOf(e)).value.key == Key(e.obs.city, e.obs.time.value)
  {
    StoreRowOfRecord(e);
  }

  /** Rows that differ in city are never stored under one key, whatever their date. */
  lemma NoCollisionOnDateAlone(a: Enriched, b: Enriched)
    requires Loadable(a) && Loadable(b) && |a.obs.city| <= 50 && |b.obs.city| <= 50
    requires a.obs.city != b.obs.city
    ensures StoreRow(RecordOf(a)).Some? && StoreRow(RecordOf(b)).Some?
    ensures StoreRow(RecordOf(a)).value.key != StoreRow(RecordOf(b)).value.key
  {
    ShortCityIsKey(a);
    ShortCityIsKey(b);
  }

  /** A 51-character city whose last character is a space is cut to 50 characters. */
  lemma TrailingSpacesAreCut(s: string)
    requires |s| == 50
    ensures FitVarchar(s + " ", 50) == Some(s)
    ensures FitVarchar(s + "x", 50) == None
  {
    assert (s + " ")[..50] == s;
    assert (s + "x")[50] == 'x';
  }

  // ---------------------------------------------------------------------------
  // The upsert as a fold over stored rows

  /** The database accepts every row. */
  predicate Storable(rows: seq<Option<StoredRow>>) {
    forall i :: 0 <= i < |rows| ==> rows[i].Some?
  }

  function StoredRows(rows: seq<Option<StoredRow>>): seq<StoredRow>
    requires Storable(rows)
  {
    seq(|rows|, i requires 0 <= i < |rows| => rows[i].value)
  }

  function KeySet(rows: seq<StoredRow>): set<Key> {
    set i | 0 <= i < |rows| :: rows[i].key
  }

  predicate DistinctKeys(rows: seq<StoredRow>) {
    forall i, j :: 0 <= i < j < |rows| ==> rows[i].key != rows[j].key
  }

  /** No two rows of one page of `PageSize` share a key. */
  predicate PagesDistinct(rows: seq<StoredRow>) {
    forall i, j :: 0 <= i < j < |rows| && i / PageSize == j / PageSize ==> rows[i].key != rows[j].key
  }

  /** Upserting rows one after the other: each writes its values under its key. */
  function Apply(t: Table, rows: seq<StoredRow>): Table
    decreases |rows|
  {
    if rows == [] then t
    else Apply(t, rows[..|rows| - 1])[rows[|rows| - 1].key := rows[|rows| - 1].values]
  }

  /** The position of the last row of `rows` with key `k`. */
  function LastIndex(rows: seq<StoredRow>, k: Key): (i: nat)
    requires k in KeySet(rows)
    ensures i < |rows| && rows[i].key == k
    ensures forall j :: i < j < |rows| ==> rows[j].key != k
    decreases |rows|
  {
    if rows[|rows| - 1].key == k then |rows| - 1
    else
      var prefix := rows[..|rows| - 1];
      assert k in KeySet(prefix) by {
        var i :| 0 <= i < |rows| && rows[i].key == k;
        assert prefix[i] == rows[i];
      }
      LastIndex(prefix, k)
  }

  lemma {:induction false} ApplyConcat(t: Table, a: seq<StoredRow>, b: seq<StoredRow>)
    ensures Apply(t, a + b) == Apply(Apply(t, a), b)
    decreases |b|
  {
    if b == [] {
      assert a + b == a;
    } else {
      ApplyConcat(t, a, b[..|b| - 1]);
      assert (a + b)[..|a + b| - 1] == a + b[..|b| - 1];
    }
  }

  lemma KeySetSnoc(rows: seq<StoredRow>)
    requires rows != []
    ensures KeySet(rows) == KeySet(rows[..|rows| - 1]) + {rows[|rows| - 1].key}
  {
    var prefix := rows[..|rows| - 1];
    forall k | k in KeySet(rows)
      ensures k in KeySet(prefix) + {rows[|rows| - 1].key}
    {
      var i :| 0 <= i < |rows| && rows[i].key == k;
      if i < |rows| - 1 {
        assert prefix[i] == rows[i];
      }
    }
    forall k | k in KeySet(prefix)
      ensures k in KeySet(rows)
    {
      var i :| 0 <= i < |prefix| && prefix[i].key == k;
      assert rows[i] == prefix[i];
    }
  }

  /** After the upsert a key holds the values of its last row in the batch; other keys are untouched. */
  lemma {:induction false} ApplyAt(t: Table, rows: seq<StoredRow>, k: Key)
    ensures k in Apply(t, rows) <==> k in t || k in KeySet(rows)
    ensures k in KeySet(rows) ==> Apply(t, rows)[k] == rows[LastIndex(rows, k)].values
    ensures k !in KeySet(rows) && k in t ==> Apply(t, rows)[k] == t[k]
    decreases |rows|
  {
    if rows != [] {
      var prefix := rows[..|rows| - 1];
      KeySetSnoc(rows);
      ApplyAt(t, prefix, k);
      if k != rows[|rows| - 1].key && k in KeySet(rows) {
        assert LastIndex(rows, k) == LastIndex(prefix, k);
      }
    }
  }

  lemma ApplyKeys(t: Table, rows: seq<StoredRow>)
    ensures Apply(t, rows).Keys == t.Keys + KeySet(rows)
  {
    forall k | true
      ensures k in Apply(t, rows).Keys <==> k in t.Keys + KeySet(rows)
    {
      ApplyAt(t, rows, k);
    }
  }

  /** With distinct keys every row of the batch is stored as it is. */
  lemma ApplyDistinct(t: Table, rows: seq<StoredRow>, i: nat)
    requires DistinctKeys(rows) && i < |rows|
    ensures rows[i].key in Apply(t, rows) && Apply(t, rows)[rows[i].key] == rows[i].values
  {
    assert rows[i].key in KeySet(rows);
    ApplyAt(t, rows, rows[i].key);
  }

  /** Upserting the same rows a second time changes nothing. */
  lemma ApplyIdempotent(t: Table, rows: seq<StoredRow>)
    ensures Apply(Apply(t, rows), rows) == Apply(t, rows)
  {
    var once := Apply(t, rows);
    var twice := Apply(once, rows);
    forall k | true
      ensures k in twice <==> k in once
      ensures k in twice ==> twice[k] == once[k]
    {
      ApplyAt(t, rows, k);
      ApplyAt(once, rows, k);
    }
  }

  // ---------------------------------------------------------------------------
  // The statements against the fold

  lemma StoredRowsPrefix(records: seq<Option<StoredRow>>, n: nat)
    requires Storable(records) && n <= |records|
    ensures Storable(records[..n]) && Storable(records[n..])
    ensures StoredRows(records) == StoredRows(records[..n]) + StoredRows(records[n..])
  {
    assert Storable(records[..n]);
    assert forall i :: 0 <= i < |records| - n ==> records[n..][i] == records[n + i];
  }

  lemma DistinctSnoc(rows: seq<StoredRow>)
    requires rows != []
    ensures DistinctKeys(rows) <==>
              DistinctKeys(rows[..|rows| - 1]) && rows[|rows| - 1].key !in KeySet(rows[..|rows| - 1])
  {
    var prefix := rows[..|rows| - 1];
    if DistinctKeys(rows) {
      forall i, j | 0 <= i < j < |prefix|
        ensures prefix[i].key != prefix[j].key
      {
        assert prefix[i] == rows[i] && prefix[j] == rows[j];
      }
      assert rows[|rows| - 1].key !in KeySet(prefix) by {
        forall i | 0 <= i < |prefix|
          ensures prefix[i].key != rows[|rows| - 1].key
        {
          assert prefix[i] == rows[i];
        }
      }
    }
    if DistinctKeys(prefix) && rows[|rows| - 1].key !in KeySet(prefix) {
      forall i, j | 0 <= i < j < |rows|
        ensures rows[i].key != rows[j].key
      {
        assert prefix[i] == rows[i];
        if j < |rows| - 1 {
          assert prefix[j] == rows[j];
        }
      }
    }
  }

  lemma StoredRowsSnoc(page: seq<Option<StoredRow>>)
    requires page != [] && Storable(page)
    ensures Storable(page[..|page| - 1])
    ensures StoredRows(page)[..|page| - 1] == StoredRows(page[..|page| - 1])
  {
  }

  /** The statement over `page` succeeds exactly on storable rows with distinct keys, as the fold. */
  predicate PageIsApply(t: Table, page: seq<Option<StoredRow>>) {
    && (RunPage(t, page).Some? <==> Storable(page) && DistinctKeys(StoredRows(page)))
    && (RunPage(t, page).Some? ==>
          Storable(page) && RunPage(t, page).value == (Apply(t, StoredRows(page)), KeySet(StoredRows(page))))
  }

  lemma RunPageStepStorable(t: Table, page: seq<Option<StoredRow>>)
    requires page != [] && Storable(page) && PageIsApply(t, page[..|page| - 1])
    ensures PageIsApply(t, page)
  {
    var prefix := page[..|page| - 1];
    StoredRowsSnoc(page);
    var rows := StoredRows(page);
    var before := StoredRows(prefix);
    var last := rows[|rows| - 1];
    DistinctSnoc(rows);
    KeySetSnoc(rows);
    assert page[|page| - 1] == Some(last);
    if DistinctKeys(before) {
      assert RunPage(t, prefix) == Some((Apply(t, before), KeySet(before)));
      if last.key !in KeySet(before) {
        assert RunPage(t, page) == Some((Apply(t, before)[last.key := last.values], KeySet(before) + {last.key}));
        assert Apply(t, rows) == Apply(t, before)[last.key := last.values];
      } else {
        assert RunPage(t, page).None?;
      }
    } else {
      assert RunPage(t, prefix).None?;
    }
  }

  lemma RunPageStepUnstorable(t: Table, page: seq<Option<StoredRow>>)
    requires page != [] && !Storable(page) && PageIsApply(t, page[..|page| - 1])
    ensures PageIsApply(t, page)
  {
    var prefix := page[..|page| - 1];
    if Storable(prefix) {
      assert forall i :: 0 <= i < |prefix| ==> page[i] == prefix[i];
      assert page[|page| - 1].None?;
    } else {
      assert RunPage(t, prefix).None?;
    }
    assert RunPage(t, page).None?;
  }

  lemma {:induction false} RunPageIsApply(t: Table, page: seq<Option<StoredRow>>)
    ensures RunPage(t, page).Some? <==> Storable(page) && DistinctKeys(StoredRows(page))
    ensures RunPage(t, page).Some? ==>
              Storable(page) && RunPage(t, page).value == (Apply(t, StoredRows(page)), KeySet(StoredRows(page)))
    decreases |page|
  {
    if page == [] {
      assert StoredRows(page) == [];
      assert KeySet(StoredRows(page)) == {};
    } else {
      RunPageIsApply(t, page[..|page| - 1]);
      if Storable(page) {
        RunPageStepStorable(t, page);
      } else {
        RunPageStepUnstorable(t, page);
      }
    }
  }

  lemma PageShift(i: nat)
    ensures (i + PageSize) / PageSize == i / PageSize + 1
  {
  }

  lemma PagesSplit(x: seq<StoredRow>, y: seq<StoredRow>)
    requires |x| <= PageSize && (|x| == PageSize || y == [])
    ensures PagesDistinct(x + y) <==> DistinctKeys(x) && PagesDistinct(y)
  {
    var xy := x + y;
    if PagesDistinct(xy) {
      forall i, j | 0 <= i < j < |x|
        ensures x[i].key != x[j].key
      {
        assert xy[i] == x[i] && xy[j] == x[j];
      }
      forall i, j | 0 <= i < j < |y| && i / PageSize == j / PageSize
        ensures y[i].key != y[j].key
      {
        PageShift(i);
        PageShift(j);
        assert xy[i + |x|] == y[i] && xy[j + |x|] == y[j];
      }
    }
    if DistinctKeys(x) && PagesDistinct(y) {
      forall i, j | 0 <= i < j < |xy|
        ensures i / PageSize == j / PageSize ==> xy[i].key != xy[j].key
      {
        if j < |x| {
          assert xy[i] == x[i] && xy[j] == x[j];
        } else if i >= |x| {
          PageShift(i - PageSize);
          PageShift(j - PageSize);
          assert xy[i] == y[i - |x|] && xy[j] == y[j - |x|];
        } else {
          PageShift(j - PageSize);
        }
      }
    }
  }

  /** The statements over `rows` succeed exactly when the fold's conditions hold, and then agree with it. */
  predicate PagesAreApply(t: Table, rows: seq<Option<StoredRow>>) {
    && (RunPages(t, rows).Some? <==> Storable(rows) && PagesDistinct(StoredRows(rows)))
    && (RunPages(t, rows).Some? ==> Storable(rows) && RunPages(t, rows).value == Apply(t, StoredRows(rows)))
  }

  function FirstPage(rows: seq<Option<StoredRow>>): nat {
    if |rows| < PageSize then |rows| else PageSize
  }

  lemma StorableSplit(rows: seq<Option<StoredRow>>, n: nat)
    requires n <= |rows|
    ensures Storable(rows) <==> Storable(rows[..n]) && Storable(rows[n..])
  {
    if Storable(rows[..n]) && Storable(rows[n..]) {
      forall i | 0 <= i < |rows|
        ensures rows[i].Some?
      {
        if i < n {
          assert rows[i] == rows[..n][i];
        } else {
          assert rows[i] == rows[n..][i - n];
        }
      }
    }
  }

  lemma RunPagesFirstPageFails(t: Table, rows: seq<Option<StoredRow>>)
    requires rows != [] && RunPage(t, rows[..FirstPage(rows)]).None?
    requires PageIsApply(t, rows[..FirstPage(rows)])
    ensures PagesAreApply(t, rows)
  {
    var n := FirstPage(rows);
    StorableSplit(rows, n);
    if Storable(rows) {
      StoredRowsPrefix(rows, n);
      PagesSplit(StoredRows(rows[..n]), StoredRows(rows[n..]));
    }
  }

  lemma RunPagesFirstPagePasses(t: Table, rows: seq<Option<StoredRow>>)
    requires rows != [] && RunPage(t, rows[..FirstPage(rows)]).Some?
    requires PageIsApply(t, rows[..FirstPage(rows)])
    requires PagesAreApply(RunPage(t, rows[..FirstPage(rows)]).value.0, rows[FirstPage(rows)..])
    ensures PagesAreApply(t, rows)
  {
    var n := FirstPage(rows);
    var page := rows[..n];
    var rest := rows[n..];
    StorableSplit(rows, n);
    assert RunPages(t, rows) == RunPages(RunPage(t, page).value.0, rest);
    if Storable(rows) {
      StoredRowsPrefix(rows, n);
      PagesSplit(StoredRows(page), StoredRows(rest));
      ApplyConcat(t, StoredRows(page), StoredRows(rest));
    }
  }

  /**
   * The page-by-page statements succeed exactly when every record is storable and no page holds
   * one key twice, and then the table is the row-by-row upsert of the whole batch.
   */
  lemma {:induction false} RunPagesIsApply(t: Table, rows: seq<Option<StoredRow>>)
    ensures RunPages(t, rows).Some? <==> Storable(rows) && PagesDistinct(StoredRows(rows))
    ensures RunPages(t, rows).Some? ==> Storable(rows) && RunPages(t, rows).value == Apply(t, StoredRows(rows))
    decreases |rows|
  {
    if rows == [] {
      assert StoredRows(rows) == [];
    } else {
      var n := FirstPage(rows);
      RunPageIsApply(t, rows[..n]);
      if RunPage(t, rows[..n]).Some? {
        RunPagesIsApply(RunPage(t, rows[..n]).value.0, rows[n..]);
        RunPagesFirstPagePasses(t, rows);
      } else {
        RunPagesFirstPageFails(t, rows);
      }
    }
  }

  // ---------------------------------------------------------------------------
  // `load`, `create_table` and `get_row_count`

  /** On a healthy connection, `load` fails exactly on a KeyError or a batch the database refuses. */
  lemma LoadFailsExactly(t: Table, f: Frame<Enriched>)
    ensures var r := LoadTable(t, f, Up);
            && (r.Err? <==> Records(f).Err? ||
                            !(Storable(Converted(Records(f).value)) && PagesDistinct(StoredRows(Converted(Records(f).value)))))
            && (Records(f).Err? ==> r == Err(Records(f).error))
            && (r.Ok? ==> r.value == (|f.rows|, Apply(t, StoredRows(Converted(Records(f).value)))))
  {
    if Records(f).Ok? {
      RunPagesIsApply(t, Converted(Records(f).value));
    }
  }

  /**
   * After `load` every key of the batch holds its last record's values, every other key keeps its
   * row, and the count is the size of the old keys together with the batch keys.
   */
  lemma LoadUpserts(t: Table, f: Frame<Enriched>)
    requires Records(f).Ok? && Storable(Converted(Records(f).value)) && PagesDistinct(StoredRows(Converted(Records(f).value)))
    ensures LoadTable(t, f, Up).Ok?
    ensures var (n, t') := LoadTable(t, f, Up).value;
            var rows := StoredRows(Converted(Records(f).value));
            && n == |f.rows|
            && t'.Keys == t.Keys + KeySet(rows)
            && |t'.Keys| == |t.Keys + KeySet(rows)|
            && (forall k :: k in KeySet(rows) ==> t'[k] == rows[LastIndex(rows, k)].values)
            && (forall k :: k in t && k !in KeySet(rows) ==> t'[k] == t[k])
  {
    LoadFailsExactly(t, f);
    var rows := StoredRows(Converted(Records(f).value));
    ApplyKeys(t, rows);
    forall k | k in KeySet(rows) || k in t
      ensures k in KeySet(rows) ==> Apply(t, rows)[k] == rows[LastIndex(rows, k)].values
      ensures k in t && k !in KeySet(rows) ==> Apply(t, rows)[k] == t[k]
    {
      ApplyAt(t, rows, k);
    }
  }

  /** When the batch keys are distinct, every record is stored with exactly its own values. */
  lemma LoadStoresEveryRecord(t: Table, f: Frame<Enriched>, i: nat)
    requires Records(f).Ok? && Storable(Converted(Records(f).value)) && DistinctKeys(StoredRows(Converted(Records(f).value)))
    requires i < |f.rows|
    ensures LoadTable(t, f, Up).Ok?
    ensures var t' := LoadTable(t, f, Up).value.1;
            var row := StoredRows(Converted(Records(f).value))[i];
            row.key in t' && t'[row.key] == row.values
  {
    LoadFailsExactly(t, f);
    ApplyDistinct(t, StoredRows(Converted(Records(f).value)), i);
    assert |Records(f).value| == |f.rows|;
  }

  /** Loading the same frame again returns the same count and leaves the table as it was. */
  lemma LoadIsIdempotent(t: Table, f: Frame<Enriched>)
    requires LoadTable(t, f, Up).Ok?
    ensures var (n, t') := LoadTable(t, f, Up).value;
            LoadTable(t', f, Up) == Ok((n, t'))
  {
    LoadFailsExactly(t, f);
    var t' := LoadTable(t, f, Up).value.1;
    LoadFailsExactly(t', f);
    ApplyIdempotent(t, StoredRows(Converted(Records(f).value)));
  }

  /**
   * Reloading the same keys with changed values: the row count stays what the first load left
   * and every key holds the second batch's values.
   */
  lemma ReloadWithChangedValues(t: Table, f: Frame<Enriched>, g: Frame<Enriched>)
    requires Records(f).Ok? && Storable(Converted(Records(f).value)) && PagesDistinct(StoredRows(Converted(Records(f).value)))
    requires Records(g).Ok? && Storable(Converted(Records(g).value)) && PagesDistinct(StoredRows(Converted(Records(g).value)))
    requires KeySet(StoredRows(Converted(Records(g).value))) == KeySet(StoredRows(Converted(Records(f).value)))
    ensures LoadTable(t, f, Up).Ok? && LoadTable(LoadTable(t, f, Up).value.1, g, Up).Ok?
    ensures var t1 := LoadTable(t, f, Up).value.1;
            var t2 := LoadTable(t1, g, Up).value.1;
            var rows := StoredRows(Converted(Records(g).value));
            && |t2.Keys| == |t1.Keys|
            && forall k :: k in KeySet(rows) ==> k in t2 && t2[k] == rows[LastIndex(rows, k)].values
  {
    var a := StoredRows(Converted(Records(f).value));
    var b := StoredRows(Converted(Records(g).value));
    LoadFailsExactly(t, f);
    var t1 := LoadTable(t, f, Up).value.1;
    assert t1 == Apply(t, a);
    LoadFailsExactly(t1, g);
    assert LoadTable(t1, g, Up).value.1 == Apply(t1, b);
    UpsertSameKeys(t, a, b);
  }

  /** Upserting keys that are already there adds none: the keys stay, the new values win. */
  lemma UpsertSameKeys(t: Table, a: seq<StoredRow>, b: seq<StoredRow>)
    requires KeySet(b) == KeySet(a)
    ensures |Apply(Apply(t, a), b).Keys| == |Apply(t, a).Keys|
    ensures forall k :: k in KeySet(b) ==> k in Apply(Apply(t, a), b) && Apply(Apply(t, a), b)[k] == b[LastIndex(b, k)].values
  {
    var t1 := Apply(t, a);
    ApplyKeys(t, a);
    ApplyKeys(t1, b);
    assert Apply(t1, b).Keys == t1.Keys;
    forall k | k in KeySet(b)
      ensures k in Apply(t1, b) && Apply(t1, b)[k] == b[LastIndex(b, k)].values
    {
      ApplyAt(t1, b, k);
    }
  }

  /** The records of a frame of constraint-meeting rows with distinct keys are all accepted, under distinct keys. */
  lemma LoadableFrameRows(f: Frame<Enriched>)
    requires forall c :: c in LoadColumns ==> c in f.columns
    requires forall i :: 0 <= i < |f.rows| ==> Loadable(f.rows[i]) && |f.rows[i].obs.city| <= 50
    requires forall i, j :: 0 <= i < j < |f.rows| ==> KeyOf(f.rows[i].obs) != KeyOf(f.rows[j].obs)
    ensures Records(f).Ok? && Storable(Converted(Records(f).value))
    ensures var rows := StoredRows(Converted(Records(f).value));
            && DistinctKeys(rows)
            && KeySet(rows) == set i | 0 <= i < |f.rows| && f.rows[i].obs.time.Some? :: Key(f.rows[i].obs.city, f.rows[i].obs.time.value)
  {
    RecordsFollowColumnOrder(f);
    var records := Records(f).value;
    assert forall i :: 0 <= i < |f.rows| ==> records[i] == RecordOf(f.rows[i]);
    forall i | 0 <= i < |f.rows|
      ensures StoreRow(records[i]).Some?
      ensures StoreRow(records[i]).value.key == Key(f.rows[i].obs.city, f.rows[i].obs.time.value)
    {
      ShortCityIsKey(f.rows[i]);
      StoreRowOfRecord(f.rows[i]);
    }
    var converted := Converted(records);
    assert |converted| == |f.rows| && forall i :: 0 <= i < |f.rows| ==> converted[i] == StoreRow(records[i]);
    var rows := StoredRows(converted);
    assert |rows| == |f.rows| && forall i :: 0 <= i < |f.rows| ==> rows[i] == converted[i].value;
    assert DistinctKeys(rows) by {
      forall i, j | 0 <= i < j < |rows|
        ensures rows[i].key != rows[j].key
      {
        assert KeyOf(f.rows[i].obs) != KeyOf(f.rows[j].obs);
      }
    }
    assert KeySet(rows) == set i | 0 <= i < |f.rows| && f.rows[i].obs.time.Some? :: Key(f.rows[i].obs.city, f.rows[i].obs.time.value);
  }

  /** A frame whose rows meet the constraints and have distinct (city, time) keys loads in full. */
  lemma DistinctLoadableFrameLoads(t: Table, f: Frame<Enriched>)
    requires forall c :: c in LoadColumns ==> c in f.columns
    requires forall i :: 0 <= i < |f.rows| ==> Loadable(f.rows[i]) && |f.rows[i].obs.city| <= 50
    requires forall i, j :: 0 <= i < j < |f.rows| ==> KeyOf(f.rows[i].obs) != KeyOf(f.rows[j].obs)
    ensures var r := LoadTable(t, f, Up);
            && r.Ok? && r.value.0 == |f.rows|
            && r.value.1.Keys == t.Keys + (set i | 0 <= i < |f.rows| && f.rows[i].obs.time.Some? :: Key(f.rows[i].obs.city, f.rows[i].obs.time.value))
  {
    LoadableFrameRows(f);
    var rows := StoredRows(Converted(Records(f).value));
    LoadFailsExactly(t, f);
    ApplyKeys(t, rows);
  }

  /** Two cities on the same date make two rows in an empty table. */
  lemma TwoCitiesOnOneDate(f: Frame<Enriched>)
    requires forall c :: c in LoadColumns ==> c in f.columns
    requires |f.rows| == 2 && f.rows[0].obs.city != f.rows[1].obs.city
    requires forall i :: 0 <= i < 2 ==> Loadable(f.rows[i]) && |f.rows[i].obs.city| <= 50
    ensures LoadTable(map[], f, Up).Ok? && |LoadTable(map[], f, Up).value.1.Keys| == 2
  {
    DistinctLoadableFrameLoads(map[], f);
    var keys := set i | 0 <= i < |f.rows| && f.rows[i].obs.time.Some? :: Key(f.rows[i].obs.city, f.rows[i].obs.time.value);
    var a := Key(f.rows[0].obs.city, f.rows[0].obs.time.value);
    var b := Key(f.rows[1].obs.city, f.rows[1].obs.time.value);
    assert keys == {a, b};
  }
}
