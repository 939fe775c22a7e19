/** What the transform stages promise, stage by stage and for the whole pipeline. */
module TransformerProperties {
  import opened Wrappers
  import opened Calendar
  import opened Sequences
  import opened Observations
  import opened Transformer

  // ---------------------------------------------------------------------------
  // De-duplication

  lemma RawKeysConcat(a: seq<RawRow>, b: seq<RawRow>)
    ensures RawKeys(a + b) == RawKeys(a) + RawKeys(b)
  {
    var ab := a + b;
    forall k | k in RawKeys(ab)
      ensures k in RawKeys(a) + RawKeys(b)
    {
      var i :| 0 <= i < |ab| && RawKeyOf(ab[i]) == k;
      if i < |a| {
        assert ab[i] == a[i];
      } else {
        assert ab[i] == b[i - |a|];
      }
    }
    forall k | k in RawKeys(a) + RawKeys(b)
      ensures k in RawKeys(ab)
    {
      if k in RawKeys(a) {
        var i :| 0 <= i < |a| && RawKeyOf(a[i]) == k;
        assert ab[i] == a[i];
      } else {
        var i :| 0 <= i < |b| && RawKeyOf(b[i]) == k;
        assert ab[|a| + i] == b[i];
      }
    }
  }

  lemma RawKeysSingleton(x: RawRow)
    ensures RawKeys([x]) == {RawKeyOf(x)}
  {
    assert [x][0] == x;
    assert RawKeyOf(x) in RawKeys([x]);
  }

  function LastKey(s: seq<RawRow>): RawKey
    requires s != []
  {
    RawKeyOf(s[|s| - 1])
  }

  lemma RawKeysSnoc(s: seq<RawRow>)
    requires s != []
    ensures RawKeys(s) == RawKeys(s[..|s| - 1]) + {LastKey(s)}
  {
    RawKeysConcat(s[..|s| - 1], [s[|s| - 1]]);
    assert s == s[..|s| - 1] + [s[|s| - 1]];
    RawKeysSingleton(s[|s| - 1]);
  }

  /** De-duplication loses no key: every (city, time) of the input has a row in the output. */
  lemma {:induction false} RemoveDuplicatesKeepsEveryKey(f: Frame<RawRow>)
    ensures RawKeys(RemoveDuplicates(f).rows) == RawKeys(f.rows)
    decreases |f.rows|
  {
    var s := f.rows;
    if s != [] {
      var s' := s[..|s| - 1];
      RemoveDuplicatesKeepsEveryKey(Frame(f.columns, s'));
      RawKeysSnoc(s);
      var tail := if LastKey(s) in RawKeys(s') then [] else [s[|s| - 1]];
      assert KeepFirst(s) == KeepFirst(s') + tail;
      RawKeysConcat(KeepFirst(s'), tail);
      if tail != [] {
        RawKeysSingleton(s[|s| - 1]);
      }
      assert RawKeys([]) == {};
    }
  }

  /** After de-duplication no two rows share a (city, time) key. */
  lemma {:induction false} RemoveDuplicatesKeysDistinct(f: Frame<RawRow>)
    ensures var r := RemoveDuplicates(f).rows;
            forall i, j :: 0 <= i < j < |r| ==> RawKeyOf(r[i]) != RawKeyOf(r[j])
    decreases |f.rows|
  {
    var s := f.rows;
    if s != [] {
      var s' := s[..|s| - 1];
      var f' := Frame(f.columns, s');
      RemoveDuplicatesKeysDistinct(f');
      RemoveDuplicatesKeepsEveryKey(f');
      var prev := KeepFirst(s');
      assert forall i :: 0 <= i < |prev| ==> RawKeyOf(prev[i]) in RawKeys(prev);
    }
  }

  /** De-duplication deletes rows and never reorders the rows it keeps. */
  lemma {:induction false} RemoveDuplicatesIsSubsequence(f: Frame<RawRow>)
    ensures IsSubsequence(RemoveDuplicates(f).rows, f.rows)
    decreases |f.rows|
  {
    var s := f.rows;
    if s != [] {
      var s' := s[..|s| - 1];
      RemoveDuplicatesIsSubsequence(Frame(f.columns, s'));
      var r := KeepFirst(s);
      if LastKey(s) in RawKeys(s') {
        assert r == KeepFirst(s');
      } else {
        assert r[..|r| - 1] == KeepFirst(s');
      }
    }
  }

  /** The row kept for each key is the first row of the input with that key. */
  lemma {:induction false} RemoveDuplicatesKeepsFirst(f: Frame<RawRow>)
    ensures var r := RemoveDuplicates(f).rows;
            forall j :: 0 <= j < |r| ==>
              RawKeyOf(r[j]) in RawKeys(f.rows) && r[j] == f.rows[FirstIndex(f.rows, RawKeyOf(r[j]))]
    decreases |f.rows|
  {
    var s := f.rows;
    if s != [] {
      var s' := s[..|s| - 1];
      var f' := Frame(f.columns, s');
      RemoveDuplicatesKeepsFirst(f');
      RemoveDuplicatesKeepsEveryKey(f');
      RawKeysSnoc(s);
      var prev := KeepFirst(s');
      var r := KeepFirst(s);
      forall j | 0 <= j < |r|
        ensures RawKeyOf(r[j]) in RawKeys(s) && r[j] == s[FirstIndex(s, RawKeyOf(r[j]))]
      {
        if j < |prev| {
          var k := RawKeyOf(prev[j]);
          assert r[j] == prev[j];
          assert k in RawKeys(prev);
          assert FirstIndex(s, k) == FirstIndex(s', k);
        } else {
          assert r[j] == s[|s| - 1];
        }
      }
    }
  }

  /** Two rows for one city and one date collapse to the first of them. */
  lemma RemoveDuplicatesSameKey(a: RawRow, b: RawRow, c: RawRow)
    requires RawKeyOf(a) == RawKeyOf(b) && RawKeyOf(c) != RawKeyOf(a)
    ensures RemoveDuplicates(Frame({}, [a, b, c])).rows == [a, c]
  {
    var s := [a, b, c];
    assert s[..2] == [a, b] && [a, b][..1] == [a] && [a][..0] == [];
    RawKeysSingleton(a);
    RawKeysSnoc([a, b]);
    assert KeepFirst([a]) == [a];
    assert KeepFirst([a, b]) == [a];
  }

  /** Rows that share a date but not a city are both kept: no collision on the date alone. */
  lemma RemoveDuplicatesDifferentCities(a: RawRow, b: RawRow)
    requires a.time == b.time && a.city != b.city
    ensures RemoveDuplicates(Frame({}, [a, b])).rows == [a, b]
  {
    assert [a, b][..1] == [a] && [a][..0] == [];
    RawKeysSingleton(a);
    assert KeepFirst([a]) == [a];
  }

  // ---------------------------------------------------------------------------
  // Missing values

  /** With nothing missing, the frame comes back unchanged whatever the strategy string says. */
  lemma NothingMissingIgnoresStrategy(f: Frame<Observation>, strategy: string)
    requires !AnyMissing(f)
    ensures HandleMissingValues(f, strategy) == Ok(f)
  {
  }

  /** An unrecognised strategy raises exactly when at least one value is missing. */
  lemma UnknownStrategyRaisesOnlyWhenMissing(f: Frame<Observation>, strategy: string)
    requires strategy != "drop" && strategy != "fill_zero" && strategy != "fill_mean"
    ensures HandleMissingValues(f, strategy).Err? <==> AnyMissing(f)
    ensures AnyMissing(f) ==> HandleMissingValues(f, strategy) == Err(UnknownStrategy(strategy))
  {
  }

  /** A row with nothing missing has a time and a value in every column the frame has. */
  lemma NoMissingMeansComplete(columns: set<Column>, o: Observation)
    requires !HasMissing(columns, o)
    ensures o.time.Some?
    ensures forall m :: Numeric(m) in columns ==> Value(o, m).Some?
    ensures WeatherCode in columns ==> o.weatherCode.Some?
  {
    forall m | Numeric(m) in columns
      ensures Value(o, m).Some?
    {
      EveryMeasureListed(m);
    }
  }

  /** Strategy `drop` keeps, in order, exactly the rows with no missing value. */
  lemma DropKeepsExactlyCompleteRows(f: Frame<Observation>)
    ensures var r := HandleMissingValues(f, "drop");
            && r.Ok? && r.value.columns == f.columns
            && IsSubsequence(r.value.rows, f.rows)
            && (forall o :: o in r.value.rows <==> o in f.rows && !HasMissing(f.columns, o))
            && (forall o :: multiset(r.value.rows)[o] == (if HasMissing(f.columns, o) then 0 else multiset(f.rows)[o]))
  {
    if AnyMissing(f) {
      FilterIsSubsequence(f.rows, o => !HasMissing(f.columns, o));
      FilterMembers(f.rows, o => !HasMissing(f.columns, o));
      FilterCounts(f.rows, o => !HasMissing(f.columns, o));
    } else {
      SubsequenceOfItself(f.rows);
      assert forall i :: 0 <= i < |f.rows| ==> !HasMissing(f.columns, f.rows[i]);
      assert forall o :: HasMissing(f.columns, o) ==> o !in f.rows;
    }
  }

  lemma FillRowValue(columns: set<Column>, o: Observation, fill: Measure -> Option<real>, codeFill: Option<int>, m: Measure)
    ensures Value(FillRow(columns, o, fill, codeFill), m) == FillValue(columns, o, m, fill)
  {
  }

  /** Strategy `fill_zero` puts 0 in every missing numeric cell and changes nothing else. */
  lemma FillZeroReplacesMissingWithZero(f: Frame<Observation>)
    requires AnyMissing(f)
    ensures var r := HandleMissingValues(f, "fill_zero");
            && r.Ok? && r.value.columns == f.columns && |r.value.rows| == |f.rows|
            && forall i :: 0 <= i < |f.rows| ==>
                 var (o, o') := (f.rows[i], r.value.rows[i]);
                 && o'.city == o.city && o'.time == o.time
                 && (forall m :: Value(o, m).Some? || Numeric(m) !in f.columns ==> Value(o', m) == Value(o, m))
                 && (forall m :: Numeric(m) in f.columns && Value(o, m).None? ==> Value(o', m) == Some(0.0))
                 && o'.weatherCode == (if WeatherCode in f.columns && o.weatherCode.None? then Some(0) else o.weatherCode)
  {
    var r := FillZero(f);
    forall i, m | 0 <= i < |f.rows|
      ensures Value(r.rows[i], m) == FillValue(f.columns, f.rows[i], m, _ => Some(0.0))
    {
      FillRowValue(f.columns, f.rows[i], _ => Some(0.0), Some(0), m);
    }
  }

  /** Strategy `fill_mean` puts the column's mean over its present values in every missing numeric cell. */
  lemma FillMeanReplacesMissingWithMean(f: Frame<Observation>)
    requires AnyMissing(f)
    ensures var r := HandleMissingValues(f, "fill_mean");
            && (r.Err? <==> && WeatherCode in f.columns
                            && (exists i :: 0 <= i < |f.rows| && f.rows[i].weatherCode.None?)
                            && Mean(CodeValues(f.rows)).Some? && !IsIntegral(Mean(CodeValues(f.rows)).value))
            && (r.Err? ==> r.error == NonIntegralFill)
            && (r.Ok? ==>
                 && r.value.columns == f.columns && |r.value.rows| == |f.rows|
                 && forall i :: 0 <= i < |f.rows| ==>
                      var (o, o') := (f.rows[i], r.value.rows[i]);
                      && o'.city == o.city && o'.time == o.time
                      && (forall m :: Value(o, m).Some? || Numeric(m) !in f.columns ==> Value(o', m) == Value(o, m))
                      && (forall m :: Numeric(m) in f.columns && Value(o, m).None? ==>
                            Value(o', m) == Mean(ColumnValues(f.rows, m)))
                      && (o.weatherCode.Some? || WeatherCode !in f.columns ==> o'.weatherCode == o.weatherCode)
                      && (WeatherCode in f.columns && o.weatherCode.None? ==>
                            && (o'.weatherCode.Some? <==> Mean(CodeValues(f.rows)).Some?)
                            && (o'.weatherCode.Some? && Mean(CodeValues(f.rows)).Some? ==>
                                  o'.weatherCode.value as real == Mean(CodeValues(f.rows)).value)))
  {
    var r := HandleMissingValues(f, "fill_mean");
    if r.Ok? {
      var codeMean := Mean(CodeValues(f.rows));
      var fill := m => Mean(ColumnValues(f.rows, m));
      var codeFill := if codeMean.Some? then Some(codeMean.value.Floor) else None;
      assert r.value == FillAll(f, fill, codeFill);
      forall i, m | 0 <= i < |f.rows|
        ensures Value(r.value.rows[i], m) == FillValue(f.columns, f.rows[i], m, fill)
      {
        FillRowValue(f.columns, f.rows[i], fill, codeFill, m);
      }
      forall i | 0 <= i < |f.rows| && WeatherCode in f.columns && f.rows[i].weatherCode.None? && codeMean.Some?
        ensures r.value.rows[i].weatherCode == Some(codeMean.value.Floor)
        ensures IsIntegral(codeMean.value)
      {
      }
    }
  }

  /** The mean of [1.0, missing, 3.0] is 2.0. */
  lemma MeanSkipsMissing()
    ensures Mean([Some(1.0), None, Some(3.0)]) == Some(2.0)
  {
    var vs := [Some(1.0), None, Some(3.0)];
    assert vs[..2] == [Some(1.0), None] && vs[..2][..1] == [Some(1.0)] && [Some(1.0)][..0] == [];
    assert SumPresent(vs[..2][..1]) == 1.0 && CountPresent(vs[..2][..1]) == 1;
    assert SumPresent(vs[..2]) == 1.0 && CountPresent(vs[..2]) == 1;
    assert SumPresent(vs) == 4.0 && CountPresent(vs) == 2;
  }

  /** `fill_mean` on a column [1.0, missing, 3.0] fills the gap with 2.0. */
  lemma FillMeanExample(o: Observation)
    ensures var f := Frame({Numeric(RainSum)},
                           [o.(rainSum := Some(1.0)), o.(rainSum := None), o.(rainSum := Some(3.0))]);
            var r := HandleMissingValues(f, "fill_mean");
            r.Ok? && |r.value.rows| == 3 && r.value.rows[1].rainSum == Some(2.0)
  {
    var f := Frame({Numeric(RainSum)},
                   [o.(rainSum := Some(1.0)), o.(rainSum := None), o.(rainSum := Some(3.0))]);
    assert HasMissing(f.columns, f.rows[1]) by {
      assert RainSum in NumericMeasures;
    }
    FillMeanReplacesMissingWithMean(f);
    assert ColumnValues(f.rows, RainSum) == [Some(1.0), None, Some(3.0)];
    MeanSkipsMissing();
    assert Value(f.rows[1], RainSum).None?;
  }

  // ---------------------------------------------------------------------------
  // Temperature range

  /** Inside the closed range [-60, 60], or missing. */
  predicate WithinBounds(v: Option<real>) {
    v.None? || (MinTemperature <= v.value && v.value <= MaxTemperature)
  }

  /** `validate_temperature` keeps, in order, exactly the rows whose two temperatures are within bounds or missing. */
  lemma ValidateTemperatureKeepsExactlyPlausible(f: Frame<Observation>)
    requires Numeric(Temperature2mMax) in f.columns && Numeric(Temperature2mMin) in f.columns
    ensures var r := ValidateTemperature(f);
            && r.Ok? && r.value.columns == f.columns
            && IsSubsequence(r.value.rows, f.rows)
            && (forall o :: o in r.value.rows <==>
                  o in f.rows && WithinBounds(o.temperature2mMax) && WithinBounds(o.temperature2mMin))
            && (forall o :: multiset(r.value.rows)[o] ==
                  (if WithinBounds(o.temperature2mMax) && WithinBounds(o.temperature2mMin) then multiset(f.rows)[o] else 0))
  {
    FilterIsSubsequence(f.rows, o => !TemperatureRejected(o));
    FilterMembers(f.rows, o => !TemperatureRejected(o));
    FilterCounts(f.rows, o => !TemperatureRejected(o));
  }

  /** `validate_temperature` raises exactly when a temperature column is absent. */
  lemma ValidateTemperatureNeedsBothColumns(f: Frame<Observation>)
    ensures ValidateTemperature(f).Err? <==>
              Numeric(Temperature2mMax) !in f.columns || Numeric(Temperature2mMin) !in f.columns
  {
  }

  /** A maximum of 100.0 is rejected, 7.3 is kept. */
  lemma ValidateTemperatureExample(o: Observation)
    ensures var a := o.(temperature2mMax := Some(7.3), temperature2mMin := Some(3.4));
            var b := o.(temperature2mMax := Some(100.0), temperature2mMin := Some(2.5));
            ValidateTemperature(Frame({Numeric(Temperature2mMax), Numeric(Temperature2mMin)}, [a, b]))
              == Ok(Frame({Numeric(Temperature2mMax), Numeric(Temperature2mMin)}, [a]))
  {
    var a := o.(temperature2mMax := Some(7.3), temperature2mMin := Some(3.4));
    var b := o.(temperature2mMax := Some(100.0), temperature2mMin := Some(2.5));
    var p := (o: Observation) => !TemperatureRejected(o);
    assert [a, b][..1] == [a] && [a][..0] == [];
    assert p(a) && !p(b);
    assert Filter([a], p) == [a];
    assert Filter([a, b], p) == Filter([a], p);
  }

  // ---------------------------------------------------------------------------
  // Non-negative precipitation

  /** Every precipitation-family column the frame has is non-negative or missing in this row. */
  predicate PrecipitationNonNegative(columns: set<Column>, o: Observation) {
    forall m :: m in PrecipitationColumns && Numeric(m) in columns && Value(o, m).Some? ==> Value(o, m).value >= 0.0
  }

  /** `validate_precipitation` keeps, in order, exactly the rows with no negative precipitation-family value. */
  lemma ValidatePrecipitationKeepsExactlyNonNegative(f: Frame<Observation>)
    ensures var r := PrecipitationChecked(f);
            && r.columns == f.columns
            && IsSubsequence(r.rows, f.rows)
            && (forall o :: o in r.rows <==> o in f.rows && PrecipitationNonNegative(f.columns, o))
            && (forall o :: multiset(r.rows)[o] == (if PrecipitationNonNegative(f.columns, o) then multiset(f.rows)[o] else 0))
  {
    FilterIsSubsequence(f.rows, o => !NegativePrecipitation(f.columns, o));
    FilterMembers(f.rows, o => !NegativePrecipitation(f.columns, o));
    FilterCounts(f.rows, o => !NegativePrecipitation(f.columns, o));
  }

  /** With no precipitation-family column present, nothing is removed. */
  lemma ValidatePrecipitationIgnoresAbsentColumns(f: Frame<Observation>)
    requires forall m :: m in PrecipitationColumns ==> Numeric(m) !in f.columns
    ensures PrecipitationChecked(f) == f
  {
    FilterKeepsAll(f.rows, o => !NegativePrecipitation(f.columns, o));
  }

  /** A precipitation_sum of -5.0 removes its row. */
  lemma ValidatePrecipitationExample(o: Observation)
    ensures var columns := {Numeric(PrecipitationSum), Numeric(RainSum), Numeric(SnowfallSum)};
            var a := o.(precipitationSum := Some(1.0), rainSum := Some(1.0), snowfallSum := Some(0.0));
            var b := o.(precipitationSum := Some(-5.0), rainSum := Some(1.0), snowfallSum := Some(0.0));
            PrecipitationChecked(Frame(columns, [a, b])) == Frame(columns, [a])
  {
    var columns := {Numeric(PrecipitationSum), Numeric(RainSum), Numeric(SnowfallSum)};
    var a := o.(precipitationSum := Some(1.0), rainSum := Some(1.0), snowfallSum := Some(0.0));
    var b := o.(precipitationSum := Some(-5.0), rainSum := Some(1.0), snowfallSum := Some(0.0));
    var p := (o: Observation) => !NegativePrecipitation(columns, o);
    assert [a, b][..1] == [a] && [a][..0] == [];
    assert NegativePrecipitation(columns, b) by {
      assert PrecipitationSum in PrecipitationColumns;
    }
    assert p(a);
    assert Filter([a], p) == [a];
    assert Filter([a, b], p) == Filter([a], p);
  }

  // ---------------------------------------------------------------------------
  // Derived columns

  /** The derived fields agree with the date and the temperatures they come from. */
  predicate DerivedFieldsCorrect(e: Enriched) {
    var o := e.obs;
    && (e.tempRange.Some? <==> o.temperature2mMax.Some? && o.temperature2mMin.Some?)
    && (e.tempRange.Some? ==> o.temperature2mMin.value + e.tempRange.value == o.temperature2mMax.value)
    && (e.month.Some? <==> o.time.Some?)
    && (e.month.Some? ==> e.month.value == o.time.value.month && 1 <= e.month.value <= 12)
    && (e.dayOfWeek.Some? <==> o.time.Some?)
    && (e.dayOfWeek.Some? ==> e.dayOfWeek.value == DayName(o.time.value) && e.dayOfWeek.value in DayNames)
  }

  /** `add_computed_columns` keeps every row as it was and adds correct derived fields to it. */
  lemma AddComputedColumnsDerivesFields(f: Frame<Observation>)
    requires Numeric(Temperature2mMax) in f.columns && Numeric(Temperature2mMin) in f.columns
    ensures var r := AddComputedColumns(f);
            && r.Ok? && r.value.columns == f.columns + {TempRange, Month, DayOfWeek}
            && |r.value.rows| == |f.rows|
            && forall i :: 0 <= i < |f.rows| ==> r.value.rows[i].obs == f.rows[i] && DerivedFieldsCorrect(r.value.rows[i])
  {
  }

  /** 2024-01-01 with 7.3 / 3.4 gets a range of 3.9, month 1 and "Monday". */
  lemma AddComputedColumnsExample(o: Observation)
    requires o.time == Some(Date(2024, 1, 1))
    requires o.temperature2mMax == Some(7.3) && o.temperature2mMin == Some(3.4)
    ensures Enrich(o) == Enriched(o, Some(3.9), Some(1), Some("Monday"))
  {
    NewYear2024IsMonday();
  }

  // ---------------------------------------------------------------------------
  // The whole pipeline

  predicate DistinctKeys(rows: seq<Observation>) {
    forall i, j :: 0 <= i < j < |rows| ==> KeyOf(rows[i]) != KeyOf(rows[j])
  }

  lemma DropProvenanceKeepsKeys(raw: Frame<RawRow>)
    ensures RawKeys(DropProvenance(raw).rows) == RawKeys(raw.rows)
  {
    var d := DropProvenance(raw).rows;
    forall k | k in RawKeys(raw.rows)
      ensures k in RawKeys(d)
    {
      var i :| 0 <= i < |raw.rows| && RawKeyOf(raw.rows[i]) == k;
      assert RawKeyOf(d[i]) == k;
    }
  }

  /** The stages after type casting keep the columns they are given and never add rows. */
  lemma HandleMissingShape(f: Frame<Observation>, strategy: string)
    ensures var r := HandleMissingValues(f, strategy);
            r.Ok? ==> r.value.columns == f.columns && |r.value.rows| <= |f.rows|
  {
    if AnyMissing(f) && strategy == "drop" {
      DropKeepsExactlyCompleteRows(f);
      SubsequenceLength(DropMissing(f).rows, f.rows);
    }
  }

  /** Filling or dropping rows never makes two rows share a key. */
  lemma HandleMissingKeepsKeysDistinct(f: Frame<Observation>, strategy: string)
    requires DistinctKeys(f.rows)
    ensures var r := HandleMissingValues(f, strategy);
            r.Ok? ==> DistinctKeys(r.value.rows)
  {
    if AnyMissing(f) && strategy == "drop" {
      DropKeepsExactlyCompleteRows(f);
      SubsequenceKeepsDistinct(DropMissing(f).rows, f.rows, KeyOf);
    }
  }

  /** `transform` drops `source_file` and never adds rows. */
  lemma TransformDropsProvenanceAndAddsNoRows(raw: Frame<RawRow>, strategy: string,
                                             parseDate: string -> Option<CalendarDate>,
                                             parseNumber: string -> Option<real>)
    ensures var r := Pipeline(raw, strategy, parseDate, parseNumber);
            r.Ok? ==> SourceFile !in r.value.columns && TempRange in r.value.columns
                      && |r.value.rows| <= |raw.rows|
  {
    var deduplicated := RemoveDuplicates(DropProvenance(raw));
    RemoveDuplicatesIsSubsequence(DropProvenance(raw));
    SubsequenceLength(deduplicated.rows, DropProvenance(raw).rows);
    var typed := CastTypes(deduplicated, parseDate, parseNumber);
    if typed.Ok? {
      var complete := HandleMissingValues(typed.value, strategy);
      HandleMissingShape(typed.value, strategy);
      if complete.Ok? {
        var plausible := ValidateTemperature(complete.value);
        if plausible.Ok? {
          ValidateTemperatureKeepsExactlyPlausible(complete.value);
          SubsequenceLength(plausible.value.rows, complete.value.rows);
          var checked := PrecipitationChecked(plausible.value);
          ValidatePrecipitationKeepsExactlyNonNegative(plausible.value);
          SubsequenceLength(checked.rows, plausible.value.rows);
        }
      }
    }
  }

  /** `transform` aborts on a date error exactly when some extracted `time` does not parse. */
  lemma TransformRejectsUnparsableDates(raw: Frame<RawRow>, strategy: string,
                                        parseDate: string -> Option<CalendarDate>,
                                        parseNumber: string -> Option<real>)
    ensures Pipeline(raw, strategy, parseDate, parseNumber) == Err(InvalidDate) <==>
              exists i :: 0 <= i < |raw.rows| && !TimeParses(parseDate, raw.rows[i])
  {
    var dropped := DropProvenance(raw);
    var d := RemoveDuplicates(dropped).rows;
    DropProvenanceKeepsKeys(raw);
    RemoveDuplicatesKeepsEveryKey(dropped);
    assert RawKeys(d) == RawKeys(raw.rows);
    if exists i :: 0 <= i < |raw.rows| && !TimeParses(parseDate, raw.rows[i]) {
      var i :| 0 <= i < |raw.rows| && !TimeParses(parseDate, raw.rows[i]);
      assert RawKeyOf(raw.rows[i]) in RawKeys(raw.rows);
      var j :| 0 <= j < |d| && RawKeyOf(d[j]) == RawKeyOf(raw.rows[i]);
      assert !TimeParses(parseDate, d[j]);
    }
    if exists j :: 0 <= j < |d| && !TimeParses(parseDate, d[j]) {
      var j :| 0 <= j < |d| && !TimeParses(parseDate, d[j]);
      assert RawKeyOf(d[j]) in RawKeys(d);
      var i :| 0 <= i < |raw.rows| && RawKeyOf(raw.rows[i]) == RawKeyOf(d[j]);
      assert !TimeParses(parseDate, raw.rows[i]);
    }
  }

  /** A row that passes both validations: plausible temperatures and no negative precipitation. */
  predicate PlausibleRow(columns: set<Column>, o: Observation) {
    WithinBounds(o.temperature2mMax) && WithinBounds(o.temperature2mMin) && PrecipitationNonNegative(columns, o)
  }

  lemma ValidationsKeepPlausibleRows(complete: Frame<Observation>)
    requires Numeric(Temperature2mMax) in complete.columns && Numeric(Temperature2mMin) in complete.columns
    ensures var c := PrecipitationChecked(ValidateTemperature(complete).value);
            && c.columns == complete.columns
            && forall o :: o in c.rows ==> o in complete.rows && PlausibleRow(complete.columns, o)
  {
    var plausible := ValidateTemperature(complete).value;
    ValidateTemperatureKeepsExactlyPlausible(complete);
    ValidatePrecipitationKeepsExactlyNonNegative(plausible);
  }

  lemma EnrichedRowsComeFromInput(f: Frame<Observation>)
    requires Numeric(Temperature2mMax) in f.columns && Numeric(Temperature2mMin) in f.columns
    ensures var r := AddComputedColumns(f);
            && r.Ok? && r.value.columns == f.columns + {TempRange, Month, DayOfWeek}
            && forall e :: e in r.value.rows ==> e.obs in f.rows && DerivedFieldsCorrect(e)
  {
    AddComputedColumnsDerivesFields(f);
    var r := AddComputedColumns(f).value;
    forall e | e in r.rows
      ensures e.obs in f.rows && DerivedFieldsCorrect(e)
    {
      var i :| 0 <= i < |r.rows| && r.rows[i] == e;
      assert e.obs == f.rows[i];
    }
  }

  lemma PlausibleRowIgnoresDerivedColumns(columns: set<Column>, o: Observation)
    requires PlausibleRow(columns, o)
    ensures PlausibleRow(columns + {TempRange, Month, DayOfWeek}, o)
  {
  }

  /** What the last three stages guarantee about each row of any frame they accept. */
  lemma FinalStagesValid(complete: Frame<Observation>)
    ensures var plausible := ValidateTemperature(complete);
            plausible.Ok? ==>
              var r := AddComputedColumns(PrecipitationChecked(plausible.value));
              && r.Ok? && r.value.columns == complete.columns + {TempRange, Month, DayOfWeek}
              && forall e :: e in r.value.rows ==>
                   e.obs in complete.rows && PlausibleRow(r.value.columns, e.obs) && DerivedFieldsCorrect(e)
  {
    if ValidateTemperature(complete).Ok? {
      ValidationsKeepPlausibleRows(complete);
      var checked := PrecipitationChecked(ValidateTemperature(complete).value);
      EnrichedRowsComeFromInput(checked);
      var r := AddComputedColumns(checked).value;
      forall e | e in r.rows
        ensures PlausibleRow(r.columns, e.obs)
      {
        PlausibleRowIgnoresDerivedColumns(complete.columns, e.obs);
      }
    }
  }

  /**
   * Every row `transform` returns has both temperatures within [-60, 60] or missing, no negative
   * precipitation-family value, and derived fields that match its date and temperatures.
   */
  lemma TransformOutputIsValid(raw: Frame<RawRow>, strategy: string,
                               parseDate: string -> Option<CalendarDate>,
                               parseNumber: string -> Option<real>)
    ensures var r := Pipeline(raw, strategy, parseDate, parseNumber);
            r.Ok? ==> forall e :: e in r.value.rows ==>
                        && WithinBounds(e.obs.temperature2mMax) && WithinBounds(e.obs.temperature2mMin)
                        && PrecipitationNonNegative(r.value.columns, e.obs)
                        && DerivedFieldsCorrect(e)
  {
    var typed := CastTypes(RemoveDuplicates(DropProvenance(raw)), parseDate, parseNumber);
    if typed.Ok? {
      var complete := HandleMissingValues(typed.value, strategy);
      if complete.Ok? {
        FinalStagesValid(complete.value);
      }
    }
  }

  lemma CastKeepsKeysDistinct(f: Frame<RawRow>, parseDate: string -> Option<CalendarDate>,
                              parseNumber: string -> Option<real>)
    requires forall i, j :: 0 <= i < j < |f.rows| ==> RawKeyOf(f.rows[i]) != RawKeyOf(f.rows[j])
    requires forall a, b :: parseDate(a).Some? && parseDate(a) == parseDate(b) ==> a == b
    ensures var r := CastTypes(f, parseDate, parseNumber);
            r.Ok? ==> DistinctKeys(r.value.rows)
  {
    var r := CastTypes(f, parseDate, parseNumber);
    if r.Ok? {
      forall i, j | 0 <= i < j < |r.value.rows|
        ensures KeyOf(r.value.rows[i]) != KeyOf(r.value.rows[j])
      {
        assert TimeParses(parseDate, f.rows[i]) && TimeParses(parseDate, f.rows[j]);
      }
    }
  }

  /**
   * When the date parse never maps two strings to one date, the rows `transform` returns have
   * pairwise distinct (city, time) keys.
   */
  lemma TransformKeysDistinct(raw: Frame<RawRow>, strategy: string,
                              parseDate: string -> Option<CalendarDate>,
                              parseNumber: string -> Option<real>)
    requires forall a, b :: parseDate(a).Some? && parseDate(a) == parseDate(b) ==> a == b
    ensures var r := Pipeline(raw, strategy, parseDate, parseNumber);
            r.Ok? ==> forall i, j :: 0 <= i < j < |r.value.rows| ==>
                        KeyOf(r.value.rows[i].obs) != KeyOf(r.value.rows[j].obs)
  {
    var deduplicated := RemoveDuplicates(DropProvenance(raw));
    RemoveDuplicatesKeysDistinct(DropProvenance(raw));
    var typed := CastTypes(deduplicated, parseDate, parseNumber);
    CastKeepsKeysDistinct(deduplicated, parseDate, parseNumber);
    if typed.Ok? {
      var complete := HandleMissingValues(typed.value, strategy);
      HandleMissingKeepsKeysDistinct(typed.value, strategy);
      if complete.Ok? {
        var plausible := ValidateTemperature(complete.value);
        if plausible.Ok? {
          ValidateTemperatureKeepsExactlyPlausible(complete.value);
          SubsequenceKeepsDistinct(plausible.value.rows, complete.value.rows, KeyOf);
          var checked := PrecipitationChecked(plausible.value);
          ValidatePrecipitationKeepsExactlyNonNegative(plausible.value);
          SubsequenceKeepsDistinct(checked.rows, plausible.value.rows, KeyOf);
          AddComputedColumnsDerivesFields(checked);
        }
      }
    }
  }

  /** A row with a date and a value in every numeric column the frame carries. */
  predicate CompleteRow(columns: set<Column>, o: Observation) {
    && o.time.Some?
    && (forall m :: Numeric(m) in columns ==> Value(o, m).Some?)
    && (WeatherCode in columns ==> o.weatherCode.Some?)
  }

  lemma DropYieldsCompleteRows(f: Frame<Observation>)
    ensures var r := HandleMissingValues(f, "drop");
            && r.Ok? && r.value.columns == f.columns
            && forall o :: o in r.value.rows ==> CompleteRow(f.columns, o)
  {
    DropKeepsExactlyCompleteRows(f);
    forall o | o in HandleMissingValues(f, "drop").value.rows
      ensures CompleteRow(f.columns, o)
    {
      if AnyMissing(f) {
        NoMissingMeansComplete(f.columns, o);
      } else {
        assert o in f.rows;
        assert !HasMissing(f.columns, o);
        NoMissingMeansComplete(f.columns, o);
      }
    }
  }

  lemma CompleteRowIgnoresDerivedColumns(columns: set<Column>, o: Observation)
    requires CompleteRow(columns, o)
    ensures CompleteRow(columns + {TempRange, Month, DayOfWeek}, o)
  {
  }

  /** Under strategy `drop`, every row `transform` returns has a date and a value in every numeric column it carries. */
  lemma TransformDropYieldsCompleteRows(raw: Frame<RawRow>,
                                        parseDate: string -> Option<CalendarDate>,
                                        parseNumber: string -> Option<real>)
    ensures var r := Pipeline(raw, "drop", parseDate, parseNumber);
            r.Ok? ==> forall e :: e in r.value.rows ==>
                        CompleteRow(r.value.columns, e.obs) && e.month.Some? && e.dayOfWeek.Some?
  {
    var typed := CastTypes(RemoveDuplicates(DropProvenance(raw)), parseDate, parseNumber);
    if typed.Ok? {
      DropYieldsCompleteRows(typed.value);
      var complete := HandleMissingValues(typed.value, "drop").value;
      FinalStagesValid(complete);
      if ValidateTemperature(complete).Ok? {
        var r := AddComputedColumns(PrecipitationChecked(ValidateTemperature(complete).value)).value;
        forall e | e in r.rows
          ensures CompleteRow(r.columns, e.obs)
        {
          CompleteRowIgnoresDerivedColumns(complete.columns, e.obs);
        }
      }
    }
  }

  // ---------------------------------------------------------------------------
  // Clean input passes through unchanged

  /**
   * An extracted row nothing rejects: a parseable date, a number in every measurement cell,
   * an integral weather code, temperatures within bounds and no negative precipitation.
   */
  predicate CleanRow(parseDate: string -> Option<CalendarDate>, r: RawRow) {
    && r.time.Some? && parseDate(r.time.value).Some?
    && (forall m :: RawMeasure(r, m).Number?)
    && r.weatherCode.Number? && IsIntegral(r.weatherCode.x)
    && MinTemperature <= RawMeasure(r, Temperature2mMax).x <= MaxTemperature
    && MinTemperature <= RawMeasure(r, Temperature2mMin).x <= MaxTemperature
    && (forall m :: m in PrecipitationColumns ==> RawMeasure(r, m).x >= 0.0)
  }

  lemma {:induction false} KeepFirstOfDistinct(s: seq<RawRow>)
    requires forall i, j :: 0 <= i < j < |s| ==> RawKeyOf(s[i]) != RawKeyOf(s[j])
    ensures KeepFirst(s) == s
    decreases |s|
  {
    if s != [] {
      var s' := s[..|s| - 1];
      KeepFirstOfDistinct(s');
      assert RawKeyOf(s[|s| - 1]) !in RawKeys(s');
      assert s' + [s[|s| - 1]] == s;
    }
  }

  lemma DropSourceFileKeepsCells(r: RawRow)
    ensures forall m :: RawMeasure(r.(sourceFile := None), m) == RawMeasure(r, m)
  {
    forall m
      ensures RawMeasure(r.(sourceFile := None), m) == RawMeasure(r, m)
    {
    }
  }

  lemma CleanRowsDropProvenance(raw: Frame<RawRow>, parseDate: string -> Option<CalendarDate>)
    requires forall i :: 0 <= i < |raw.rows| ==> CleanRow(parseDate, raw.rows[i])
    requires forall i, j :: 0 <= i < j < |raw.rows| ==> RawKeyOf(raw.rows[i]) != RawKeyOf(raw.rows[j])
    ensures var d := DropProvenance(raw);
            && RemoveDuplicates(d) == d && |d.rows| == |raw.rows|
            && forall i :: 0 <= i < |d.rows| ==>
                 && CleanRow(parseDate, d.rows[i]) && RawKeyOf(d.rows[i]) == RawKeyOf(raw.rows[i])
                 && (forall m :: RawMeasure(d.rows[i], m) == RawMeasure(raw.rows[i], m))
  {
    var d := DropProvenance(raw);
    forall i | 0 <= i < |d.rows|
      ensures && CleanRow(parseDate, d.rows[i]) && RawKeyOf(d.rows[i]) == RawKeyOf(raw.rows[i])
              && (forall m :: RawMeasure(d.rows[i], m) == RawMeasure(raw.rows[i], m))
    {
      assert d.rows[i] == raw.rows[i].(sourceFile := None);
      DropSourceFileKeepsCells(raw.rows[i]);
      CleanRowWithoutProvenance(parseDate, raw.rows[i]);
    }
    KeepFirstOfDistinct(d.rows);
  }

  lemma CleanRowWithoutProvenance(parseDate: string -> Option<CalendarDate>, r: RawRow)
    requires CleanRow(parseDate, r)
    ensures CleanRow(parseDate, r.(sourceFile := None))
  {
    DropSourceFileKeepsCells(r);
  }

  lemma CleanRowsCast(f: Frame<RawRow>, parseDate: string -> Option<CalendarDate>, parseNumber: string -> Option<real>)
    requires forall i :: 0 <= i < |f.rows| ==> CleanRow(parseDate, f.rows[i])
    ensures var r := CastTypes(f, parseDate, parseNumber);
            && r.Ok? && r.value.columns == f.columns && |r.value.rows| == |f.rows|
            && !AnyMissing(r.value)
            && forall i :: 0 <= i < |f.rows| ==>
                 && r.value.rows[i].city == f.rows[i].city
                 && r.value.rows[i].time == parseDate(f.rows[i].time.value)
                 && PlausibleRow(f.columns, r.value.rows[i])
                 && (Numeric(Temperature2mMax) in f.columns ==> r.value.rows[i].temperature2mMax.Some?)
                 && (Numeric(Temperature2mMin) in f.columns ==> r.value.rows[i].temperature2mMin.Some?)
  {
    assert forall i :: 0 <= i < |f.rows| ==> TimeParses(parseDate, f.rows[i]) && CodeCasts(parseNumber, f.rows[i]);
    var r := CastTypes(f, parseDate, parseNumber).value;
    forall i | 0 <= i < |r.rows|
      ensures !HasMissing(f.columns, r.rows[i]) && PlausibleRow(f.columns, r.rows[i])
    {
      var x := f.rows[i];
      assert RawMeasure(x, PrecipitationSum).Number? && RawMeasure(x, RainSum).Number?;
      assert RawMeasure(x, SnowfallSum).Number? && RawMeasure(x, WindSpeed10mMax).Number?;
      assert RawMeasure(x, Temperature2mMax).Number? && RawMeasure(x, Temperature2mMin).Number?;
      assert PrecipitationSum in PrecipitationColumns && RainSum in PrecipitationColumns && SnowfallSum in PrecipitationColumns;
    }
  }

  lemma CleanRowsPassValidation(f: Frame<Observation>)
    requires Numeric(Temperature2mMax) in f.columns && Numeric(Temperature2mMin) in f.columns
    requires forall i :: 0 <= i < |f.rows| ==> PlausibleRow(f.columns, f.rows[i])
    ensures PrecipitationChecked(ValidateTemperature(f).value) == f
  {
    FilterKeepsAll(f.rows, o => !TemperatureRejected(o));
    forall i | 0 <= i < |f.rows|
      ensures !NegativePrecipitation(f.columns, f.rows[i])
    {
      assert PrecipitationNonNegative(f.columns, f.rows[i]);
    }
    FilterKeepsAll(f.rows, o => !NegativePrecipitation(f.columns, o));
  }

  /** On clean rows with distinct keys, `transform` comes down to casting and adding the derived columns. */
  lemma CleanPipelineStages(raw: Frame<RawRow>, strategy: string,
                            parseDate: string -> Option<CalendarDate>,
                            parseNumber: string -> Option<real>)
    requires Numeric(Temperature2mMax) in raw.columns && Numeric(Temperature2mMin) in raw.columns
    requires forall i :: 0 <= i < |raw.rows| ==> CleanRow(parseDate, raw.rows[i])
    requires forall i, j :: 0 <= i < j < |raw.rows| ==> RawKeyOf(raw.rows[i]) != RawKeyOf(raw.rows[j])
    ensures var typed := CastTypes(DropProvenance(raw), parseDate, parseNumber);
            typed.Ok? && Pipeline(raw, strategy, parseDate, parseNumber) == AddComputedColumns(typed.value)
  {
    var dropped := DropProvenance(raw);
    CleanRowsDropProvenance(raw, parseDate);
    CleanRowsCast(dropped, parseDate, parseNumber);
    var typed := CastTypes(dropped, parseDate, parseNumber).value;
    NothingMissingIgnoresStrategy(typed, strategy);
    CleanRowsPassValidation(typed);
  }

  lemma CleanRowsEnriched(raw: Frame<RawRow>, parseDate: string -> Option<CalendarDate>,
                          parseNumber: string -> Option<real>)
    requires Numeric(Temperature2mMax) in raw.columns && Numeric(Temperature2mMin) in raw.columns
    requires forall i :: 0 <= i < |raw.rows| ==> CleanRow(parseDate, raw.rows[i])
    requires forall i, j :: 0 <= i < j < |raw.rows| ==> RawKeyOf(raw.rows[i]) != RawKeyOf(raw.rows[j])
    ensures var typed := CastTypes(DropProvenance(raw), parseDate, parseNumber);
            typed.Ok? &&
            var r := AddComputedColumns(typed.value);
            && r.Ok? && r.value.columns == raw.columns - {SourceFile} + {TempRange, Month, DayOfWeek}
            && |r.value.rows| == |raw.rows|
            && forall i :: 0 <= i < |raw.rows| ==>
                 && r.value.rows[i].obs.city == raw.rows[i].city
                 && raw.rows[i].time.Some? && r.value.rows[i].obs.time == parseDate(raw.rows[i].time.value)
                 && r.value.rows[i].tempRange.Some?
  {
    var dropped := DropProvenance(raw);
    CleanRowsDropProvenance(raw, parseDate);
    CleanRowsCast(dropped, parseDate, parseNumber);
    var typed := CastTypes(dropped, parseDate, parseNumber).value;
    AddComputedColumnsDerivesFields(typed);
    var out := AddComputedColumns(typed).value;
    forall i | 0 <= i < |raw.rows|
      ensures && out.rows[i].obs.city == raw.rows[i].city
              && raw.rows[i].time.Some? && out.rows[i].obs.time == parseDate(raw.rows[i].time.value)
              && out.rows[i].tempRange.Some?
    {
      assert RawKeyOf(dropped.rows[i]) == RawKeyOf(raw.rows[i]);
    }
  }

  /**
   * Clean rows with distinct (city, time) keys all come out of `transform`, in order, under any
   * strategy, each with its date and a temperature range.
   */
  lemma TransformKeepsCleanRows(raw: Frame<RawRow>, strategy: string,
                                parseDate: string -> Option<CalendarDate>,
                                parseNumber: string -> Option<real>)
    requires Numeric(Temperature2mMax) in raw.columns && Numeric(Temperature2mMin) in raw.columns
    requires forall i :: 0 <= i < |raw.rows| ==> CleanRow(parseDate, raw.rows[i])
    requires forall i, j :: 0 <= i < j < |raw.rows| ==> RawKeyOf(raw.rows[i]) != RawKeyOf(raw.rows[j])
    ensures var r := Pipeline(raw, strategy, parseDate, parseNumber);
            && r.Ok? && r.value.columns == raw.columns - {SourceFile} + {TempRange, Month, DayOfWeek}
            && |r.value.rows| == |raw.rows|
            && forall i :: 0 <= i < |raw.rows| ==>
                 && r.value.rows[i].obs.city == raw.rows[i].city
                 && raw.rows[i].time.Some? && r.value.rows[i].obs.time == parseDate(raw.rows[i].time.value)
                 && r.value.rows[i].tempRange.Some?
  {
    CleanPipelineStages(raw, strategy, parseDate, parseNumber);
    CleanRowsEnriched(raw, parseDate, parseNumber);
  }
}
