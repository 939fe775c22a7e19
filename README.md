# Weather ETL core in Dafny

This project models the batch weather pipeline: daily observations for one city per file are
extracted, transformed into a validated and enriched frame, and upserted into the `weather_data`
table keyed on `(city, time)`. The model covers three parts.

- **Extract helpers** (`extractor.dfy`, module `Extractor`):
  - column headers lose their unit suffix (`temperature_2m_max (°C)` becomes `temperature_2m_max`);
  - the city is the lower-cased stem of the file name.
- **Transform** (`transformer.dfy`, properties in `transformer_properties.dfy`). The seven stages of
  `transform` are functions over a `Frame`, which is a set of present columns plus a sequence of rows:
  1. drop `source_file`;
  2. de-duplicate on `(city, time)`, keeping the first row;
  3. cast types;
  4. handle missing values with `drop`, `fill_zero` or `fill_mean`;
  5. drop rows with a temperature outside [-60, 60];
  6. drop rows with negative precipitation;
  7. add `temp_range`, `month` and `day_of_week`.

  The row type changes with the stage: `RawRow`, then `Observation`, then `Enriched`.
  `validate_precipitation` builds its mask in a loop, so it is the method `ValidatePrecipitation`.
  `Transform` is the method that runs the stages; it is proved equal to the function `Pipeline`.
- **Load** (`loader.dfy`, properties in `loader_properties.dfy`).
  - The `Store` class holds the table as a map from `Key(city, day)` to the ten non-key values, plus
    a flag saying whether `CREATE TABLE` has run.
  - `BuildRecords` is the nested record-building loop of `load`.
  - The database side is modelled from PostgreSQL's rules:
    - `VARCHAR(n)` refuses a longer value unless the excess is all spaces, which are cut off;
    - `NOT NULL` on `city` and `time`;
    - the 32-bit `INTEGER` range;
    - `execute_values` sends pages of 500 rows, and `INSERT … ON CONFLICT DO UPDATE` fails when one
      statement touches the same key twice;
    - everything runs in one transaction, which commits or rolls back.
  - The proofs show that a successful load is the row-by-row upsert `Apply` of the batch, that it
    fails exactly when a row breaks a constraint or a page repeats a key, and that it is idempotent.

Supporting modules:

- `Wrappers`: `Option` and `Result`.
- `Calendar`: valid dates, and the weekday by a closed formula proved to step with the calendar.
- `Sequences`: `Filter` with subsequence lemmas.
- `Observations`: the columns and the row types.

Parsing `time` with `%Y-%m-%d` and `pd.to_numeric(errors="coerce")` are parameters of the model
(`parseDate`, `parseNumber`), so every property holds for any parser that meets the hypotheses its
lemma states.

De-duplication is described as keyed on `(city, date)`, and the model follows the code instead.
`drop_duplicates(subset=["city", "time"])` runs before `cast_types`, so it compares the time values
as extracted strings, not as dates. The model therefore keys de-duplication on the raw string
(`RawKey`). `TransformKeysDistinct` carries the distinct-date guarantee through to the output, but
only for a date parser that never maps two strings to one date.

A batch whose page repeats a key is the database's error (`Rejected`) in the model, not a
precondition of `Load`. `LoadFailsExactly` states when it happens.

## Model

| member | source | states |
|---|---|---|
| Transformer.DropProvenance | src/transform.py:121 | definition: the frame without the `source_file` column; properties in `DropProvenanceKeepsKeys` |
| Transformer.RemoveDuplicates | src/transform.py:91-100 | definition: the rows that are the first with their raw `(city, time)` key; properties in the `RemoveDuplicates*` lemmas |
| Transformer.CastTypes | src/transform.py:39-58 | definition: dates and numbers parsed per row, failing on an unparsable date or a fractional weather code; properties in `CastKeepsKeysDistinct` and `CleanRowsCast` |
| Transformer.HandleMissingValues | src/transform.py:61-88 | definition: the early return when nothing is missing, then `drop`, `fill_zero`, `fill_mean` or the unknown-strategy error; properties in the lemmas from `NothingMissingIgnoresStrategy` to `HandleMissingKeepsKeysDistinct` |
| Transformer.ValidateTemperature | src/transform.py:7-21 | definition: the KeyError for an absent temperature column, else the rows with no out-of-range temperature; properties in the `ValidateTemperature*` lemmas |
| Transformer.PrecipitationChecked | src/transform.py:24-36 | definition: the rows with no negative value in a present precipitation column; properties in the `ValidatePrecipitation*` lemmas |
| Transformer.AddComputedColumns | src/transform.py:103-113 | definition: `temp_range`, `month` and `day_of_week` added to every row; properties in `AddComputedColumnsDerivesFields` |
| Transformer.Pipeline | src/transform.py:116-132 | definition: the seven stages in source order, stopping at the first error; properties in the `Transform*` and `Clean*` lemmas |
| Transformer.Transform | src/transform.py:116-132 | the method's result is `Pipeline`, the stages in source order, where the first failing stage aborts |
| Transformer.ValidatePrecipitation | src/transform.py:24-36 | the OR-ed mask loop over the existing precipitation columns keeps exactly the rows `PrecipitationChecked` keeps |
| Transformer.FirstIndex | src/transform.py:94 | the first row carrying a key: it has the key and no earlier row has it |
| TransformerProperties.RemoveDuplicatesKeysDistinct | src/transform.py:91-100 | after de-duplication no two rows share a `(city, time)` key |
| TransformerProperties.RemoveDuplicatesKeepsEveryKey | src/transform.py:94 | every key of the input is still present after de-duplication |
| TransformerProperties.RemoveDuplicatesIsSubsequence | src/transform.py:94 | the de-duplicated rows are an order-preserving subsequence of the input |
| TransformerProperties.RemoveDuplicatesKeepsFirst | src/transform.py:94 | each kept row is the first input row with its key (`keep="first"`) |
| TransformerProperties.RemoveDuplicatesSameKey | src/transform.py:94 | rows a, b, c with key(a) = key(b) ≠ key(c) leave [a, c] |
| TransformerProperties.RemoveDuplicatesDifferentCities | src/transform.py:94 | two rows on one date for different cities are both kept |
| TransformerProperties.KeepFirstOfDistinct | src/transform.py:94 | a frame whose keys are already distinct is unchanged |
| TransformerProperties.CastKeepsKeysDistinct | src/transform.py:39-58 | with a date parser that never maps two strings to one date, distinct raw keys stay distinct after parsing |
| TransformerProperties.NothingMissingIgnoresStrategy | src/transform.py:68-71 | a frame with nothing missing comes back unchanged, whatever the strategy string |
| TransformerProperties.UnknownStrategyRaisesOnlyWhenMissing | src/transform.py:61-88 | an unknown strategy fails if and only if some value is missing, and the error names the strategy |
| TransformerProperties.NoMissingMeansComplete | src/transform.py:68 | a row with nothing missing has its time, every present numeric column and the weather code |
| TransformerProperties.DropKeepsExactlyCompleteRows | src/transform.py:75-78 | `drop` keeps exactly the rows with nothing missing, in order, every copy of a kept row included, with the same columns |
| TransformerProperties.DropYieldsCompleteRows | src/transform.py:75-78 | after `drop` every row is complete in every column of the frame |
| TransformerProperties.FillZeroReplacesMissingWithZero | src/transform.py:79-81 | `fill_zero` keeps row count, key and present values, and puts 0 in every missing numeric cell, including the weather code |
| TransformerProperties.FillMeanReplacesMissingWithMean | src/transform.py:82-84 | `fill_mean` puts the column mean of the present values in each missing numeric cell, and the mean in each missing weather code (missing when the column has no value at all); it keeps the rest, and fails exactly when a missing weather code would get a fractional mean |
| TransformerProperties.MeanSkipsMissing | src/transform.py:84 | the mean of [1, missing, 3] is 2 |
| TransformerProperties.FillMeanExample | src/transform.py:82-84 | filling [1, missing, 3] by mean gives 2 in the middle row |
| TransformerProperties.HandleMissingShape | src/transform.py:61-88 | a successful missing-value step keeps the columns and never adds rows |
| TransformerProperties.HandleMissingKeepsKeysDistinct | src/transform.py:61-88 | distinct keys stay distinct under every strategy |
| TransformerProperties.ValidateTemperatureKeepsExactlyPlausible | src/transform.py:7-21 | the rows kept are exactly those whose max and min are missing or within [-60, 60], in order, every copy of a kept row included |
| TransformerProperties.ValidateTemperatureNeedsBothColumns | src/transform.py:9-12 | temperature validation fails if and only if a temperature column is absent |
| TransformerProperties.ValidateTemperatureExample | src/transform.py:7-21 | a row at 100 °C is dropped and a row at 7.3/3.4 °C is kept |
| TransformerProperties.ValidatePrecipitationKeepsExactlyNonNegative | src/transform.py:24-36 | the rows kept are exactly those with no negative value in a present precipitation column, in order, every copy of a kept row included |
| TransformerProperties.ValidatePrecipitationIgnoresAbsentColumns | src/transform.py:26-31 | with no precipitation column present nothing is removed |
| TransformerProperties.ValidatePrecipitationExample | src/transform.py:24-36 | a row with precipitation -5 is dropped, a non-negative one kept |
| TransformerProperties.AddComputedColumnsDerivesFields | src/transform.py:103-113 | each row gets `temp_range` = max − min, `month` = the date's month and `day_of_week` = its weekday name; rows and order are unchanged |
| TransformerProperties.AddComputedColumnsExample | src/transform.py:106-110 | 2024-01-01 with 7.3/3.4 °C gives range 3.9, month 1, Monday |
| TransformerProperties.DropProvenanceKeepsKeys | src/transform.py:121 | dropping `source_file` changes no `(city, time)` key |
| TransformerProperties.TransformDropsProvenanceAndAddsNoRows | src/transform.py:116-132 | a successful transform has no `source_file`, has `temp_range`, and never has more rows than its input |
| TransformerProperties.TransformRejectsUnparsableDates | src/transform.py:116-132 | the transform fails with a date error if and only if some row's time does not parse |
| TransformerProperties.ValidationsKeepPlausibleRows | src/transform.py:126-127 | after both validations every row is an input row with plausible temperatures and precipitation |
| TransformerProperties.EnrichedRowsComeFromInput | src/transform.py:103-113 | every enriched row wraps an input row with correct derived fields |
| TransformerProperties.FinalStagesValid | src/transform.py:126-128 | the last three stages yield only input rows that are plausible and correctly enriched |
| TransformerProperties.TransformOutputIsValid | src/transform.py:116-132 | every output row has temperatures in range, no negative precipitation and correct derived fields |
| TransformerProperties.TransformKeysDistinct | src/transform.py:123-128 | with a date parser that never maps two strings to one date, no two output rows share `(city, date)` |
| TransformerProperties.TransformDropYieldsCompleteRows | src/transform.py:125 | under `drop` every output row is complete and has a month and a weekday |
| TransformerProperties.CleanRowsDropProvenance | src/transform.py:121-123 | clean rows with distinct keys pass provenance removal and de-duplication untouched |
| TransformerProperties.CleanRowsCast | src/transform.py:39-58 | clean rows cast without error, keeping city and parsed date, with nothing missing |
| TransformerProperties.CleanRowsPassValidation | src/transform.py:7-36 | plausible rows pass both validations unchanged |
| TransformerProperties.CleanPipelineStages | src/transform.py:116-132 | for clean rows the pipeline is casting followed by enrichment |
| TransformerProperties.CleanRowsEnriched | src/transform.py:103-113 | enriching clean rows keeps every row with its city and date, and gives each a temperature range |
| TransformerProperties.TransformKeepsCleanRows | src/transform.py:116-132 | clean, distinct rows all survive the transform in order, with city, parsed date and temperature range |
| Observations.EveryMeasureListed | src/transform.py:45-48 | the numeric-column list of `cast_types` names every measure |
| Calendar.Weekday | src/transform.py:110 | the weekday index is in 0..6 |
| Calendar.NextDayIsNextWeekday | src/transform.py:110 | the weekday of the next calendar day is the next weekday, so the formula agrees with the calendar |
| Calendar.NewYear2024IsMonday | src/transform.py:110 | 2024-01-01 is a Monday |
| Loader.Records | src/load.py:79-98 | definition: one record per row in insert-column order, or the missing-column error; properties in `RecordsFollowColumnOrder`, `RecordsNeedEveryColumn` and `DecodeRecordOfRow` |
| Loader.FitVarchar | src/load.py:12 | definition: PostgreSQL's `VARCHAR(n)` assignment; properties in `TrailingSpacesAreCut` and `ShortCityIsKey` |
| Loader.StoreRow | src/load.py:9-27 | definition: a record checked against every column, giving the key and ten values or a refusal; properties in `StoreRowOfRecord`, `LoadableRowStored` and `UnloadableRowRefused` |
| Loader.RunPage | src/load.py:29-46 | definition: one `INSERT … ON CONFLICT DO UPDATE` statement; properties in `RunPageIsApply` |
| Loader.RunPages | src/load.py:103 | definition: `execute_values` with 500-row pages; properties in `RunPagesIsApply` and `PagesSplit` |
| Loader.LoadTable | src/load.py:72-112 | definition: records, conversion and the paged upsert in one transaction; properties in `LoadFailsExactly`, `LoadUpserts` and `LoadIsIdempotent` |
| Loader.BuildRecords | src/load.py:85-98 | the nested loops build exactly `Records`: NULL for missing values, the date for `time`, an int for `weather_code` |
| Loader.StoreCells | src/load.py:9-27 | a record is accepted exactly when every column accepts its value, and then each value is what its column stores |
| Loader.FirstAbsentAt | src/load.py:88-89 | the first insert column missing from the frame is the one `row[col]` raises on |
| Loader.FirstAbsentNone | src/load.py:88-89 | with every column present nothing is missing |
| Loader.StoreRowWellFormed | src/load.py:9-27 | a stored row has ten non-key values |
| Loader.ConvertedWellFormed | src/load.py:9-27 | every converted row has ten non-key values |
| Loader.RunPageWellFormed | src/load.py:29-46 | an upsert statement keeps every stored row at ten values |
| Loader.RunPagesWellFormed | src/load.py:103 | the paged upsert keeps every stored row at ten values |
| Loader.Store.constructor | src/load.py:60-69 | a fresh store has no table and no rows |
| Loader.Store.CreateTable | src/load.py:60-69 | with the database reachable the table exists afterwards and its rows are untouched; otherwise the call fails and nothing changes |
| Loader.Store.Load | src/load.py:72-112 | creates the table, then either commits `LoadTable`'s new table and returns the row count, or rolls back and returns the error |
| Loader.Store.GetRowCount | src/load.py:115-121 | the number of stored keys, or the error when the database is unreachable or the table was never created |
| LoaderProperties.DecodeRecordOfRow | src/load.py:79-98 | a row can be read back from its record, so no value is lost or misplaced |
| LoaderProperties.RecordsFollowColumnOrder | src/load.py:79-98 | with every column present there is one record per row; position 0 is the city, 1 the date or NULL, 7 the weather code or NULL |
| LoaderProperties.RecordsNeedEveryColumn | src/load.py:86-89 | building records fails if and only if the frame has rows and lacks an insert column |
| LoaderProperties.StoreCellsOfRecord | src/load.py:9-27 | how each value of a row's record fares against its column type and constraint |
| LoaderProperties.LoadableRowStored | src/load.py:9-27 | a row meeting every constraint is stored under `(city cut to 50, date)` with its other values |
| LoaderProperties.UnloadableRowRefused | src/load.py:9-27 | a row breaking a constraint is refused |
| LoaderProperties.StoreRowOfRecord | src/load.py:9-27 | a row is accepted if and only if it meets every constraint, and then it is stored with the values of its record |
| LoaderProperties.ShortCityIsKey | src/load.py:9-27 | a city of at most 50 characters is stored as is in the key |
| LoaderProperties.NoCollisionOnDateAlone | src/load.py:25 | rows of two cities never share a key |
| LoaderProperties.TrailingSpacesAreCut | src/load.py:12 | a 51st character that is a space is cut; any other is refused |
| LoaderProperties.LastIndex | src/load.py:35-45 | the last row of a batch with a key: later rows have other keys |
| LoaderProperties.ApplyConcat | src/load.py:103-104 | upserting a batch in two parts is upserting it whole |
| LoaderProperties.ApplyAt | src/load.py:35-45 | after the upsert a key holds the values of its last row in the batch, or its old values if the batch lacks it |
| LoaderProperties.ApplyKeys | src/load.py:30-35 | the upsert's keys are the old keys together with the batch's |
| LoaderProperties.ApplyDistinct | src/load.py:35-45 | with distinct keys each row of the batch is stored under its key |
| LoaderProperties.ApplyIdempotent | src/load.py:35-45 | upserting the same batch twice is upserting it once |
| LoaderProperties.UpsertSameKeys | src/load.py:35-45 | upserting keys that are all present keeps the key count and stores the new values |
| LoaderProperties.RunPageIsApply | src/load.py:29-46 | one statement succeeds if and only if every row is accepted and no two rows share a key, and then it is the row-by-row upsert |
| LoaderProperties.RunPagesIsApply | src/load.py:103 | the 500-row pages succeed if and only if every row is accepted and no page repeats a key, and then they are the row-by-row upsert |
| LoaderProperties.PagesSplit | src/load.py:103 | a batch splits into a full first page and the rest, with page-wise distinctness splitting with it |
| LoaderProperties.LoadFailsExactly | src/load.py:72-112 | a load with the database up fails exactly on a missing column, a refused row or a key repeated in one page; otherwise it returns `len(df)` and the upserted table |
| LoaderProperties.LoadUpserts | src/load.py:72-112 | a valid batch loads: the keys are old ∪ new, each new key holds its last row, other keys are unchanged |
| LoaderProperties.LoadStoresEveryRecord | src/load.py:72-112 | with distinct keys every row of the frame is stored under its key |
| LoaderProperties.LoadIsIdempotent | src/load.py:72-77 | loading the same frame again returns the same count and leaves the table unchanged |
| LoaderProperties.ReloadWithChangedValues | src/load.py:35-45 | reloading the same keys with new values keeps the row count and stores the new values |
| LoaderProperties.LoadableFrameRows | src/load.py:79-103 | the records of a frame of constraint-meeting rows with distinct `(city, date)` are all accepted, under distinct keys that are exactly the rows' keys |
| LoaderProperties.DistinctLoadableFrameLoads | src/load.py:72-112 | a frame of constraint-meeting rows with distinct `(city, date)` loads in full, adding exactly those keys |
| LoaderProperties.TwoCitiesOnOneDate | src/load.py:25 | two rows of different cities into an empty table give two stored rows |
| Extractor.CleanName | src/extract.py:17-19 | definition: cut at the first `(`, strip, spaces to underscores; properties in the `CleanName*` lemmas and `UnitSuffixIgnored` |
| Extractor.CityFromFilename | src/extract.py:26-28 | definition: the lower-cased stem of the file name; properties in `CityIsLowerSegment`, `CityOfDataFile` and `TrailingSlashIgnored` |
| Extractor.CleanColumnNames | src/extract.py:12-23 | the loop's map renames every header to its cleaned form, in place, and leaves the rows as they are |
| Extractor.BeforeParen | src/extract.py:17 | the text before the first `(`: a prefix holding no `(` and followed by `(` unless it is everything |
| Extractor.Strip | src/extract.py:17 | the stripped text is a slice of the input with no whitespace at either end, and everything around it is whitespace |
| Extractor.ReplaceSpaces | src/extract.py:19 | every space becomes `_` and every other character stays |
| Extractor.CleanNameHasNoParenOrSpace | src/extract.py:17-19 | a cleaned name holds no `(` and no space |
| Extractor.CleanNameHasNoEdgeSpace | src/extract.py:17-19 | a cleaned name has no whitespace at either end |
| Extractor.CleanNameFixedPoint | src/extract.py:17-19 | a name with no `(`, no space and no edge whitespace is unchanged |
| Extractor.CleanNameIdempotent | src/extract.py:17-19 | cleaning a cleaned name changes nothing |
| Extractor.UnitSuffixIgnored | src/extract.py:17-19 | `name`, spaces, then `(unit` cleans to `name`, with no trailing underscore |
| Extractor.TemperatureHeader | src/extract.py:13 | `temperature_2m_max (°C)` cleans to `temperature_2m_max` |
| Extractor.RainHeader | src/extract.py:17-19 | `rain_sum (mm)` cleans to `rain_sum`, with no trailing underscore |
| Extractor.FileName | src/extract.py:28 | the file name holds no `/`; what it is for `dir/file` is stated by `FileNameOfJoin` and `TrailingSlashIgnored` |
| Extractor.LastDot | src/extract.py:28 | the index of the last `.`, or -1 when there is none |
| Extractor.Stem | src/extract.py:28 | the stem is a prefix of the name; which prefix is stated by `StemOfBaseExt` and `StemOfDotFile` |
| Extractor.CityIsLowerSegment | src/extract.py:26-28 | the city holds no `/` and no upper-case letter |
| Extractor.LowerIdempotent | src/extract.py:28 | lower-casing twice is lower-casing once |
| Extractor.AfterLastSlashOfJoin | src/extract.py:28 | the text after the last `/` of `dir/file` is `file` |
| Extractor.FileNameOfJoin | src/extract.py:28 | the name of `dir/file` is `file` |
| Extractor.StemOfBaseExt | src/extract.py:28 | the stem of `base.ext` is `base` when `ext` has no dot |
| Extractor.CityOfDataFile | src/extract.py:26-28 | a file `base.ext` in any directory gives the lower-cased `base` |
| Extractor.TestCityFile | src/extract.py:26-28 | `/tmp/pytest-0/test_city.csv` gives `test_city` |
| Extractor.OnlyLastSuffixDropped | src/extract.py:28 | `data/Berlin.tar.gz` gives `berlin.tar` |
| Extractor.StemOfDotFile | src/extract.py:28 | a name whose only dot is the leading one is its own stem |
| Extractor.LowerNoCapitals | src/extract.py:28 | a name without capitals is unchanged by lower-casing |
| Extractor.DotFileKeepsName | src/extract.py:26-28 | a dot file gives its whole name, because a leading dot is not a suffix |
| Extractor.HiddenFileKeepsName | src/extract.py:28 | `.hidden` gives `.hidden` |
| Extractor.TrailingSlashIgnored | src/extract.py:28 | a trailing `/` does not change the city |

## Left out

- Database plumbing is left out: connections, credentials, cursors, the SQL text and closing. The
  `id SERIAL` and `created_at` columns are left out too, because no operation reads them. An
  unreachable database and a failing write are the `Connection` parameter (`Down`, `FailsOnWrite`).
- `get_connection`, the CLI in `src/main.py` and `config/settings.py` are not part of this model.
- Logging is left out, including the loop that logs each rejected temperature row. It does not affect
  what is returned.
- `extract_csv`, `extract_json` and `extract_all` are left out. They are file and directory I/O through
  pandas readers.
- Floating point is left out: measurements are `real`. `pd.to_numeric(errors="coerce")` and
  `pd.to_datetime(format="%Y-%m-%d")` are the abstract parameters `parseNumber` and `parseDate`.
- Transformer.CastTypes: `cast_types`, `fill_zero`, `fill_mean` and `add_computed_columns` assign
  columns in place in the source. The model writes them as functions that return a new frame, because
  the row type changes between stages. The column loop of `cast_types` is one function over the
  numeric columns.
- `city` and `time` are always present in the model's rows. The KeyError for a missing `city` or `time`
  column is not modelled.
- Columns outside the known ones are not modelled. `dropna` and `fill_*` would also act on unknown
  extra columns.
- Transformer.FillMean: the mean of an all-missing column stays missing, and a fractional mean for
  the nullable-integer weather code is an error (`NonIntegralFill`). pandas' exact behaviour for those
  two dtype edge cases is not modelled further.
- Weather codes are unbounded integers before loading. pandas' `Int64` range is not modelled. The
  32-bit `INTEGER` limit is enforced when the row is stored.
- Extractor.Strip, Extractor.Lower: only ASCII whitespace and ASCII letters are handled. Unicode
  whitespace and case mapping are not modelled.
- Extractor.FileName: POSIX paths only. `.` components and repeated or trailing slashes are ignored,
  as `PurePosixPath` does. Windows drive and separator rules are not modelled.
- TransformerProperties.TransformKeysDistinct: the property holds only if `parseDate` never maps two
  different strings to one date. De-duplication compares the raw strings, so two spellings of one date
  could both survive the transform.
