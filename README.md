# Met Office historic station data: a verified model

This project models the part of the climate-paper scripts that reads Met Office historic station files. Each station file is a text file: a few metadata lines, then one row per month holding `yyyy mm tmax tmin af rain sun`. The scripts turn each file into a monthly table. From every station they compute the mean maximum temperature, and they collect those means into a `location,max_temp` report.

The model follows one file through the pipeline:

- **Cleaning** (`Sanitizer`). Every line whose case-folded text contains "site closed" is dropped. Each kept line stays unchanged and in order, including its line break.
- **Reading** (`MetOfficeReader`).
  - The first 7 lines of the *cleaned* text are skipped; the early scripts skip 8.
  - Each remaining line is split on runs of blanks.
  - A line with more fields than the seven column names is skipped. A blank line is skipped. A shorter row is padded with missing values.
  - The year and month become the row's key, the first day of that month. A row whose year or month pandas cannot turn into a date makes the whole read fail.
  - In the five measurement columns, `---` is missing. Every other token is coerced to a number, or to missing when it is not a plain decimal numeral. So `12.3*` and `164.5#` are missing, not 12.3 and 164.5.
- **The station** (`Station`).
  - The station name is the file name with every occurrence of `data.txt` removed.
  - The mean maximum temperature skips missing cells. It is undefined (`None`) when no cell is present.
  - `MetOfficeHistoricStationData` is a class whose three fields are set once, at construction, after the read has succeeded.
- **The report** (`Aggregator`).
  - Both later drivers, the function version and the class version, walk the `*data.txt` entries of the data directory in discovery order.
  - A file whose read raises is skipped.
  - Every other file adds one `(location, max_temp)` row.
  - The CSV records are the header `location,max_temp`, then the rows in order.
- **The early scripts** (`LegacyScript`).
  - These are the version-1 figure script and the top-level `test.py`.
  - They process any `.txt` name and skip 8 lines. The version-1 script also plots, and for a name without `data.txt` its plot cannot be saved (see "## Left out").
  - They write the header line before the loop, then one line per processed file, to an open handle.
  - They have no error handling, so the first file that fails ends the run.

The directory listing and the file contents are inputs: a `DataFile` holds a name and the text of the file, or `None` when it cannot be opened. Numbers are exact `real`s, and NaN is `Absent`/`None`.

Files:

- `wrappers.dfy`: `Option` and `Result`.
- `text.dfy`: lines, the whitespace tokenizer, ASCII case folding, substring search and `str.replace`.
- `sanitizer.dfy`
- `numbers.dfy`: numerals, `to_numeric` with `errors='coerce'`, and integer fields.
- `reader.dfy`
- `station.dfy`
- `aggregator.dfy`
- `legacy.dfy`
- `scenarios.dfy`: the repository's station test, as a theorem over every 7-line header and every column spacing.

Behaviour of the code worth knowing before reading the model:

- Annotated readings such as `12.3*` keep their mark, so coercion makes them missing.
- Rows with fewer than seven fields are padded with missing values by pandas.
- A row whose year or month cannot be assembled into a date makes the whole file fail.
- A station whose mean is undefined still gets a row, with an undefined (NaN) `max_temp`.
- A file with no data rows gives an empty table and an undefined mean; it is not a failure.
- The station name is the file name with every occurrence of `data.txt` removed, wherever it appears.

## Model

| member | source | states |
|---|---|---|
| Sanitizer.SanitizeLines | scripts/plot_climate_data_good.py:143-147 | the kept lines are lines of the file with no closure notice, and every line without one is kept |
| Sanitizer.SanitizeConcat | scripts/plot_climate_data_good.py:145-147 | the filter works line by line: cleaning two stretches of lines cleans each one in turn |
| Sanitizer.SanitizeNoNotice | scripts/plot_climate_data_good.py:145-147 | a file with no closure notice is left exactly as it is |
| Sanitizer.SanitizeAllNotices | scripts/plot_climate_data_good.py:145-147 | a file made only of closure notices is emptied |
| Sanitizer.SanitizeIdempotent | scripts/plot_climate_data_good.py:145-147 | cleaning twice is the same as cleaning once |
| Sanitizer.SanitizeDropsNotice | scripts/plot_climate_data_good.py:145-147 | a closure notice anywhere is removed, and its neighbours keep their order |
| Sanitizer.SanitizeWellFormed | scripts/plot_climate_data_good.py:145-149 | the kept lines, line breaks included, still form a text that splits back into them |
| Sanitizer.NoticeNeedsLetterS | scripts/plot_climate_data_good.py:146 | a line with no `s` or `S` in it is never a closure notice, whatever its case |
| Sanitizer.IsClosureNotice | scripts/plot_climate_data_good.py:146 | a line holding "site closed" in lower case is a notice, and a notice is at least as long as the marker |
| Sanitizer.CaseVariantIsNotice | scripts/plot_climate_data_good.py:146 | a line holding the marker in any mix of cases, anywhere, is a notice |
| Sanitizer.VariantInLineIsNotice | scripts/plot_climate_data_good.py:146 | a spelling that folds to the marker makes any line holding it a notice |
| Sanitizer.FoldsToMarker | scripts/plot_climate_data_good.py:146 | a text equal to the marker up to capital letters folds to the marker |
| Sanitizer.CapitalisedNotices | scripts/plot_climate_data_good.py:146 | lines holding "Site Closed", "Site closed" or "SITE CLOSED" are notices, whatever surrounds them |
| Sanitizer.PreprocessMetOfficeFile | scripts/plot_climate_data_good.py:136-149 | the joined text splits into exactly the cleaned lines of the input |
| Sanitizer.CleanLines | src/climate_paper_v1/climate_paper_figs.py:29-34 | the explicit loop appends exactly the lines the filter keeps, in order |
| TextUtil.SplitLines | scripts/plot_climate_data_good.py:144-145 | iterating over an open file gives no more lines than characters, and no lines exactly for an empty file |
| TextUtil.SplitLinesWellFormed | scripts/plot_climate_data_good.py:144-145 | every line read ends in its line break, except possibly the last, and none is empty |
| TextUtil.SplitLinesJoinBack | scripts/plot_climate_data_good.py:144-149 | joining the lines read from a file gives back its text |
| TextUtil.SplitLinesJoin | scripts/plot_climate_data_good.py:144-149 | reading a file line by line and joining the lines gives back the text |
| TextUtil.JoinLines | scripts/plot_climate_data_good.py:149 | the join loses nothing: it is empty only when every line is, and non-empty lines give at least one character each |
| TextUtil.JoinLinesSplit | scripts/plot_climate_data_good.py:149 | joining well-formed lines and reading them back gives the same lines |
| TextUtil.Tokens | scripts/plot_climate_data_good.py:68-70 | no more fields than characters, and every field from the whitespace split is non-empty and has no blank |
| TextUtil.TokensAppend | scripts/plot_climate_data_good.py:68-70 | a blank at the seam keeps the fields of two stretches of text apart |
| TextUtil.TokensOfLayout | scripts/plot_climate_data_good.py:68-70 | fields laid out with at least one blank between each pair, and any number of blanks after the last, split back into exactly those fields |
| TextUtil.CaseFold | scripts/plot_climate_data_good.py:146 | folding keeps the length, turns every capital into its small letter, leaves no capital, and changes no other character |
| TextUtil.FoldSlice | scripts/plot_climate_data_good.py:146 | folding works character by character, so a folded slice is a slice of the folded text |
| TextUtil.FoldKeepsLowercase | scripts/plot_climate_data_good.py:146 | a lower-case pattern found in a line is still found after folding the line |
| TextUtil.Contains | scripts/plot_climate_data_good.py:146 | the empty pattern is in every text, and a pattern found is never longer than the text |
| TextUtil.ContainsOccurs | scripts/plot_climate_data_good.py:146 | the substring test succeeds exactly when the pattern occurs at some index |
| TextUtil.MissingFirstChar | scripts/plot_climate_data_good.py:146 | text that never holds the pattern's first character does not contain it |
| TextUtil.ReplaceAll | scripts/plot_climate_data_good.py:93 | replacing a pattern that does not occur leaves the text unchanged, and removing a pattern never makes the text longer |
| TextUtil.EndsWith | src/climate_paper_v1/climate_paper_figs.py:19 | a text ends with a suffix exactly when it is some text followed by that suffix |
| TextUtil.ReplaceAllFirstOccurrence | scripts/plot_climate_data_good.py:93 | the leftmost occurrence of an unbordered pattern is replaced, and the scan resumes after it |
| Numbers.IndexOfAppend | scripts/plot_climate_data_good.py:84-85 | the first decimal point of a text is found past a prefix that has none |
| Numbers.ParseNumber | scripts/plot_climate_data_good.py:84-85 | only a non-empty token is a number, and a lone sign is not one |
| Numbers.UnsignedNumeral | scripts/plot_climate_data_good.py:84-85 | the unsigned reader gives every valid digits-point-digits text its exact value |
| Numbers.ParseSigned | scripts/plot_climate_data_good.py:84-85 | a leading minus negates the value, and a leading plus keeps it |
| Numbers.ParseNumeral | scripts/plot_climate_data_good.py:84-85 | every valid numeral parses to its own value |
| Numbers.ParsedIsNumeral | scripts/plot_climate_data_good.py:84-85 | whatever parses is the text of a valid numeral with that value, so the parser and the numerals agree in both directions |
| Numbers.UnsignedParts | scripts/plot_climate_data_good.py:84-85 | an accepted unsigned text splits into whole digits, an optional point and fraction digits |
| Numbers.NumeralEnd | scripts/plot_climate_data_good.py:84-85 | a numeral ends in a digit or a point |
| Numbers.AnnotatedIsNotNumber | scripts/plot_climate_data_good.py:82-85 | a token with a trailing mark such as `*` or `#` is not a number |
| Numbers.MissingAsNaN | scripts/plot_climate_data_good.py:58-64 | a token is missing exactly when it is `---`, and any other token is passed on unchanged |
| Numbers.ToNumeric | scripts/plot_climate_data_good.py:82-85 | coercion yields a number exactly for numeral text, and that number is the numeral's value; missing stays missing; it never fails |
| Numbers.Coerce | scripts/plot_climate_data_good.py:58-64 | `---` is missing, a numeral becomes its value, and only numerals become numbers |
| Numbers.AnnotatedIsAbsent | scripts/plot_climate_data_good.py:82-85 | a reading with an annotation mark becomes missing instead of being stripped |
| Numbers.CoercePlainReading | scripts/plot_climate_data_good.py:84-85 | "12.3" coerces to 12.3 |
| Numbers.CoerceNegativeReading | scripts/plot_climate_data_good.py:84-85 | "-2.5" coerces to -2.5 |
| Numbers.CoerceUnitReading | scripts/plot_climate_data_good.py:84-85 | a reading such as "4.0" coerces to its digit's value |
| Numbers.CoerceMarkedReadings | scripts/plot_climate_data_good.py:82-85 | "12.3*" and "164.5#" coerce to missing |
| Numbers.NatTextDigits | scripts/plot_climate_data_good.py:78 | the decimal text of a year or month is all digits and reads back as that number |
| Numbers.ParseNatText | scripts/plot_climate_data_good.py:78 | an integer field written in decimal parses back to its value |
| Numbers.ParseInt | scripts/plot_climate_data_good.py:78 | a token is read exactly when it is an optional sign followed by at least one digit, so anything else makes the date column fail; the value is that of the digits, negated after a minus |
| Numbers.ParseIntSigned | scripts/plot_climate_data_good.py:78 | every sign followed by digits reads back as the digits' value with that sign |
| MetOfficeReader.DataRows | scripts/plot_climate_data_good.py:68-75 | no more rows than lines, and every kept row has between one and seven fields |
| MetOfficeReader.DataRowsOfFields | scripts/plot_climate_data_good.py:68-75 | when each line splits into between one and seven fields, the rows are exactly those fields, line by line |
| MetOfficeReader.DataRowsConcat | scripts/plot_climate_data_good.py:68-75 | rows are read line by line, so one line never affects its neighbours |
| MetOfficeReader.OverlongRowSkipped | scripts/plot_climate_data_good.py:66-74 | a row with more fields than column names is skipped and the read goes on |
| MetOfficeReader.FullRowKept | scripts/plot_climate_data_good.py:68-73 | a row with exactly seven fields is kept, in its place |
| MetOfficeReader.DataRowsAllKept | scripts/plot_climate_data_good.py:68-73 | when no line is blank or over-long, every line becomes one row holding its fields |
| MetOfficeReader.RowKeyOfMonth | scripts/plot_climate_data_good.py:78 | a row starting with a representable year and month in decimal is keyed by the first day of that month |
| MetOfficeReader.RowKey | scripts/plot_climate_data_good.py:78 | a key fails only with a date-assembly error; a missing key comes only from a row too short to hold a month; a dated key is the first day of the month written in the row, and pandas can hold that month |
| MetOfficeReader.AssembleDates | scripts/plot_climate_data_good.py:78 | the date column builds exactly when every row's date does, and then it holds one key per row, in order |
| MetOfficeReader.TableOf | scripts/plot_climate_data_good.py:77-85 | one observation per row |
| MetOfficeReader.ReadLinesRows | scripts/plot_climate_data_good.py:68-85 | each observation carries its row's date, and each measurement is the row's field after the missing marker and coercion, or missing where the row was padded |
| MetOfficeReader.ReadLinesFails | scripts/plot_climate_data_good.py:77-85 | a read fails exactly when some kept row has a date that cannot be built; measurements never make it fail |
| MetOfficeReader.NoticeDoesNotShiftHeader | scripts/plot_climate_data_good.py:54-71 | the header is counted after cleaning, so a closure notice, even inside the header, changes nothing in the table |
| MetOfficeReader.HeaderSkipped | scripts/plot_climate_data_good.py:68-71 | with a header of `skip` lines and no notice in it, reading starts at the first line after the header |
| MetOfficeReader.Drop | scripts/plot_climate_data_good.py:71 | skipping n lines leaves the lines after the first n, or none when there are fewer |
| MetOfficeReader.ReadLines | scripts/plot_climate_data_good.py:68-85 | a read fails only with a date-assembly error, and has no more rows than the lines after the header |
| MetOfficeReader.MetOfficeTable | scripts/plot_climate_data_good.py:50-89 | reading fails with `CannotOpen` exactly when the file cannot be opened, and gives no more rows than the file has lines |
| MetOfficeReader.RawColumns | scripts/plot_climate_data_good.py:68-75 | five raw measurement columns, each as long as the table |
| MetOfficeReader.CoerceColumns | scripts/plot_climate_data_good.py:84-85 | the column loop replaces every cell of each column by its coercion |
| MetOfficeReader.JoinColumns | scripts/plot_climate_data_good.py:77-80 | the date index and five columns make one row per date |
| MetOfficeReader.ColumnsMakeTable | scripts/plot_climate_data_good.py:77-85 | coercing whole columns in turn gives the same table as coercing row by row |
| MetOfficeReader.ReadCleanText | scripts/plot_climate_data_good.py:68-89 | the in-place DataFrame steps give the table, or the failure, of the reading rules |
| MetOfficeReader.ReadMetOfficeFile | scripts/plot_climate_data_good.py:50-89 | opening, cleaning and reading a file gives the model's table, and a file that cannot be opened fails |
| Station.StationName | scripts/plot_climate_data_good.py:92-93 | the name is never longer than the file name |
| Station.DataSuffixUnbordered | scripts/plot_climate_data_good.py:93 | no proper prefix of "data.txt" is also a suffix of it, so occurrences cannot overlap |
| Station.StationNameOfDataFile | scripts/plot_climate_data_good.py:92-93 | a file named stem + "data.txt", whose stem does not contain "data.txt", gets the stem as its name |
| Station.StationNameWithoutSuffix | scripts/plot_climate_data_good.py:92-93 | a file name without "data.txt" is its own station name |
| Station.StationNameRemovesRepeatedSuffix | scripts/plot_climate_data_good.py:93 | every occurrence is removed: "data.txtdata.txt" gives the empty name |
| Station.StationNameRemovesInnerOccurrence | scripts/plot_climate_data_good.py:93 | an inner occurrence is removed: "datadata.txt.txt" gives "data.txt" |
| Station.PresentTmax | scripts/plot_climate_data_good.py:96-97 | no more values than rows |
| Station.Mean | scripts/plot_climate_data_good.py:96-97 | undefined exactly for no values |
| Station.PresentTmaxConcat | scripts/plot_climate_data_good.py:96-97 | the present values of two stretches of the table follow each other |
| Station.PresentTmaxValues | scripts/plot_climate_data_good.py:96-97 | a value is taken exactly when some row has it as its maximum temperature |
| Station.PresentTmaxAllPresent | scripts/plot_climate_data_good.py:96-97 | when every row has a maximum temperature, all are taken, in row order |
| Station.MeanTmax | scripts/plot_climate_data_good.py:96-99 | the mean is NaN exactly when every maximum temperature is missing |
| Station.MeanTmaxIgnoresAbsent | scripts/plot_climate_data_good.py:96-97 | a row with a missing maximum temperature does not move the mean |
| Station.SumBounds | scripts/plot_climate_data_good.py:97 | the sum of n values lies between n times any lower bound and n times any upper bound |
| Station.MeanBounds | scripts/plot_climate_data_good.py:97 | the mean lies between any lower and upper bound of the values |
| Station.QuotientBounds | scripts/plot_climate_data_good.py:97 | dividing a bounded sum by the count keeps it within the bounds |
| Station.MeanTmaxBounds | scripts/plot_climate_data_good.py:96-99 | the mean maximum temperature lies between the lowest and highest present maximum temperature |
| Station.MeanOfOneToFive | scripts/class_version/test_historic_station_data.py:20-33 | readings 1.0 to 5.0 have mean 3.0 |
| Station.MetOfficeHistoricStationData.constructor | src/climate_paper_v3/historic_station_data.py:20-24 | the file, its table and its station name are stored |
| Station.MetOfficeHistoricStationData.MeanMaximumTemperature | src/climate_paper_v3/historic_station_data.py:26-29 | undefined exactly when every maximum temperature of the stored table is missing |
| Station.MetOfficeHistoricStationData.Repr | src/climate_paper_v3/historic_station_data.py:47-48 | the text is the fixed prefix followed by the station name, so it is as long as the two together |
| Station.ReprIdentifiesStation | src/climate_paper_v3/historic_station_data.py:47-48 | two stations print alike exactly when their names are equal |
| Station.NewStationData | src/climate_paper_v3/historic_station_data.py:20-24 | construction fails exactly when the read fails, with its error; otherwise a new station holds the file, the table read with a 7-line header, and the file's station name |
| Aggregator.SummaryOf | scripts/plot_climate_data_good.py:31-44 | each entry adds at most one row |
| Aggregator.MatchesDataGlob | scripts/plot_climate_data_good.py:31 | a name matches `*data.txt` exactly when it is some stem followed by "data.txt" |
| Aggregator.Summaries | scripts/plot_climate_data_good.py:29-44 | the report has no more rows than the listing has entries |
| Aggregator.RowsInOrderAtMostOne | scripts/plot_climate_data_good.py:29-44 | when each entry gives at most one row, the rows number no more than the entries |
| Aggregator.MaxTempsCsv | scripts/plot_climate_data_good.py:120-133 | the header `location,max_temp` comes first, then one record per row, in the order given |
| Aggregator.RowsInOrderConcat | scripts/plot_climate_data_good.py:29-44 | rows are appended in discovery order, so two stretches of the listing give their rows one after the other |
| Aggregator.SummariesConcat | scripts/plot_climate_data_good.py:29-44 | the report of a listing is the report of its first part followed by that of the rest |
| Aggregator.SummariesSingle | scripts/plot_climate_data_good.py:31-44 | a listing of one entry reports exactly that entry's rows |
| Aggregator.FailingFileSkipped | scripts/plot_climate_data_good.py:34-38 | a file whose read raises adds nothing, and the files after it are still reported |
| Aggregator.NonMatchingFileIgnored | scripts/plot_climate_data_good.py:31 | an entry not matching `*data.txt` adds nothing |
| Aggregator.ReadableFileAddsRow | scripts/plot_climate_data_good.py:40-44 | a matching file that reads adds exactly its own row, its name and mean, in its place |
| Aggregator.RowsComeFromReadableFiles | scripts/plot_climate_data_good.py:31-44 | every row comes from a matching, readable file of the listing |
| Aggregator.ReadableFilesHaveRows | scripts/plot_climate_data_good.py:31-44 | every matching, readable file has its row in the report |
| Aggregator.AllReadableAllReported | scripts/plot_climate_data_good.py:31-44 | when every entry matches and reads, there is one row per entry |
| Aggregator.SummariesStep | scripts/plot_climate_data_good.py:31-44 | the rows after one more entry are the rows so far followed by that entry's rows |
| Aggregator.PlotClimatePaperFigsAndCsv | scripts/plot_climate_data_good.py:23-47 | the loop hands the writer the header and the rows of the reporting rules, in discovery order |
| Aggregator.PlotClimatePaperFigsAndCsvClassy | scripts/class_version/plot_climate_data_classy.py:20-44 | the class version reports the same records: only construction is guarded, and each station gives its name and mean |
| LegacyScript.MaxTempsFile.constructor | src/climate_paper_v1/climate_paper_figs.py:61 | opening the output truncates it |
| LegacyScript.MaxTempsFile.Write | src/climate_paper_v1/climate_paper_figs.py:53 | each write appends exactly one line |
| LegacyScript.DataGlobNamesAreTxt | test.py:7 | every name the later scripts' pattern accepts ends in `.txt` too |
| LegacyScript.ProcessFileOutput | test.py:5-40 | one call writes at most one line |
| LegacyScript.NonTxtIgnored | test.py:7-9 | a name not ending in `.txt` returns at once: nothing is read, written or failed |
| LegacyScript.LegacyRun | test.py:45-46 | no more lines than names |
| LegacyScript.RunOfAtMostOne | test.py:45-46 | when each name writes at most one line, the run writes no more lines than names |
| LegacyScript.RunOfAbort | test.py:45-46 | once a run has failed, further names change nothing |
| LegacyScript.RunOfConcat | test.py:45-46 | without a failure in the first stretch, a run over two stretches writes their lines one after the other and ends as the second ends |
| LegacyScript.LegacyRunStep | test.py:45-46 | one more name either ends the run with its error, or adds its lines |
| LegacyScript.AbortStopsRemaining | test.py:45-46 | once a file has failed, the names after it change nothing |
| LegacyScript.LegacyRunConcat | test.py:45-46 | without a failure, the lines of two stretches of the listing follow each other |
| LegacyScript.FailureEndsRun | src/climate_paper_v1/climate_paper_figs.py:64-65 | a failing `.txt` file ends the run: the lines before it stay, and no later file writes anything |
| LegacyScript.ReadableFileAddsLine | src/climate_paper_v1/climate_paper_figs.py:53 | a readable `.txt` file adds exactly one line, its name and mean, after those before it |
| LegacyScript.ScriptOutput | src/climate_paper_v1/climate_paper_figs.py:61-65 | the header is the first line written, and every later line is a value line |
| LegacyScript.OnlyValueLines | src/climate_paper_v1/climate_paper_figs.py:53 | the loop writes only value lines |
| LegacyScript.ProcessFile | src/climate_paper_v1/climate_paper_figs.py:17-53 | one call appends its line to the handle, or raises having written nothing |
| LegacyScript.RunScript | src/climate_paper_v1/climate_paper_figs.py:61-67 | the handle ends with the header, then the lines of the files processed before the first failure, and reports that failure |
| LegacyScript.StoppedRun | test.py:45-46 | the run ends at the first failure with the outcome of the whole listing |
| TestStationScenario.TestFileLines | scripts/class_version/test_historic_station_data.py:12-25 | the test file splits into its header and data lines, and none is a closure notice |
| TestStationScenario.DataLineFields | scripts/class_version/test_historic_station_data.py:20-24 | each data line, however its columns are spaced, splits into its seven fields |
| TestStationScenario.TestRowKeys | scripts/class_version/test_historic_station_data.py:20-24 | the five rows are keyed by September 1964 to January 1965 |
| TestStationScenario.TestFileRows | src/climate_paper_v3/historic_station_data.py:66-73 | after cleaning and the 7-line skip, all five data rows survive with their fields |
| TestStationScenario.TestTmaxCells | scripts/class_version/test_historic_station_data.py:20-24 | the maximum temperatures coerce to 1.0 to 5.0 |
| TestStationScenario.TestSunCells | scripts/class_version/test_historic_station_data.py:20-24 | the sunshine column is all missing |
| TestStationScenario.ExpectedRowsTable | src/climate_paper_v3/historic_station_data.py:66-83 | rows with the expected dates and readings give a table of the kind the test expects |
| TestStationScenario.TestFileTable | src/climate_paper_v3/historic_station_data.py:54-87 | reading the test file succeeds with five rows, keyed by their months, tmax 1.0 to 5.0 and sunshine missing |
| TestStationScenario.TestStationName | scripts/class_version/test_historic_station_data.py:11-32 | "teststationdata.txt" names the station "teststation" |
| TestStationScenario.TestTableMean | scripts/class_version/test_historic_station_data.py:33 | the mean maximum temperature of that table is 3.0 |
| TestStationScenario.TestMetOfficeHistoricStationData | scripts/class_version/test_historic_station_data.py:9-33 | building the station from the test file succeeds, with name "teststation" and mean 3.0 |
| TestStationScenario.GetStationNameExample | scripts/test_plot_climate_data_good.py:11-20 | "someplacedata.txt" names the station "someplace" |

## Left out

- Plotting: `plot_max_temp_png`, `plot_max_temp_figure` and the matplotlib calls of the early scripts. They render through a library outside the model and compute nothing the report uses.
- An uncaught error while computing a mean or plotting. Every version plots outside any error handling. In the model the mean cannot raise and there is no plotting, so that path does not arise.
- File output, logging and printing:
  - the CSV writer is modelled as the list of records it is handed;
  - the early scripts' handle is modelled as the list of lines written to it;
  - the text formatting of the mean (Python's float repr) and CSV quoting are not modelled.
- Directory discovery (`glob`, `os.listdir`). The listing is an input sequence in discovery order. Hidden-file and sorting details of `pathlib` are not modelled.
- Creating the output directories at import, and the hard-wired `RESULTS_DIR` that the function version writes to instead of its `work_dir` argument. This is output-path plumbing.
- Newline handling: the text is taken after Python's universal-newline translation, so `\r\n` and `\r` are not modelled.
- Case folding covers ASCII letters only. Full Unicode `casefold` is outside the model.
- The blanks of the tokenizer are space and tab; form feed and vertical tab are not treated as separators.
- TextUtil.Tokens: pandas' reader treats `"` as a quote character, so a quoted field may hold blanks. The model treats `"` as an ordinary character and splits inside quotes. The station files this pipeline reads hold no quotes.
- pandas default NA strings other than `---` (such as `NA` or `nan`), exponents, `inf` and thousands separators are not recognised as numbers. In the five measurement columns such tokens coerce to missing.
- MetOfficeReader.RowKey: the year and month columns accept only plain integer text. pandas also reads integral decimals there (`9.0`) as that month, and turns a default NA string (`NA`, `nan`) into a NaT key; on such rows the model fails the read with `CannotAssembleDates` where pandas reads the file.
- MetOfficeReader.RowKey: the `NaT` key of a row too short to hold a month follows pandas 1.x. When such a row pads the year or month column with NaN, that column is read as floats. pandas 2.x may then render the dates as text such as `19640901.0` and fail to assemble them. The model keeps the pandas 1.x key.
- LegacyScript.ProcessFile: the version-1 script saves its plot to `filename.replace('data.txt', '.png')`, after writing the file's line. For a `.txt` name without `data.txt`, that path keeps its `.txt` extension, matplotlib refuses to save to it, and the uncaught error ends the run. The model has no plotting, so that file adds its line and the run goes on; `test.py`, which does not plot, behaves as the model does.
- LegacyScript: the early scripts nest `"data.txt"` inside a double-quoted f-string, which only Python 3.12 and later accept (PEP 701). On an older Python neither script runs at all; the model describes a run under Python 3.12 or later.
- Numbers are exact reals. Floating-point rounding of values and of the mean is not modelled.
- pandas' date assembly packs year and month into one integer, so some out-of-range months can slip through as other dates. The model requires month 1 to 12 and a date pandas can hold.
- A file whose first kept row is over-long makes pandas use an implicit index. This is not modelled: that row is skipped like any over-long row.
- The DataFrame of `read_metoffice_file` is modelled on sequences. Its in-place `set_index` and `drop` become the key field and the absence of year and month from `Observation`, and no array is updated in place.
- The station test is stated for every column spacing and every seven-line header without a closure notice. The test's own spacing and header words are one instance of these; the literal header text is not written out.
