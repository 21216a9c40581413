/** The batch loop of `plot_climate_paper_figs_and_csv`, in its function
    version and its class version: every `*data.txt` file of the data
    directory is read, a file whose read raises is skipped, and every other
    file adds one `location,max_temp` row, in discovery order. The rows are
    handed to the CSV writer once, after the loop. */
module Aggregator {
  import opened Wrappers
  import opened TextUtil
  import opened MetOfficeReader
  import opened Station

  /** One row of the report. */
  datatype SummaryRow = SummaryRow(location: string, maxTemp: Option<real>)

  /** The CSV file as records: the header, then one record per row. */
  datatype CsvRecord = HeaderRecord(fields: seq<string>) | RowRecord(row: SummaryRow)

  /** The field names of the report, in column order. */
  const ReportFields: seq<string> := ["location", "max_temp"]

  /** `data_dir.glob("*data.txt")`: the name is some stem followed by
      "data.txt". */
  predicate MatchesDataGlob(name: string)
    ensures MatchesDataGlob(name) <==> exists stem :: name == stem + DataSuffix
  {
    EndsWith(name, DataSuffix)
  }

  /** The rows one directory entry adds: none unless it matches the pattern
      and reads; otherwise its station name and mean maximum temperature. */
  function SummaryOf(file: DataFile): (rows: seq<SummaryRow>)
    ensures |rows| <= 1
  {
    if !MatchesDataGlob(file.name) then []
    else
      match MetOfficeTable(file, HeaderLines)
      case Failure(_) => []
      case Success(table) => [SummaryRow(StationName(file.name), MeanTmax(table))]
  }

  /** The rows the entries of a listing add, each entry's after those of
      the entries before it. */
  function RowsInOrder(files: seq<DataFile>, rowsOf: DataFile -> seq<SummaryRow>): seq<SummaryRow>
  {
    if files == [] then []
    else RowsInOrder(files[..|files| - 1], rowsOf) + rowsOf(files[|files| - 1])
  }

  /** The rows of a whole directory listing, in order: at most one per
      entry. */
  function Summaries(files: seq<DataFile>): (rows: seq<SummaryRow>)
    ensures |rows| <= |files|
  {
    RowsInOrderAtMostOne(files, SummaryOf);
    RowsInOrder(files, SummaryOf)
  }

  /** When every entry adds at most one row, a listing has no more rows
      than entries. */
  lemma {:induction false} RowsInOrderAtMostOne(files: seq<DataFile>, rowsOf: DataFile -> seq<SummaryRow>)
    requires forall f :: |rowsOf(f)| <= 1
    ensures |RowsInOrder(files, rowsOf)| <= |files|
    decreases |files|
  {
    if files != [] {
      RowsInOrderAtMostOne(files[..|files| - 1], rowsOf);
    }
  }

  /** `write_max_temps_csv_file`: the header with the report's field names,
      then the rows in the order given. */
  function MaxTempsCsv(rows: seq<SummaryRow>): (csv: seq<CsvRecord>)
    ensures |csv| == |rows| + 1
    ensures csv[0] == HeaderRecord(ReportFields)
    ensures forall i :: 0 <= i < |rows| ==> csv[i + 1] == RowRecord(rows[i])
  {
    [HeaderRecord(ReportFields)] + seq(|rows|, i requires 0 <= i < |rows| => RowRecord(rows[i]))
  }

  // ---------------------------------------------------------------------
  // Properties of the report

  lemma {:induction false} RowsInOrderConcat(a: seq<DataFile>, b: seq<DataFile>, rowsOf: DataFile -> seq<SummaryRow>)
    ensures RowsInOrder(a + b, rowsOf) == RowsInOrder(a, rowsOf) + RowsInOrder(b, rowsOf)
    decreases |b|
  {
    if b == [] {
      assert a + b == a;
    } else {
      var c := a + b;
      var init := b[..|b| - 1];
      assert c[..|c| - 1] == a + init;
      var last := b[|b| - 1];
      assert c[|c| - 1] == last;
      RowsInOrderConcat(a, init, rowsOf);
      assert RowsInOrder(c, rowsOf) == RowsInOrder(a + init, rowsOf) + rowsOf(last);
      assert RowsInOrder(b, rowsOf) == RowsInOrder(init, rowsOf) + rowsOf(last);
    }
  }

  lemma SummariesConcat(a: seq<DataFile>, b: seq<DataFile>)
    ensures Summaries(a + b) == Summaries(a) + Summaries(b)
  {
    RowsInOrderConcat(a, b, SummaryOf);
  }

  lemma SummariesSingle(file: DataFile)
    ensures Summaries([file]) == SummaryOf(file)
  {
    assert [file][..0] == [];
    assert RowsInOrder([file], SummaryOf) == RowsInOrder([], SummaryOf) + SummaryOf(file);
  }

  /** A file whose read raises is skipped, and the files after it are
      still processed. */
  lemma FailingFileSkipped(before: seq<DataFile>, file: DataFile, after: seq<DataFile>)
    requires MetOfficeTable(file, HeaderLines).Failure?
    ensures Summaries(before + [file] + after) == Summaries(before) + Summaries(after)
  {
    SummariesConcat(before + [file], after);
    SummariesConcat(before, [file]);
    SummariesSingle(file);
    assert SummaryOf(file) == [];
    assert Summaries(before) + [] == Summaries(before);
  }

  /** A directory entry that does not match `*data.txt` is never read. */
  lemma NonMatchingFileIgnored(before: seq<DataFile>, file: DataFile, after: seq<DataFile>)
    requires !MatchesDataGlob(file.name)
    ensures Summaries(before + [file] + after) == Summaries(before) + Summaries(after)
  {
    SummariesConcat(before + [file], after);
    SummariesConcat(before, [file]);
    SummariesSingle(file);
    assert SummaryOf(file) == [];
    assert Summaries(before) + [] == Summaries(before);
  }

  /** A matching file that reads adds exactly one row, its own, in its
      place. */
  lemma ReadableFileAddsRow(before: seq<DataFile>, file: DataFile, after: seq<DataFile>)
    requires MatchesDataGlob(file.name) && MetOfficeTable(file, HeaderLines).Success?
    ensures Summaries(before + [file] + after)
         == Summaries(before)
          + [SummaryRow(StationName(file.name), MeanTmax(MetOfficeTable(file, HeaderLines).value))]
          + Summaries(after)
  {
    SummariesConcat(before + [file], after);
    SummariesConcat(before, [file]);
    SummariesSingle(file);
  }

  /** Every row comes from a matching, readable file of the listing. */
  lemma {:induction false} RowsComeFromReadableFiles(files: seq<DataFile>)
    ensures forall r :: r in Summaries(files) ==>
      exists f :: (f in files && MatchesDataGlob(f.name) && MetOfficeTable(f, HeaderLines).Success?
        && r == SummaryRow(StationName(f.name), MeanTmax(MetOfficeTable(f, HeaderLines).value)))
  {
    if files != [] {
      var init := files[..|files| - 1];
      var last := files[|files| - 1];
      RowsComeFromReadableFiles(init);
      forall r | r in Summaries(files)
        ensures exists f :: (f in files && MatchesDataGlob(f.name) && MetOfficeTable(f, HeaderLines).Success?
          && r == SummaryRow(StationName(f.name), MeanTmax(MetOfficeTable(f, HeaderLines).value)))
      {
        if r in Summaries(init) {
          var f :| f in init && MatchesDataGlob(f.name) && MetOfficeTable(f, HeaderLines).Success?
            && r == SummaryRow(StationName(f.name), MeanTmax(MetOfficeTable(f, HeaderLines).value));
          assert f in files;
        } else {
          assert r in SummaryOf(last);
          assert last in files;
        }
      }
    }
  }

  /** Every matching, readable file of the listing has its row. */
  lemma {:induction false} ReadableFilesHaveRows(files: seq<DataFile>)
    ensures forall f :: f in files && MatchesDataGlob(f.name) && MetOfficeTable(f, HeaderLines).Success? ==>
      SummaryRow(StationName(f.name), MeanTmax(MetOfficeTable(f, HeaderLines).value)) in Summaries(files)
  {
    if files != [] {
      var init := files[..|files| - 1];
      var last := files[|files| - 1];
      ReadableFilesHaveRows(init);
      assert files == init + [last];
    }
  }

  /** When every entry matches and reads, there is one row per file. */
  lemma {:induction false} AllReadableAllReported(files: seq<DataFile>)
    requires forall i :: 0 <= i < |files| ==> MatchesDataGlob(files[i].name) && MetOfficeTable(files[i], HeaderLines).Success?
    ensures |Summaries(files)| == |files|
  {
    if files != [] {
      var init := files[..|files| - 1];
      assert forall i :: 0 <= i < |init| ==> init[i] == files[i];
      AllReadableAllReported(init);
    }
  }

  // ---------------------------------------------------------------------
  // The loops

  /** One step of both loops: the rows so far, then those of the next
      entry. */
  lemma SummariesStep(files: seq<DataFile>, k: nat)
    requires k < |files|
    ensures Summaries(files[..k + 1]) == Summaries(files[..k]) + SummaryOf(files[k])
  {
    assert files[..k + 1][..k] == files[..k];
  }

  /** `plot_climate_paper_figs_and_csv` of the function version over the
      directory listing `entries`, without the plots. */
  method PlotClimatePaperFigsAndCsv(entries: seq<DataFile>) returns (csv: seq<CsvRecord>)
    ensures csv == MaxTempsCsv(Summaries(entries))
  {
    var meanMaxTemps: seq<SummaryRow> := [];
    for k := 0 to |entries|
      invariant meanMaxTemps == Summaries(entries[..k])
    {
      SummariesStep(entries, k);
      var dataFile := entries[k];
      if !MatchesDataGlob(dataFile.name) {
        continue;
      }
      var stationData := ReadMetOfficeFile(dataFile, HeaderLines);
      if stationData.Failure? {
        continue;
      }
      var stationName := StationName(dataFile.name);
      var maxMeanTemp := MeanTmax(stationData.value);
      meanMaxTemps := meanMaxTemps + [SummaryRow(stationName, maxMeanTemp)];
    }
    assert entries[..|entries|] == entries;
    csv := MaxTempsCsv(meanMaxTemps);
  }

  /** The class version: only construction is guarded, and the row is read
      off the station object. It reports the same rows. */
  method PlotClimatePaperFigsAndCsvClassy(entries: seq<DataFile>) returns (csv: seq<CsvRecord>)
    ensures csv == MaxTempsCsv(Summaries(entries))
  {
    var meanMaxTemps: seq<SummaryRow> := [];
    for k := 0 to |entries|
      invariant meanMaxTemps == Summaries(entries[..k])
    {
      SummariesStep(entries, k);
      var dataFile := entries[k];
      if !MatchesDataGlob(dataFile.name) {
        continue;
      }
      var metOfficeData := NewStationData(dataFile);
      if metOfficeData.Failure? {
        continue;
      }
      var station := metOfficeData.value;
      meanMaxTemps := meanMaxTemps + [SummaryRow(station.stationName, station.MeanMaximumTemperature())];
    }
    assert entries[..|entries|] == entries;
    csv := MaxTempsCsv(meanMaxTemps);
  }
}
