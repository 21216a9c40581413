/** The first two scripts (`climate_paper_figs.py` of version 1 and the
    top-level `test.py`): a module-level loop calls `ProcessFile` on every
    name of the data directory, and each call appends one line to an open
    `max_temps.csv` handle. They skip 8 header lines instead of 7, accept
    any `.txt` name, and have no error handling: the first file that fails
    ends the run. */
module LegacyScript {
  import opened Wrappers
  import opened TextUtil
  import opened Sanitizer
  import opened MetOfficeReader
  import opened Station

  /** A line written to `max_temps.csv`: the header `location,max_temp`, or
      `<station name>,<mean tmax>`. */
  datatype OutLine = HeaderLine | ValueLine(location: string, maxTemp: Option<real>)

  /** The outcome of a run: what was written, and the error that ended it
      early, if any. */
  datatype Run = Run(written: seq<OutLine>, failure: Option<ReadError>)

  const TxtSuffix := ".txt"

  /** The module-level `max_temps.csv` handle: the lines written so far. */
  class MaxTempsFile {
    var lines: seq<OutLine>

    /** `open('max_temps.csv', 'wt')` truncates the file. */
    constructor ()
      ensures lines == []
    {
      lines := [];
    }

    /** `write(...)` appends one line. */
    method Write(line: OutLine)
      modifies this
      ensures lines == old(lines) + [line]
    {
      lines := lines + [line];
    }
  }

  /** Every name the glob of the later scripts accepts, these accept too. */
  lemma DataGlobNamesAreTxt(name: string)
    requires EndsWith(name, DataSuffix)
    ensures EndsWith(name, TxtSuffix)
  {
    assert name[|name| - |TxtSuffix|..] == name[|name| - |DataSuffix|..][|DataSuffix| - |TxtSuffix|..];
  }

  /** What one call of `ProcessFile` writes, or the error it raises. */
  function ProcessFileOutput(file: DataFile): (r: Result<seq<OutLine>, ReadError>)
    ensures r.Success? ==> |r.value| <= 1
    ensures r.Success? ==> forall i :: 0 <= i < |r.value| ==> r.value[i].ValueLine?
  {
    if !EndsWith(file.name, TxtSuffix) then Success([])
    else
      match MetOfficeTable(file, LegacyHeaderLines)
      case Failure(e) => Failure(e)
      case Success(table) => Success([ValueLine(StationName(file.name), MeanTmax(table))])
  }

  /** A name that does not end in `.txt` returns before the file is opened,
      so nothing is written and nothing can fail. */
  lemma NonTxtIgnored(name: string, contents: Option<string>)
    requires !EndsWith(name, TxtSuffix)
    ensures ProcessFileOutput(DataFile(name, contents)) == Success([])
  {
  }

  /** A loop without error handling over the listed names, each name's
      step run after those of the names before it: the first failure stops
      it. */
  function RunOf(files: seq<DataFile>, step: DataFile -> Result<seq<OutLine>, ReadError>): Run
  {
    if files == [] then Run([], None)
    else
      var prior := RunOf(files[..|files| - 1], step);
      if prior.failure.Some? then prior
      else
        match step(files[|files| - 1])
        case Failure(e) => Run(prior.written, Some(e))
        case Success(lines) => Run(prior.written + lines, None)
  }

  /** The driver loop over the listed names: a failure stops it, and no
      later name is processed. */
  function LegacyRun(files: seq<DataFile>): (run: Run)
    ensures |run.written| <= |files|
  {
    RunOfAtMostOne(files, ProcessFileOutput);
    RunOf(files, ProcessFileOutput)
  }

  lemma {:induction false} RunOfAtMostOne(files: seq<DataFile>, step: DataFile -> Result<seq<OutLine>, ReadError>)
    requires forall f :: step(f).Success? ==> |step(f).value| <= 1
    ensures |RunOf(files, step).written| <= |files|
    decreases |files|
  {
    if files != [] {
      RunOfAtMostOne(files[..|files| - 1], step);
    }
  }

  /** The whole script: the header line first, then the loop. The header is
      written once, first, and every other line is a value line. */
  function ScriptOutput(files: seq<DataFile>): (run: Run)
    ensures |run.written| >= 1 && run.written[0] == HeaderLine
    ensures forall i :: 1 <= i < |run.written| ==> run.written[i].ValueLine?
  {
    OnlyValueLines(files);
    var run := LegacyRun(files);
    Run([HeaderLine] + run.written, run.failure)
  }

  /** One step of the driver loop, from the run so far. */
  lemma LegacyRunStep(files: seq<DataFile>, k: nat)
    requires k < |files|
    requires LegacyRun(files[..k]).failure.None?
    ensures ProcessFileOutput(files[k]).Failure? ==>
      LegacyRun(files[..k + 1]) == Run(LegacyRun(files[..k]).written, Some(ProcessFileOutput(files[k]).error))
    ensures ProcessFileOutput(files[k]).Success? ==>
      LegacyRun(files[..k + 1]) == Run(LegacyRun(files[..k]).written + ProcessFileOutput(files[k]).value, None)
  {
    assert files[..k + 1][..k] == files[..k];
  }

  /** Once a file has failed, the names after it change nothing. */
  lemma AbortStopsRemaining(a: seq<DataFile>, b: seq<DataFile>)
    requires LegacyRun(a).failure.Some?
    ensures LegacyRun(a + b) == LegacyRun(a)
  {
    RunOfAbort(a, b, ProcessFileOutput);
  }

  lemma {:induction false} RunOfAbort(a: seq<DataFile>, b: seq<DataFile>, step: DataFile -> Result<seq<OutLine>, ReadError>)
    requires RunOf(a, step).failure.Some?
    ensures RunOf(a + b, step) == RunOf(a, step)
    decreases |b|
  {
    if b == [] {
      assert a + b == a;
    } else {
      var c := a + b;
      assert c[..|c| - 1] == a + b[..|b| - 1];
      RunOfAbort(a, b[..|b| - 1], step);
    }
  }

  /** Without a failure, the lines of two stretches of the listing follow
      each other. */
  lemma LegacyRunConcat(a: seq<DataFile>, b: seq<DataFile>)
    requires LegacyRun(a).failure.None?
    ensures LegacyRun(a + b) == Run(LegacyRun(a).written + LegacyRun(b).written, LegacyRun(b).failure)
  {
    RunOfConcat(a, b, ProcessFileOutput);
  }

  lemma {:induction false} RunOfConcat(a: seq<DataFile>, b: seq<DataFile>, step: DataFile -> Result<seq<OutLine>, ReadError>)
    requires RunOf(a, step).failure.None?
    ensures RunOf(a + b, step) == Run(RunOf(a, step).written + RunOf(b, step).written, RunOf(b, step).failure)
    decreases |b|
  {
    var head := RunOf(a, step).written;
    if b == [] {
      assert a + b == a;
      assert head + [] == head;
    } else {
      var c := a + b;
      var init := b[..|b| - 1];
      assert c[..|c| - 1] == a + init;
      var last := b[|b| - 1];
      assert c[|c| - 1] == last;
      RunOfConcat(a, init, step);
      var prior := RunOf(init, step);
      if prior.failure.None? {
        match step(last)
        case Failure(e) =>
          assert RunOf(b, step) == Run(prior.written, Some(e));
          assert RunOf(c, step) == Run(head + prior.written, Some(e));
        case Success(lines) =>
          assert RunOf(b, step) == Run(prior.written + lines, None);
          assert RunOf(c, step) == Run(head + prior.written + lines, None);
          assert head + prior.written + lines == head + (prior.written + lines);
      } else {
        assert RunOf(b, step) == prior;
      }
    }
  }

  /** A failing `.txt` file ends the run right there: what was written
      before stays, and nothing from the files after it is written. */
  lemma FailureEndsRun(before: seq<DataFile>, file: DataFile, after: seq<DataFile>)
    requires LegacyRun(before).failure.None?
    requires EndsWith(file.name, TxtSuffix) && MetOfficeTable(file, LegacyHeaderLines).Failure?
    ensures LegacyRun(before + [file] + after)
         == Run(LegacyRun(before).written, Some(MetOfficeTable(file, LegacyHeaderLines).error))
  {
    var c := before + [file];
    assert c[..|c| - 1] == before;
    assert LegacyRun(c).failure.Some?;
    AbortStopsRemaining(c, after);
  }

  /** A readable `.txt` file adds exactly its own line, after those before
      it. */
  lemma ReadableFileAddsLine(before: seq<DataFile>, file: DataFile)
    requires LegacyRun(before).failure.None?
    requires EndsWith(file.name, TxtSuffix) && MetOfficeTable(file, LegacyHeaderLines).Success?
    ensures LegacyRun(before + [file]) == Run(
      LegacyRun(before).written + [ValueLine(StationName(file.name), MeanTmax(MetOfficeTable(file, LegacyHeaderLines).value))],
      None)
  {
    var c := before + [file];
    assert c[..|c| - 1] == before;
  }

  lemma {:induction false} OnlyValueLines(files: seq<DataFile>)
    ensures forall i :: 0 <= i < |LegacyRun(files).written| ==> LegacyRun(files).written[i].ValueLine?
  {
    if files != [] {
      var init := files[..|files| - 1];
      OnlyValueLines(init);
      var out := ProcessFileOutput(files[|files| - 1]);
      assert RunOf(files, ProcessFileOutput) ==
        if LegacyRun(init).failure.Some? then LegacyRun(init)
        else match out
          case Failure(e) => Run(LegacyRun(init).written, Some(e))
          case Success(lines) => Run(LegacyRun(init).written + lines, None);
    }
  }

  // ---------------------------------------------------------------------
  // The methods

  /** `ProcessFile(filename)`: the sanitising loop, the read with 8 header
      lines skipped, and one line appended to the handle. A read that raises
      writes nothing. */
  method ProcessFile(file: DataFile, out: MaxTempsFile) returns (failure: Option<ReadError>)
    modifies out
    ensures ProcessFileOutput(file).Failure? ==> failure == Some(ProcessFileOutput(file).error) && out.lines == old(out.lines)
    ensures ProcessFileOutput(file).Success? ==> failure == None && out.lines == old(out.lines) + ProcessFileOutput(file).value
  {
    if !EndsWith(file.name, TxtSuffix) {
      return None;
    }
    if file.contents.None? {
      return Some(CannotOpen);
    }
    var cleanedLines := CleanLines(SplitLines(file.contents.value));
    var df := ReadCleanText(JoinLines(cleanedLines), LegacyHeaderLines);
    if df.Failure? {
      return Some(df.error);
    }
    out.Write(ValueLine(StationName(file.name), MeanTmax(df.value)));
    failure := None;
  }

  /** The module-level code: open the handle, write the header, process
      the names in listing order; an exception stops the loop. */
  method RunScript(files: seq<DataFile>) returns (out: MaxTempsFile, failure: Option<ReadError>)
    ensures fresh(out)
    ensures Run(out.lines, failure) == ScriptOutput(files)
  {
    out := new MaxTempsFile();
    out.Write(HeaderLine);
    failure := None;
    var k := 0;
    while k < |files|
      invariant 0 <= k <= |files|
      invariant failure == LegacyRun(files[..k]).failure == None
      invariant out.lines == [HeaderLine] + LegacyRun(files[..k]).written
    {
      LegacyRunStep(files, k);
      failure := ProcessFile(files[k], out);
      if failure.Some? {
        StoppedRun(files, k);
        return;
      }
      k := k + 1;
    }
    assert files[..k] == files;
  }

  /** The loop stops at the first failure, with the outcome of the whole
      listing. */
  lemma StoppedRun(files: seq<DataFile>, k: nat)
    requires k < |files|
    requires LegacyRun(files[..k + 1]).failure.Some?
    ensures LegacyRun(files) == LegacyRun(files[..k + 1])
  {
    AbortStopsRemaining(files[..k + 1], files[k + 1..]);
    assert files[..k + 1] + files[k + 1..] == files;
  }
}
