/** A station: its name, taken from the data file name, its monthly table,
    and the mean of its maximum temperatures (`get_station_name`,
    `calculate_mean_maximum_temperature` and the class
    `MetOfficeHistoricStationData`). */
module Station {
  import opened Wrappers
  import opened TextUtil
  import opened Numbers
  import opened MetOfficeReader

  /** The part of a data file name that is not the station's name. */
  const DataSuffix := "data.txt"

  // ---------------------------------------------------------------------
  // get_station_name

  /** `name.replace("data.txt", "")`: every occurrence is removed, not only
      a trailing one. */
  function StationName(fileName: string): (name: string)
    ensures |name| <= |fileName|
  {
    ReplaceAll(fileName, DataSuffix, "")
  }

  /** No proper prefix of "data.txt" is also a suffix of it. */
  lemma DataSuffixUnbordered()
    ensures Unbordered(DataSuffix)
  {
    forall k | 0 < k < |DataSuffix|
      ensures DataSuffix[..k] != DataSuffix[|DataSuffix| - k..]
    {
      assert DataSuffix[..k][0] == 'd';
      assert DataSuffix[|DataSuffix| - k..][0] == DataSuffix[|DataSuffix| - k];
    }
  }

  /** The usual case: a station's file is its name followed by "data.txt",
      and the name is given back. */
  lemma StationNameOfDataFile(stem: string)
    requires !Contains(stem, DataSuffix)
    ensures StationName(stem + DataSuffix) == stem
  {
    DataSuffixUnbordered();
    ReplaceAllFirstOccurrence(stem, DataSuffix, "", []);
    assert stem + DataSuffix + [] == stem + DataSuffix;
    assert stem + "" + [] == stem;
  }

  /** A name without "data.txt" anywhere in it is the station name as is. */
  lemma StationNameWithoutSuffix(fileName: string)
    requires !Contains(fileName, DataSuffix)
    ensures StationName(fileName) == fileName
  {
  }

  /** Removal is not limited to the end of the name: both occurrences in
      "data.txtdata.txt" go. */
  lemma StationNameRemovesRepeatedSuffix()
    ensures StationName("data.txtdata.txt") == ""
  {
    DataSuffixUnbordered();
    assert !Contains([], DataSuffix);
    ReplaceAllFirstOccurrence([], DataSuffix, "", DataSuffix);
    assert [] + DataSuffix + DataSuffix == "data.txtdata.txt";
    StationNameOfDataFile([]);
  }

  /** An inner occurrence is removed too, so the name of
      "datadata.txt.txt" still ends in "data.txt". */
  lemma StationNameRemovesInnerOccurrence()
    ensures StationName("datadata.txt.txt") == "data.txt"
  {
    DataSuffixUnbordered();
    var stem, rest := "data", ".txt";
    assert |stem| < |DataSuffix| && |rest| < |DataSuffix|;
    ReplaceAllFirstOccurrence(stem, DataSuffix, "", rest);
    assert ReplaceAll(rest, DataSuffix, "") == rest;
    assert stem + DataSuffix + rest == "datadata.txt.txt";
    assert stem + "" + rest == "data.txt";
  }

  // ---------------------------------------------------------------------
  // The mean of tmax

  /** The present (non-NaN) `tmax` values, in row order: none exactly when
      every row's `tmax` is missing. */
  function PresentTmax(table: Table): (xs: seq<real>)
    ensures |xs| <= |table|
    ensures xs == [] <==> forall i :: 0 <= i < |table| ==> table[i].tmax == Absent
  {
    if table == [] then []
    else
      assert forall i :: 0 < i < |table| ==> table[i] == table[1..][i - 1];
      (if table[0].tmax.Num? then [table[0].tmax.value] else []) + PresentTmax(table[1..])
  }

  function Sum(xs: seq<real>): real
  {
    if xs == [] then 0.0 else xs[0] + Sum(xs[1..])
  }

  /** The arithmetic mean, None for no values. */
  function Mean(xs: seq<real>): (m: Option<real>)
    ensures m.None? <==> xs == []
  {
    if xs == [] then None else Some(Sum(xs) / |xs| as real)
  }

  /** `station_data['tmax'].mean()`: NaN cells are skipped, and the mean
      of no values is NaN (None), so the mean is NaN exactly when every
      maximum temperature is missing. */
  function MeanTmax(table: Table): (m: Option<real>)
    ensures m.None? <==> forall i :: 0 <= i < |table| ==> table[i].tmax == Absent
  {
    Mean(PresentTmax(table))
  }

  lemma {:induction false} PresentTmaxConcat(a: Table, b: Table)
    ensures PresentTmax(a + b) == PresentTmax(a) + PresentTmax(b)
  {
    if a == [] {
      assert a + b == b;
    } else {
      var c := a + b;
      var head := if a[0].tmax.Num? then [a[0].tmax.value] else [];
      assert c[0] == a[0];
      assert c[1..] == a[1..] + b;
      PresentTmaxConcat(a[1..], b);
      assert PresentTmax(c) == head + (PresentTmax(a[1..]) + PresentTmax(b));
      assert PresentTmax(a) == head + PresentTmax(a[1..]);
    }
  }

  /** The values taken are exactly the present ones: a value is listed iff
      some row holds it. */
  lemma {:induction false} PresentTmaxValues(table: Table)
    ensures forall x :: x in PresentTmax(table) <==> exists i :: 0 <= i < |table| && table[i].tmax == Num(x)
  {
    if table != [] {
      PresentTmaxValues(table[1..]);
      forall x | (exists i :: 0 <= i < |table[1..]| && table[1..][i].tmax == Num(x))
        ensures exists i :: 0 <= i < |table| && table[i].tmax == Num(x)
      {
        var i :| 0 <= i < |table[1..]| && table[1..][i].tmax == Num(x);
        assert table[i + 1].tmax == Num(x);
      }
      forall x | (exists i :: 0 <= i < |table| && table[i].tmax == Num(x))
        ensures x in PresentTmax(table)
      {
        var i :| 0 <= i < |table| && table[i].tmax == Num(x);
        if i > 0 {
          assert table[1..][i - 1].tmax == Num(x);
        }
      }
    }
  }

  /** When every row has a maximum temperature, they are all taken, in
      order. */
  lemma {:induction false} PresentTmaxAllPresent(table: Table)
    requires forall i :: 0 <= i < |table| ==> table[i].tmax.Num?
    ensures PresentTmax(table) == seq(|table|, i requires 0 <= i < |table| => table[i].tmax.value)
  {
    if table != [] {
      PresentTmaxAllPresent(table[1..]);
    }
  }

  /** A row whose maximum temperature is NaN does not move the mean. */
  lemma MeanTmaxIgnoresAbsent(before: Table, row: Observation, after: Table)
    requires row.tmax == Absent
    ensures MeanTmax(before + [row] + after) == MeanTmax(before + after)
  {
    PresentTmaxConcat(before + [row], after);
    PresentTmaxConcat(before, [row]);
    PresentTmaxConcat(before, after);
    assert [row][1..] == [];
    assert PresentTmax([row]) == [];
    assert PresentTmax(before) + [] == PresentTmax(before);
  }

  lemma {:induction false} SumBounds(xs: seq<real>, lo: real, hi: real)
    requires forall i :: 0 <= i < |xs| ==> lo <= xs[i] <= hi
    ensures lo * |xs| as real <= Sum(xs) <= hi * |xs| as real
  {
    if xs != [] {
      SumBounds(xs[1..], lo, hi);
    }
  }

  /** The mean lies between any lower and upper bound of the values. */
  lemma MeanBounds(xs: seq<real>, lo: real, hi: real)
    requires xs != []
    requires forall i :: 0 <= i < |xs| ==> lo <= xs[i] <= hi
    ensures lo <= Mean(xs).value <= hi
  {
    SumBounds(xs, lo, hi);
    QuotientBounds(Sum(xs), |xs| as real, lo, hi);
  }

  lemma QuotientBounds(s: real, n: real, lo: real, hi: real)
    requires n > 0.0 && lo * n <= s <= hi * n
    ensures lo <= s / n <= hi
  {
    var m := s / n;
    assert m * n == s;
    assert (m - lo) * n == s - lo * n;
    assert (hi - m) * n == hi * n - s;
  }

  /** The mean maximum temperature lies between the lowest and the highest
      maximum temperature present in the table. */
  lemma MeanTmaxBounds(table: Table, lo: real, hi: real)
    requires MeanTmax(table).Some?
    requires forall i :: 0 <= i < |table| && table[i].tmax.Num? ==> lo <= table[i].tmax.value <= hi
    ensures lo <= MeanTmax(table).value <= hi
  {
    var xs := PresentTmax(table);
    PresentTmaxValues(table);
    forall k | 0 <= k < |xs|
      ensures lo <= xs[k] <= hi
    {
      assert xs[k] in xs;
    }
    MeanBounds(xs, lo, hi);
  }

  /** The test data: readings 1.0 to 5.0 have mean 3.0. */
  lemma MeanOfOneToFive()
    ensures Mean([1.0, 2.0, 3.0, 4.0, 5.0]) == Some(3.0)
  {
    var xs := [1.0, 2.0, 3.0, 4.0, 5.0];
    assert xs[1..] == [2.0, 3.0, 4.0, 5.0];
    assert xs[1..][1..] == [3.0, 4.0, 5.0];
    assert xs[1..][1..][1..] == [4.0, 5.0];
    assert xs[1..][1..][1..][1..] == [5.0];
    assert Sum(xs) == 15.0;
  }

  // ---------------------------------------------------------------------
  // The class

  /** Historic station data from one Met Office file. Its fields are set
      once, when it is built, and never reassigned. */
  class MetOfficeHistoricStationData {
    const dataFile: DataFile
    const stationData: Table
    const stationName: string

    /** The field assignments of `__init__`, once the read has succeeded:
        the table first, then the name. */
    constructor (dataFile: DataFile, stationData: Table)
      ensures this.dataFile == dataFile
      ensures this.stationData == stationData
      ensures this.stationName == StationName(dataFile.name)
    {
      this.dataFile := dataFile;
      this.stationData := stationData;
      this.stationName := StationName(dataFile.name);
    }

    /** `mean_maximum_temperature()` */
    function MeanMaximumTemperature(): (m: Option<real>)
      ensures m.None? <==> forall i :: 0 <= i < |stationData| ==> stationData[i].tmax == Absent
    {
      MeanTmax(stationData)
    }

    /** `__repr__()` */
    function Repr(): (s: string)
      ensures |s| == |ReprPrefix| + |stationName|
      ensures s[..|ReprPrefix|] == ReprPrefix && s[|ReprPrefix|..] == stationName
    {
      ReprPrefix + stationName
    }
  }

  const ReprPrefix := "MetOfficeHistoricStationData for "

  /** The text of a station names its station and nothing else: two
      stations print alike exactly when their names are equal. */
  lemma ReprIdentifiesStation(a: MetOfficeHistoricStationData, b: MetOfficeHistoricStationData)
    ensures a.Repr() == b.Repr() <==> a.stationName == b.stationName
  {
    if a.Repr() == b.Repr() {
      assert a.stationName == a.Repr()[|ReprPrefix|..];
      assert b.stationName == b.Repr()[|ReprPrefix|..];
    }
  }

  /** `MetOfficeHistoricStationData(data_file)`: the file is read first, and
      a read that raises leaves no station behind; otherwise the station
      holds the table and the name of the file. */
  method NewStationData(file: DataFile) returns (r: Result<MetOfficeHistoricStationData, ReadError>)
    ensures r.Failure? <==> MetOfficeTable(file, HeaderLines).Failure?
    ensures r.Failure? ==> r.error == MetOfficeTable(file, HeaderLines).error
    ensures r.Success? ==> && fresh(r.value)
                           && r.value.dataFile == file
                           && r.value.stationData == MetOfficeTable(file, HeaderLines).value
                           && r.value.stationName == StationName(file.name)
  {
    var stationData := ReadMetOfficeFile(file, HeaderLines);
    if stationData.Failure? {
      return Failure(stationData.error);
    }
    var station := new MetOfficeHistoricStationData(file, stationData.value);
    return Success(station);
  }
}
