/** The station test: a file `teststationdata.txt` with a seven-line header
    and five monthly rows whose maximum temperatures are 1.0 to 5.0 and
    whose sunshine is all missing. The header lines may say anything but
    "site closed", and the columns may be aligned with any number of spaces. */
module TestStationScenario {
  import opened Wrappers
  import opened TextUtil
  import opened Sanitizer
  import opened Numbers
  import opened MetOfficeReader
  import opened Station

  /** The characters of the data rows. */
  const RowChars: set<char> := {'0', '1', '2', '3', '4', '5', '6', '7', '8', '9', '.', '-', ' '}

  /** The fields of the five data rows. */
  const TestRows: seq<seq<string>> := [
    ["1964", "9", "1.0", "8.8", "0", "37.4", "---"],
    ["1964", "10", "2.0", "4.2", "5", "77.8", "---"],
    ["1964", "11", "3.0", "4.7", "3", "45.5", "---"],
    ["1964", "12", "4.0", "0.1", "17", "65.1", "---"],
    ["1965", "1", "5.0", "0.8", "14", "74.6", "---"]]

  /** The dates the five rows must be keyed by. */
  const ExpectedDates: seq<Key> := [
    FirstOfMonth(1964, 9), FirstOfMonth(1964, 10), FirstOfMonth(1964, 11), FirstOfMonth(1964, 12), FirstOfMonth(1965, 1)]

  /** What the test relies on: five rows, keyed by their months, maximum
      temperatures 1.0 to 5.0, sunshine all NaN. */
  predicate IsTestTable(t: Table)
  {
    && |t| == |TestRows|
    && forall i :: 0 <= i < |t| ==>
         t[i].date == ExpectedDates[i] && t[i].tmax == Num((i + 1) as real) && t[i].sun == Absent
  }

  /** Column spacing for the five rows: at least one space between fields. */
  predicate Spacing(gaps: seq<seq<nat>>)
  {
    && |gaps| == |TestRows|
    && forall r :: 0 <= r < |gaps| ==>
         |gaps[r]| == |ColumnNames| && forall c :: 0 <= c < |ColumnNames| - 1 ==> gaps[r][c] > 0
  }

  /** Seven header lines, none of them a closure notice. */
  predicate Header(header: seq<string>)
  {
    && |header| == HeaderLines
    && forall i :: 0 <= i < |header| ==> IsLine(header[i], false) && !IsClosureNotice(header[i])
  }

  /** Data row `r` as a line; the file's last line has no '\n', since the
      test strips its text. */
  function DataLine(gaps: seq<seq<nat>>, r: nat): string
    requires Spacing(gaps) && r < |TestRows|
  {
    Layout(TestRows[r], gaps[r]) + (if r < |TestRows| - 1 then "\n" else "")
  }

  function DataLines(gaps: seq<seq<nat>>): (lines: seq<string>)
    requires Spacing(gaps)
    ensures |lines| == |TestRows|
  {
    seq(|TestRows|, r requires 0 <= r < |TestRows| => DataLine(gaps, r))
  }

  function TestFile(header: seq<string>, gaps: seq<seq<nat>>): DataFile
    requires Spacing(gaps)
  {
    DataFile("teststationdata.txt", Some(JoinLines(header + DataLines(gaps))))
  }

  lemma TestRowChars()
    ensures forall r, i, j :: 0 <= r < |TestRows| && 0 <= i < |TestRows[r]| && 0 <= j < |TestRows[r][i]| ==>
      TestRows[r][i][j] in RowChars && TestRows[r][i][j] != ' '
  {
  }

  /** A data row holds only digits, points, minus signs and spaces. */
  lemma RowText(gaps: seq<seq<nat>>, r: nat)
    requires Spacing(gaps) && r < |TestRows|
    ensures Layout(TestRows[r], gaps[r]) != []
    ensures forall k :: 0 <= k < |Layout(TestRows[r], gaps[r])| ==> Layout(TestRows[r], gaps[r])[k] in RowChars
  {
    var ws := TestRows[r];
    TestRowChars();
    LayoutChars(ws, gaps[r], RowChars);
    assert Layout(ws, gaps[r]) == ws[0] + Blanks(gaps[r][0]) + Layout(ws[1..], gaps[r][1..]);
  }

  /** Each data line holds only row characters and, maybe, its '\n'. */
  lemma DataLineChars(gaps: seq<seq<nat>>, r: nat)
    requires Spacing(gaps) && r < |TestRows|
    ensures var line := DataLine(gaps, r); forall k :: 0 <= k < |line| ==> line[k] in RowChars || line[k] == '\n'
  {
    var row := Layout(TestRows[r], gaps[r]);
    var line := DataLine(gaps, r);
    RowText(gaps, r);
    forall k | 0 <= k < |line|
      ensures line[k] in RowChars || line[k] == '\n'
    {
      if k < |row| {
        assert line[k] == row[k];
      }
    }
  }

  /** Each data line is a line of the file, and its text is the laid-out
      row. */
  lemma DataLineShape(gaps: seq<seq<nat>>, r: nat)
    requires Spacing(gaps) && r < |TestRows|
    ensures IsLine(DataLine(gaps, r), r == |TestRows| - 1)
    ensures LineContent(DataLine(gaps, r)) == Layout(TestRows[r], gaps[r])
  {
    var row := Layout(TestRows[r], gaps[r]);
    var line := DataLine(gaps, r);
    RowText(gaps, r);
    assert forall k :: 0 <= k < |row| ==> line[k] == row[k];
    if r < |TestRows| - 1 {
      assert line[..|line| - 1] == row;
    } else {
      assert line == row;
      assert row[|row| - 1] in RowChars;
    }
  }

  /** Each data line is a line of the file and announces no closure. */
  lemma DataLineIsLine(gaps: seq<seq<nat>>, r: nat)
    requires Spacing(gaps) && r < |TestRows|
    ensures IsLine(DataLine(gaps, r), r == |TestRows| - 1)
    ensures !IsClosureNotice(DataLine(gaps, r))
    ensures LineContent(DataLine(gaps, r)) == Layout(TestRows[r], gaps[r])
  {
    DataLineShape(gaps, r);
    DataLineChars(gaps, r);
    NoticeNeedsLetterS(DataLine(gaps, r));
  }

  /** Each data line splits into its seven fields. */
  lemma DataLineFields(gaps: seq<seq<nat>>, r: nat)
    requires Spacing(gaps) && r < |TestRows|
    ensures RowFields(DataLine(gaps, r)) == TestRows[r]
  {
    DataLineShape(gaps, r);
    TestRowWords(r);
    TokensOfLayout(TestRows[r], gaps[r]);
  }

  /** Every field of the test rows is a word: non-empty and blank-free. */
  lemma TestRowWords(r: nat)
    requires r < |TestRows|
    ensures forall i :: 0 <= i < |TestRows[r]| ==> IsWord(TestRows[r][i])
  {
    TestRowChars();
  }

  /** The lines of the test file are well formed and none is a closure
      notice. */
  lemma TestFileLines(header: seq<string>, gaps: seq<seq<nat>>)
    requires Header(header) && Spacing(gaps)
    ensures WellFormedLines(header + DataLines(gaps))
    ensures forall i :: 0 <= i < |header + DataLines(gaps)| ==> !IsClosureNotice((header + DataLines(gaps))[i])
  {
    var lines := header + DataLines(gaps);
    forall i | 0 <= i < |lines|
      ensures IsLine(lines[i], i == |lines| - 1) && !IsClosureNotice(lines[i])
    {
      if i >= |header| {
        DataLineIsLine(gaps, i - |header|);
      }
    }
  }

  /** A row starting with a year and a month in decimal is keyed by that
      month's first day. */
  lemma KeyOfRow(row: seq<string>, year: nat, month: nat)
    requires |row| >= 2 && row[0] == NatText(year) && row[1] == NatText(month)
    requires RepresentableMonth(year, month)
    ensures RowKey(row) == Success(FirstOfMonth(year, month))
  {
    RowKeyOfMonth(year, month, row[2..]);
    assert row == [NatText(year), NatText(month)] + row[2..];
  }

  lemma YearTexts()
    ensures NatText(1964) == "1964" && NatText(1965) == "1965"
  {
  }

  lemma MonthTexts()
    ensures NatText(9) == "9" && NatText(10) == "10" && NatText(11) == "11" && NatText(12) == "12" && NatText(1) == "1"
  {
  }

  /** The year and month fields of every row give the expected key. */
  lemma TestRowKeys()
    ensures forall i :: 0 <= i < |TestRows| ==> RowKey(TestRows[i]) == Success(ExpectedDates[i])
  {
    YearTexts();
    MonthTexts();
    KeyOfRow(TestRows[0], 1964, 9);
    KeyOfRow(TestRows[1], 1964, 10);
    KeyOfRow(TestRows[2], 1964, 11);
    KeyOfRow(TestRows[3], 1964, 12);
    KeyOfRow(TestRows[4], 1965, 1);
  }

  /** Cleaning the test file removes nothing. */
  lemma TestFileClean(header: seq<string>, gaps: seq<seq<nat>>)
    requires Header(header) && Spacing(gaps)
    ensures SplitLines(PreprocessMetOfficeFile(JoinLines(header + DataLines(gaps)))) == header + DataLines(gaps)
  {
    var lines := header + DataLines(gaps);
    TestFileLines(header, gaps);
    JoinLinesSplit(lines);
    SanitizeNoNotice(lines);
  }

  /** All five data lines are kept as rows, with their fields. */
  lemma TestDataRows(gaps: seq<seq<nat>>)
    requires Spacing(gaps)
    ensures DataRows(DataLines(gaps)) == TestRows
  {
    var lines := DataLines(gaps);
    forall r | 0 <= r < |TestRows|
      ensures RowFields(lines[r]) == TestRows[r]
    {
      DataLineFields(gaps, r);
    }
    assert forall r :: 0 <= r < |TestRows| ==> |TestRows[r]| == |ColumnNames|;
    DataRowsOfFields(lines, TestRows);
  }

  /** The rows of the test file, once cleaned and past the header. */
  lemma TestFileRows(header: seq<string>, gaps: seq<seq<nat>>)
    requires Header(header) && Spacing(gaps)
    ensures DataRows(Drop(SplitLines(PreprocessMetOfficeFile(JoinLines(header + DataLines(gaps)))), HeaderLines)) == TestRows
  {
    TestFileClean(header, gaps);
    assert Drop(header + DataLines(gaps), HeaderLines) == DataLines(gaps);
    TestDataRows(gaps);
  }

  /** The maximum temperatures of the rows coerce to 1.0 to 5.0. */
  lemma TestTmaxCells()
    ensures forall i :: 0 <= i < |TestRows| ==> Coerce(TestRows[i][2]) == Num((i + 1) as real)
  {
    var digits := "12345";
    forall i | 0 <= i < |TestRows|
      ensures Coerce(TestRows[i][2]) == Num((i + 1) as real)
    {
      assert TestRows[i][2] == [digits[i]] + ".0";
      CoerceUnitReading(digits[i]);
    }
  }

  /** The sunshine of every row is the missing marker, so NaN. */
  lemma TestSunCells()
    ensures forall i :: 0 <= i < |TestRows| ==> Coerce(TestRows[i][6]) == Absent
  {
    assert forall i :: 0 <= i < |TestRows| ==> TestRows[i][6] == Sentinel;
  }

  /** Reading lines whose data rows have seven fields, are keyed by the
      expected months and carry the expected maximum temperatures and no
      sunshine gives a table of the kind the test expects. */
  lemma ExpectedRowsTable(lines: seq<string>, rows: seq<seq<string>>)
    requires DataRows(Drop(lines, HeaderLines)) == rows && |rows| == |TestRows|
    requires forall i :: 0 <= i < |rows| ==>
      && |rows[i]| == |ColumnNames|
      && RowKey(rows[i]) == Success(ExpectedDates[i])
      && Coerce(rows[i][2]) == Num((i + 1) as real)
      && Coerce(rows[i][6]) == Absent
    ensures ReadLines(lines, HeaderLines).Success?
    ensures IsTestTable(ReadLines(lines, HeaderLines).value)
  {
    assert AssembleDates(rows).Success?;
    ReadLinesRows(lines, HeaderLines);
    var t := ReadLines(lines, HeaderLines).value;
    forall i | 0 <= i < |t|
      ensures t[i].date == ExpectedDates[i] && t[i].tmax == Num((i + 1) as real) && t[i].sun == Absent
    {
      assert t[i].date == RowKey(rows[i]).value;
    }
  }

  /** Reading lines whose data rows are the test rows gives the table the
      test expects. */
  lemma TestRowsTable(lines: seq<string>)
    requires DataRows(Drop(lines, HeaderLines)) == TestRows
    ensures ReadLines(lines, HeaderLines).Success?
    ensures IsTestTable(ReadLines(lines, HeaderLines).value)
  {
    TestRowKeys();
    TestTmaxCells();
    TestSunCells();
    ExpectedRowsTable(lines, TestRows);
  }

  /** Reading the test file with the seven-line header skip gives the
      table the test expects: the header is dropped and the five rows make
      the table. */
  lemma TestFileTable(header: seq<string>, gaps: seq<seq<nat>>)
    requires Header(header) && Spacing(gaps)
    ensures MetOfficeTable(TestFile(header, gaps), HeaderLines).Success?
    ensures IsTestTable(MetOfficeTable(TestFile(header, gaps), HeaderLines).value)
  {
    TestFileRows(header, gaps);
    TestRowsTable(SplitLines(PreprocessMetOfficeFile(JoinLines(header + DataLines(gaps)))));
  }

  /** The station the test builds is called "teststation". */
  lemma TestStationName()
    ensures StationName("teststationdata.txt") == "teststation"
  {
    var stem := "teststation";
    assert forall k :: 0 <= k < |stem| ==> stem[k] != DataSuffix[0];
    MissingFirstChar(stem, DataSuffix);
    StationNameOfDataFile(stem);
    assert stem + DataSuffix == "teststationdata.txt";
  }

  /** The mean maximum temperature of the table the test reads is 3.0. */
  lemma TestTableMean(t: Table)
    requires IsTestTable(t)
    ensures MeanTmax(t) == Some(3.0)
  {
    PresentTmaxAllPresent(t);
    assert PresentTmax(t) == [1.0, 2.0, 3.0, 4.0, 5.0];
    MeanOfOneToFive();
  }

  /** `test_met_office_historic_station_data`: building the station from
      the test file succeeds, with the expected name and mean. */
  method TestMetOfficeHistoricStationData(header: seq<string>, gaps: seq<seq<nat>>)
    returns (station: MetOfficeHistoricStationData)
    requires Header(header) && Spacing(gaps)
    ensures station.stationName == "teststation"
    ensures IsTestTable(station.stationData)
    ensures station.MeanMaximumTemperature() == Some(3.0)
  {
    TestFileTable(header, gaps);
    TestStationName();
    TestTableMean(MetOfficeTable(TestFile(header, gaps), HeaderLines).value);
    var r := NewStationData(TestFile(header, gaps));
    station := r.value;
  }

  /** `test_get_station_name` */
  lemma GetStationNameExample()
    ensures StationName("someplacedata.txt") == "someplace"
  {
    var stem := "someplace";
    assert forall k :: 0 <= k < |stem| ==> stem[k] != DataSuffix[0];
    MissingFirstChar(stem, DataSuffix);
    StationNameOfDataFile(stem);
    assert stem + DataSuffix == "someplacedata.txt";
  }
}
