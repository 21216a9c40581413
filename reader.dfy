/** `read_metoffice_file`: the cleaned text of a station file becomes a table
    of monthly observations indexed by the first day of each month. The
    pandas calls the source makes are modelled by the rules it relies on:
    `skiprows`, the whitespace separator, `names`, `na_values`,
    `on_bad_lines`, `to_datetime` over year and month, and `to_numeric`
    with `errors='coerce'`. */
module MetOfficeReader {
  import opened Wrappers
  import opened TextUtil
  import opened Sanitizer
  import opened Numbers

  const ColumnNames: seq<string> := ["year", "month", "tmax", "tmin", "frost_days", "rain_mm", "sun"]

  /** Metadata lines before the first monthly row, as the current reader
      skips them. */
  const HeaderLines: nat := 7

  /** The same count in the first two scripts. */
  const LegacyHeaderLines: nat := 8

  /** The index of a row: the first day of its month, or NaT for a row too
      short to have a month. */
  datatype Key = FirstOfMonth(year: int, month: int) | NaT

  /** One row of the table: the `date` index, then the measurement columns
      `tmax, tmin, frost_days, rain_mm, sun` in that order. */
  datatype Observation = Observation(date: Key, tmax: Cell, tmin: Cell, frostDays: Cell, rainMm: Cell, sun: Cell)

  type Table = seq<Observation>

  /** What makes a read raise. */
  datatype ReadError = CannotOpen | CannotAssembleDates(year: string, month: string)

  /** A discovered station file: its name, and its text unless opening it
      fails. */
  datatype DataFile = DataFile(name: string, contents: Option<string>)

  // ---------------------------------------------------------------------
  // pd.read_csv

  /** `skiprows=n`: the first `n` lines are discarded, and what is left is
      the rest of the file as it stands. */
  function Drop(lines: seq<string>, n: nat): (rest: seq<string>)
    ensures |rest| == if n <= |lines| then |lines| - n else 0
    ensures rest == lines[|lines| - |rest|..]
  {
    if n <= |lines| then lines[n..] else []
  }

  /** The whitespace-separated fields of one line. */
  function RowFields(line: string): seq<string>
  {
    Tokens(LineContent(line))
  }

  /** The rows the reader keeps, as their fields: a blank line is skipped,
      and so is a row with more fields than there are column names. Shorter
      rows are kept. */
  function DataRows(lines: seq<string>): (rows: seq<seq<string>>)
    ensures |rows| <= |lines|
    ensures forall i :: 0 <= i < |rows| ==> 0 < |rows[i]| <= |ColumnNames|
  {
    if lines == [] then []
    else
      var fields := RowFields(lines[0]);
      (if 0 < |fields| <= |ColumnNames| then [fields] else []) + DataRows(lines[1..])
  }

  /** Rows are read line by line: the rows of two stretches of text are
      the rows of each, in order. */
  lemma {:induction false} DataRowsConcat(a: seq<string>, b: seq<string>)
    ensures DataRows(a + b) == DataRows(a) + DataRows(b)
  {
    if a == [] {
      assert a + b == b;
    } else {
      assert (a + b)[1..] == a[1..] + b;
      DataRowsConcat(a[1..], b);
    }
  }

  /** A row with more fields than column names, such as a monthly row
      followed by a "Provisional" marker, is skipped without disturbing
      its neighbours or failing the read. */
  lemma OverlongRowSkipped(before: seq<string>, line: string, after: seq<string>)
    requires |RowFields(line)| > |ColumnNames|
    ensures DataRows(before + [line] + after) == DataRows(before + after)
  {
    DataRowsConcat(before + [line], after);
    DataRowsConcat(before, [line]);
    DataRowsConcat(before, after);
  }

  /** A row with exactly one field per column name is kept, in place. */
  lemma FullRowKept(before: seq<string>, line: string, after: seq<string>)
    requires |RowFields(line)| == |ColumnNames|
    ensures DataRows(before + [line] + after) == DataRows(before) + [RowFields(line)] + DataRows(after)
  {
    DataRowsConcat(before + [line], after);
    DataRowsConcat(before, [line]);
    assert [line][1..] == [];
    assert DataRows([line]) == [RowFields(line)];
  }

  /** When no line is blank or over-long, every line is a row. */
  lemma {:induction false} DataRowsAllKept(lines: seq<string>)
    requires forall i :: 0 <= i < |lines| ==> 0 < |RowFields(lines[i])| <= |ColumnNames|
    ensures DataRows(lines) == seq(|lines|, i requires 0 <= i < |lines| => RowFields(lines[i]))
  {
    if lines != [] {
      var tail := lines[1..];
      assert forall i :: 0 <= i < |tail| ==> tail[i] == lines[i + 1];
      DataRowsAllKept(tail);
      var all := seq(|lines|, i requires 0 <= i < |lines| => RowFields(lines[i]));
      var rest := seq(|tail|, i requires 0 <= i < |tail| => RowFields(tail[i]));
      assert all == [RowFields(lines[0])] + rest;
      assert DataRows(lines) == [RowFields(lines[0])] + DataRows(tail);
    }
  }

  /** The field in `column`, or None where a short row was padded. */
  function Field(row: seq<string>, column: nat): Option<string>
  {
    if column < |row| then Some(row[column]) else None
  }

  /** A measurement cell as the reader leaves it: None (NaN) where the row
      was padded or held the missing-value marker. */
  function RawMeasurement(row: seq<string>, column: nat): Option<string>
  {
    match Field(row, column)
    case None => None
    case Some(t) => MissingAsNaN(t)
  }

  // ---------------------------------------------------------------------
  // pd.to_datetime(df[['year', 'month']].assign(day=1))

  /** pandas keeps dates as signed 64-bit nanoseconds from 1970: the first
      days of month it can hold run from 1677-10-01 to 2262-04-01. */
  predicate RepresentableMonth(year: int, month: int)
  {
    && 1 <= month <= 12
    && (year > 1677 || (year == 1677 && month >= 10))
    && (year < 2262 || (year == 2262 && month <= 4))
  }

  /** The date of one row. A year or month that is not an integer, a month
      outside 1 to 12, or a date pandas cannot hold makes the conversion
      raise; a row padded before its month gets NaT. Every dated key is the
      first day of the month written in the row, and pandas can hold it. */
  function RowKey(row: seq<string>): (r: Result<Key, ReadError>)
    ensures r.Failure? ==> row != [] && r.error.CannotAssembleDates?
    ensures r.Success? && r.value.NaT? ==> |row| < 2
    ensures r.Success? && r.value.FirstOfMonth? ==>
      && |row| >= 2
      && RepresentableMonth(r.value.year, r.value.month)
      && ParseInt(row[0]) == Some(r.value.year)
      && ParseInt(row[1]) == Some(r.value.month)
  {
    match (Field(row, 0), Field(row, 1))
    case (Some(ys), Some(ms)) =>
      (match (ParseInt(ys), ParseInt(ms))
       case (Some(y), Some(m)) =>
         if RepresentableMonth(y, m) then Success(FirstOfMonth(y, m)) else Failure(CannotAssembleDates(ys, ms))
       case _ => Failure(CannotAssembleDates(ys, ms)))
    case (Some(ys), None) =>
      if ParseInt(ys).Some? then Success(NaT) else Failure(CannotAssembleDates(ys, ""))
    case (None, _) => Success(NaT)
  }

  /** Writing a representable year and month in decimal and reading the row
      back gives the first day of that month. */
  lemma RowKeyOfMonth(year: nat, month: nat, rest: seq<string>)
    requires RepresentableMonth(year, month)
    ensures RowKey([NatText(year), NatText(month)] + rest) == Success(FirstOfMonth(year, month))
  {
    ParseNatText(year);
    ParseNatText(month);
    var row := [NatText(year), NatText(month)] + rest;
    assert Field(row, 0) == Some(NatText(year));
    assert Field(row, 1) == Some(NatText(month));
  }

  /** The date column of all rows; the first bad row makes it raise. */
  function AssembleDates(rows: seq<seq<string>>): (r: Result<seq<Key>, ReadError>)
    ensures r.Success? <==> forall i :: 0 <= i < |rows| ==> RowKey(rows[i]).Success?
    ensures r.Failure? ==> r.error.CannotAssembleDates?
    ensures r.Success? ==> |r.value| == |rows| && forall i :: 0 <= i < |rows| ==> r.value[i] == RowKey(rows[i]).value
  {
    if rows == [] then Success([])
    else
      match RowKey(rows[0])
      case Failure(e) => Failure(e)
      case Success(k) =>
        match AssembleDates(rows[1..])
        case Failure(e) => Failure(e)
        case Success(ks) => Success([k] + ks)
  }

  /** Lines whose fields are known rows, none blank or over-long, read as
      exactly those rows. */
  lemma {:induction false} DataRowsOfFields(lines: seq<string>, rows: seq<seq<string>>)
    requires |lines| == |rows|
    requires forall i :: 0 <= i < |rows| ==> RowFields(lines[i]) == rows[i] && 0 < |rows[i]| <= |ColumnNames|
    ensures DataRows(lines) == rows
  {
    DataRowsAllKept(lines);
    var all := seq(|lines|, i requires 0 <= i < |lines| => RowFields(lines[i]));
    assert forall i :: 0 <= i < |all| ==> all[i] == rows[i];
  }

  // ---------------------------------------------------------------------
  // The table

  /** One row after indexing by date and coercing its five measurements. */
  function ObservationOf(row: seq<string>, key: Key): Observation
  {
    Observation(
      key,
      ToNumeric(RawMeasurement(row, 2)),
      ToNumeric(RawMeasurement(row, 3)),
      ToNumeric(RawMeasurement(row, 4)),
      ToNumeric(RawMeasurement(row, 5)),
      ToNumeric(RawMeasurement(row, 6)))
  }

  /** The table read from cleaned lines, skipping `skip` header lines. Only
      the dates can make it raise, and it has at most one row per line after
      the header. */
  function ReadLines(lines: seq<string>, skip: nat): (r: Result<Table, ReadError>)
    ensures r.Failure? ==> r.error.CannotAssembleDates?
    ensures r.Success? ==> |r.value| <= |Drop(lines, skip)|
  {
    var rows := DataRows(Drop(lines, skip));
    match AssembleDates(rows)
    case Failure(e) => Failure(e)
    case Success(keys) => Success(TableOf(rows, keys))
  }

  /** The rows indexed by their keys, measurements coerced. */
  function TableOf(rows: seq<seq<string>>, keys: seq<Key>): (t: Table)
    requires |keys| == |rows|
    ensures |t| == |rows|
  {
    seq(|rows|, i requires 0 <= i < |rows| => ObservationOf(rows[i], keys[i]))
  }

  /** `read_metoffice_file(data_file)` with `skip` header lines: open and
      clean the file, then read the table. It fails to open exactly when the
      file cannot be opened, and has at most one row per line of the file. */
  function MetOfficeTable(file: DataFile, skip: nat): (r: Result<Table, ReadError>)
    ensures r == Failure(CannotOpen) <==> file.contents.None?
    ensures r.Success? ==> |r.value| <= |SplitLines(file.contents.value)|
  {
    match file.contents
    case None => Failure(CannotOpen)
    case Some(text) => ReadLines(SplitLines(PreprocessMetOfficeFile(text)), skip)
  }

  /** The table has one observation per kept row, in file order: its key
      is that row's date and each measurement is the row's field through
      `na_values` and coercion, NaN where the row was padded. */
  lemma ReadLinesRows(lines: seq<string>, skip: nat)
    requires ReadLines(lines, skip).Success?
    ensures var rows := DataRows(Drop(lines, skip)); var t := ReadLines(lines, skip).value;
      && |t| == |rows|
      && forall i :: 0 <= i < |rows| ==>
        && t[i].date == RowKey(rows[i]).value
        && t[i].tmax == (if |rows[i]| > 2 then Coerce(rows[i][2]) else Absent)
        && t[i].tmin == (if |rows[i]| > 3 then Coerce(rows[i][3]) else Absent)
        && t[i].frostDays == (if |rows[i]| > 4 then Coerce(rows[i][4]) else Absent)
        && t[i].rainMm == (if |rows[i]| > 5 then Coerce(rows[i][5]) else Absent)
        && t[i].sun == (if |rows[i]| > 6 then Coerce(rows[i][6]) else Absent)
  {
  }

  /** A read raises exactly when some kept row has a date pandas cannot
      assemble; a malformed measurement never makes it raise. */
  lemma ReadLinesFails(lines: seq<string>, skip: nat)
    ensures ReadLines(lines, skip).Failure? <==>
      exists i :: 0 <= i < |DataRows(Drop(lines, skip))| && RowKey(DataRows(Drop(lines, skip))[i]).Failure?
  {
    var rows := DataRows(Drop(lines, skip));
    assert ReadLines(lines, skip).Failure? <==> AssembleDates(rows).Failure?;
  }

  /** The header is skipped after cleaning: a closure notice anywhere in
      the file, even among the header lines, changes nothing in the table. */
  lemma NoticeDoesNotShiftHeader(name: string, before: seq<string>, notice: string, after: seq<string>, skip: nat)
    requires IsClosureNotice(notice)
    requires WellFormedLines(before + [notice] + after) && WellFormedLines(before + after)
    ensures MetOfficeTable(DataFile(name, Some(JoinLines(before + [notice] + after))), skip)
         == MetOfficeTable(DataFile(name, Some(JoinLines(before + after))), skip)
  {
    JoinLinesSplit(before + [notice] + after);
    JoinLinesSplit(before + after);
    SanitizeDropsNotice(before, notice, after);
  }

  /** With a header of exactly `skip` lines and no closure notice in it, the
      reader starts at the first line after the header. */
  lemma HeaderSkipped(header: seq<string>, body: seq<string>)
    requires forall i :: 0 <= i < |header| ==> !IsClosureNotice(header[i])
    ensures Drop(SanitizeLines(header + body), |header|) == SanitizeLines(body)
  {
    SanitizeConcat(header, body);
    SanitizeNoNotice(header);
  }

  // ---------------------------------------------------------------------
  // The method

  /** The raw measurement columns the reader produces, `tmax` first. */
  function RawColumns(rows: seq<seq<string>>): (raw: seq<seq<Option<string>>>)
    ensures |raw| == 5
    ensures forall c :: 0 <= c < 5 ==> |raw[c]| == |rows|
  {
    seq(5, c requires 0 <= c < 5 => seq(|rows|, i requires 0 <= i < |rows| => RawMeasurement(rows[i], c + 2)))
  }

  /** The coercion loop over the five measurement columns: each column in
      turn is replaced by its coercion. */
  method CoerceColumns(raw: seq<seq<Option<string>>>) returns (columns: seq<seq<Cell>>)
    ensures |columns| == |raw|
    ensures forall c :: 0 <= c < |raw| ==> |columns[c]| == |raw[c]|
    ensures forall c, i :: 0 <= c < |raw| && 0 <= i < |raw[c]| ==> columns[c][i] == ToNumeric(raw[c][i])
  {
    var numeric: seq<seq<Cell>> := [];
    for c := 0 to |raw|
      invariant |numeric| == c
      invariant forall j :: 0 <= j < c ==> |numeric[j]| == |raw[j]|
      invariant forall j, i :: 0 <= j < c && 0 <= i < |raw[j]| ==> numeric[j][i] == ToNumeric(raw[j][i])
    {
      numeric := numeric + [seq(|raw[c]|, i requires 0 <= i < |raw[c]| => ToNumeric(raw[c][i]))];
    }
    columns := numeric;
  }

  /** The frame as a sequence of rows: the index beside the five coerced
      columns. */
  function JoinColumns(index: seq<Key>, columns: seq<seq<Cell>>): (t: Table)
    requires |columns| == 5
    requires forall c :: 0 <= c < 5 ==> |columns[c]| == |index|
    ensures |t| == |index|
  {
    seq(|index|, i requires 0 <= i < |index| =>
      Observation(index[i], columns[0][i], columns[1][i], columns[2][i], columns[3][i], columns[4][i]))
  }

  /** Coercing the raw columns one at a time gives the same table as
      coercing each row. */
  lemma ColumnsMakeTable(rows: seq<seq<string>>, index: seq<Key>, columns: seq<seq<Cell>>)
    requires |index| == |rows| && |columns| == 5
    requires forall c :: 0 <= c < 5 ==> |columns[c]| == |rows|
    requires forall c, i :: 0 <= c < 5 && 0 <= i < |rows| ==> columns[c][i] == ToNumeric(RawColumns(rows)[c][i])
    ensures JoinColumns(index, columns) == TableOf(rows, index)
  {
    var raw := RawColumns(rows);
    forall i | 0 <= i < |rows|
      ensures JoinColumns(index, columns)[i] == TableOf(rows, index)[i]
    {
      assert columns[0][i] == ToNumeric(raw[0][i]) == ToNumeric(RawMeasurement(rows[i], 2));
      assert columns[1][i] == ToNumeric(raw[1][i]) == ToNumeric(RawMeasurement(rows[i], 3));
      assert columns[2][i] == ToNumeric(raw[2][i]) == ToNumeric(RawMeasurement(rows[i], 4));
      assert columns[3][i] == ToNumeric(raw[3][i]) == ToNumeric(RawMeasurement(rows[i], 5));
      assert columns[4][i] == ToNumeric(raw[4][i]) == ToNumeric(RawMeasurement(rows[i], 6));
    }
  }

  /** The pandas half of `read_metoffice_file`, with the DataFrame as local
      state: read the raw columns, build the date index in place of year
      and month, then coerce the measurement columns. */
  method ReadCleanText(clean: string, skip: nat) returns (r: Result<Table, ReadError>)
    ensures r == ReadLines(SplitLines(clean), skip)
  {
    var rows := DataRows(Drop(SplitLines(clean), skip));
    var raw := RawColumns(rows);
    var dates := AssembleDates(rows);
    if dates.Failure? {
      return Failure(dates.error);
    }
    var index := dates.value;
    var columns := CoerceColumns(raw);
    r := Success(JoinColumns(index, columns));
    ColumnsMakeTable(rows, index, columns);
  }

  /** `read_metoffice_file(data_file)`, skipping `skip` header lines. */
  method ReadMetOfficeFile(file: DataFile, skip: nat) returns (r: Result<Table, ReadError>)
    ensures r == MetOfficeTable(file, skip)
  {
    if file.contents.None? {
      return Failure(CannotOpen);
    }
    var clean := PreprocessMetOfficeFile(file.contents.value);
    r := ReadCleanText(clean, skip);
  }
}
