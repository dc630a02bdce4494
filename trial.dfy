/**
 * One trial file (process_single_file): the data worksheet's rows are reconstructed, the
 * "#" and "Tempo[s]" columns resolved, the metadata read from the file name, the first
 * STOP row located, and every measurement column reduced over the 900 seconds before it.
 */
module TrialExtractor {
  import opened Wrappers
  import opened Sequences
  import opened SparseRow
  import opened CellText
  import opened FilenameParser
  import opened WindowReduction

  /** Reconstructed rows; row 0 is the header. */
  type Table = seq<Row>

  const SheetName := "Dati OJ"
  const HashHeader := "#"
  const TempoHeader := "Tempo[s]"
  /** Column positions of the instrument's export layout, used when a header name is missing. */
  const HashFallback: nat := 23
  const TempoFallback: nat := 25
  const StopMarker := "Impulso esterno STOP"
  /** Length of the trailing window: 15 minutes. */
  const WindowSeconds: real := 900.0

  datatype TrialError =
    | MissingWorksheet            // no worksheet named "Dati OJ"
    | MissingTable                // the worksheet has no table
    | InsufficientRows            // fewer than two rows
    | BadFilename(reason: FilenameError)
    | NoValidStopRow              // no STOP row, or its time cell is missing or empty
    | InvalidStopTime(text: string)  // the STOP row's time cell does not parse

  datatype TrialResult = TrialResult(metadata: TrialMetadata, window: Window,
                                     measurementHeaders: Row, measurements: seq<Option<real>>)

  /** header.index(name), or the fallback position when no header cell is exactly name. */
  function ResolveColumn(header: Row, name: string, fallback: nat): (col: nat)
    ensures Some(name) in header ==> col < |header| && header[col] == Some(name) && Some(name) !in header[..col]
    ensures Some(name) !in header ==> col == fallback
  {
    match FirstIndexOf(header, Some(name))
    case Some(i) => i
    case None => fallback
  }

  function HashColumn(header: Row): nat
  {
    ResolveColumn(header, HashHeader, HashFallback)
  }

  function TempoColumn(header: Row): nat
  {
    ResolveColumn(header, TempoHeader, TempoFallback)
  }

  /** sub occurs in s starting at position i. */
  predicate OccursAt(s: string, sub: string, i: nat)
  {
    i + |sub| <= |s| && s[i..i + |sub|] == sub
  }

  /** Python's `sub in s` on strings. */
  predicate ContainsSubstring(s: string, sub: string)
    decreases |s|
  {
    (|sub| <= |s| && s[..|sub|] == sub) || (|s| > 0 && ContainsSubstring(s[1..], sub))
  }

  lemma {:induction false} ContainsSubstringIff(s: string, sub: string)
    ensures ContainsSubstring(s, sub) <==> exists i: nat :: OccursAt(s, sub, i)
    decreases |s|
  {
    if |sub| <= |s| && s[..|sub|] == sub {
      assert OccursAt(s, sub, 0);
    }
    if |s| > 0 {
      ContainsSubstringIff(s[1..], sub);
      if ContainsSubstring(s[1..], sub) {
        var i: nat :| OccursAt(s[1..], sub, i);
        assert s[i + 1..i + 1 + |sub|] == s[1..][i..i + |sub|];
        assert OccursAt(s, sub, i + 1);
      }
      if exists i: nat :: OccursAt(s, sub, i) {
        var i: nat :| OccursAt(s, sub, i);
        if i > 0 {
          assert s[1..][i - 1..i - 1 + |sub|] == s[i..i + |sub|];
          assert OccursAt(s[1..], sub, i - 1);
        } else {
          assert s[..|sub|] == sub;
        }
      }
    } else if exists i: nat :: OccursAt(s, sub, i) {
      var i: nat :| OccursAt(s, sub, i);
      assert |sub| == 0 && s[..0] == sub;
    }
  }

  /** A STOP row: its "#" cell is filled and contains the STOP marker. */
  predicate IsStopRow(row: Row, hashCol: nat)
  {
    match FilledCell(row, hashCol)
    case None => false
    case Some(text) => ContainsSubstring(text, StopMarker)
  }

  /** The index of the first STOP row, counting the header as row 0. */
  function StopRow(table: Table, hashCol: nat): (r: Option<nat>)
    ensures r.Some? ==> r.value < |table| && IsStopRow(table[r.value], hashCol)
    ensures r.Some? ==> forall j :: 0 <= j < r.value ==> !IsStopRow(table[j], hashCol)
    ensures r.None? ==> forall j :: 0 <= j < |table| ==> !IsStopRow(table[j], hashCol)
  {
    if table == [] then None
    else if IsStopRow(table[0], hashCol) then Some(0)
    else
      match StopRow(table[1..], hashCol)
      case None => None
      case Some(i) => Some(i + 1)
  }

  /** The STOP search: the first STOP row and its time, or why there is none usable. */
  function LocateStop(table: Table, hashCol: nat, tempoCol: nat, parse: NumberParser): (r: Result<(nat, real), TrialError>)
    ensures r.Ok? ==> r.value.0 < |table|
  {
    match StopRow(table, hashCol)
    case None => Err(NoValidStopRow)
    case Some(i) =>
      match FilledCell(table[i], tempoCol)
      case None => Err(NoValidStopRow)
      case Some(text) =>
        match ParseNumber(parse, text)
        case None => Err(InvalidStopTime(text))
        case Some(t) => Ok((i, t))
  }

  /**
   * The search takes the first STOP row, whatever follows it: that row's time cell alone decides
   * the outcome, an empty or missing one and an unparsable one being errors.
   */
  lemma StopRowOutcome(table: Table, hashCol: nat, tempoCol: nat, parse: NumberParser, i: nat)
    requires i < |table| && IsStopRow(table[i], hashCol)
    requires forall j :: 0 <= j < i ==> !IsStopRow(table[j], hashCol)
    ensures FilledCell(table[i], tempoCol).None? ==> LocateStop(table, hashCol, tempoCol, parse) == Err(NoValidStopRow)
    ensures FilledCell(table[i], tempoCol).Some? && RowTime(table[i], tempoCol, parse).None? ==>
              LocateStop(table, hashCol, tempoCol, parse) == Err(InvalidStopTime(table[i][tempoCol].value))
    ensures RowTime(table[i], tempoCol, parse).Some? ==>
              LocateStop(table, hashCol, tempoCol, parse) == Ok((i, RowTime(table[i], tempoCol, parse).value))
  {
  }

  /** Without any STOP row the file fails. */
  lemma NoStopRowFails(table: Table, hashCol: nat, tempoCol: nat, parse: NumberParser)
    requires forall j :: 0 <= j < |table| ==> !IsStopRow(table[j], hashCol)
    ensures LocateStop(table, hashCol, tempoCol, parse) == Err(NoValidStopRow)
  {
  }

  /** The for/break loop that looks for the STOP row and reads its time. */
  method FindStop(table: Table, hashCol: nat, tempoCol: nat, parse: NumberParser) returns (r: Result<(nat, real), TrialError>)
    ensures r == LocateStop(table, hashCol, tempoCol, parse)
  {
    var stopIndex: Option<nat> := None;
    var tStop: Option<real> := None;
    var i := 0;
    while i < |table|
      invariant 0 <= i <= |table|
      invariant stopIndex.None? && tStop.None?
      invariant forall j :: 0 <= j < i ==> !IsStopRow(table[j], hashCol)
    {
      var row := table[i];
      if hashCol < |row| && row[hashCol].Some? && row[hashCol].value != "" {
        if ContainsSubstring(row[hashCol].value, StopMarker) {
          StopRowOutcome(table, hashCol, tempoCol, parse, i);
          stopIndex := Some(i);
          if tempoCol < |row| && row[tempoCol].Some? && row[tempoCol].value != "" {
            tStop := ParseNumber(parse, row[tempoCol].value);
            if tStop.None? {
              return Err(InvalidStopTime(row[tempoCol].value));
            }
          }
          break;
        }
      }
      i := i + 1;
    }
    if stopIndex.None? {
      NoStopRowFails(table, hashCol, tempoCol, parse);
      return Err(NoValidStopRow);
    }
    if tStop.None? {
      return Err(NoValidStopRow);
    }
    return Ok((stopIndex.value, tStop.value));
  }

  /** parsed_rows[1:stop]: the data rows before the STOP row (none when the STOP row is the header). */
  function DataRows(table: Table, stop: nat): (rows: Table)
    requires stop <= |table|
    ensures |rows| == if stop <= 1 then 0 else stop - 1
    ensures forall k :: 0 <= k < |rows| ==> rows[k] == table[k + 1]
  {
    if stop <= 1 then [] else table[1..stop]
  }

  /** header[tempo_col + 1:]: the names of the measurement columns. */
  function MeasurementHeaders(header: Row, tempoCol: nat): (h: Row)
    ensures |h| == Width(|header|, tempoCol)
    ensures forall j :: 0 <= j < |h| ==> h[j] == header[tempoCol + 1 + j]
  {
    if tempoCol + 1 <= |header| then header[tempoCol + 1..] else []
  }

  /** The outcome of reading the file name: trial metadata or why the name was rejected. */
  type NameOutcome = Result<TrialMetadata, FilenameError>

  /**
   * The table-level part of process_single_file, which follows row reconstruction; name is
   * the outcome of parse_filename on the file's name, consulted only once the row count passes.
   */
  function Summarise(table: Table, name: NameOutcome, parse: NumberParser): Result<TrialResult, TrialError>
  {
    if |table| < 2 then Err(InsufficientRows)
    else
      match name
      case Err(e) => Err(BadFilename(e))
      case Ok(metadata) => SummariseRows(table, metadata, parse)
  }

  /** Column lookup, STOP search, window and reduction, once the file name has been read. */
  function SummariseRows(table: Table, metadata: TrialMetadata, parse: NumberParser): Result<TrialResult, TrialError>
    requires |table| >= 1
  {
    var header := table[0];
    var tempoCol := TempoColumn(header);
    match LocateStop(table, HashColumn(header), tempoCol, parse)
    case Err(e) => Err(e)
    case Ok(found) =>
      var w := Window(found.1 - WindowSeconds, found.1);
      Ok(TrialResult(metadata, w, MeasurementHeaders(header, tempoCol),
                     Measurements(|header|, DataRows(table, found.0), tempoCol, w, parse)))
  }

  /**
   * A successful trial carries the metadata of its file name and a window of exactly 900
   * seconds ending at T_stop, and its measurements are aligned one to one with the header
   * columns right of the time column: there are max(0, len(header) - tempo_col - 1) of them.
   */
  lemma TrialShape(table: Table, name: NameOutcome, parse: NumberParser)
    requires Summarise(table, name, parse).Ok?
    ensures var r := Summarise(table, name, parse).value;
            var tempoCol := TempoColumn(table[0]);
            && |table| >= 2
            && name == Ok(r.metadata)
            && r.window.start == r.window.stop - WindowSeconds
            && |r.measurementHeaders| == |r.measurements| == Width(|table[0]|, tempoCol)
            && forall j :: 0 <= j < |r.measurements| ==> r.measurementHeaders[j] == table[0][tempoCol + 1 + j]
  {
    SummariseRowsAtStop(table, name.value, parse);
  }

  /** The checks come in the order of the source: row count, then file name, then the STOP search. */
  lemma TrialErrorOrder(table: Table, name: NameOutcome, parse: NumberParser)
    ensures |table| < 2 ==> Summarise(table, name, parse) == Err(InsufficientRows)
    ensures |table| >= 2 && name.Err? ==> Summarise(table, name, parse) == Err(BadFilename(name.error))
    ensures |table| >= 2 && name.Ok? && LocateStop(table, HashColumn(table[0]), TempoColumn(table[0]), parse).Err? ==>
              Summarise(table, name, parse) == Err(LocateStop(table, HashColumn(table[0]), TempoColumn(table[0]), parse).error)
  {
  }

  /**
   * With the first STOP row at index i and its time t, the window is [t - 900, t] and the
   * measurements reduce the header's columns over the data rows 1 .. i - 1 alone.
   */
  lemma TrialFromStopRow(table: Table, name: NameOutcome, parse: NumberParser, i: nat, t: real)
    requires |table| >= 2 && name.Ok?
    requires i < |table| && IsStopRow(table[i], HashColumn(table[0]))
    requires forall j :: 0 <= j < i ==> !IsStopRow(table[j], HashColumn(table[0]))
    requires RowTime(table[i], TempoColumn(table[0]), parse) == Some(t)
    ensures var r := Summarise(table, name, parse);
            var tempoCol := TempoColumn(table[0]);
            && r.Ok?
            && r.value.window == Window(t - WindowSeconds, t)
            && r.value.measurements == Measurements(|table[0]|, DataRows(table, i), tempoCol, r.value.window, parse)
  {
    assert LocateStop(table, HashColumn(table[0]), TempoColumn(table[0]), parse) == Ok((i, t)) by {
      StopRowOutcome(table, HashColumn(table[0]), TempoColumn(table[0]), parse, i);
    }
    SummariseRowsAtStop(table, name.value, parse);
  }

  /** A table that agrees with another up to and including its first STOP row has that same first STOP row. */
  lemma {:induction false} StopRowOfAgreeingTable(table: Table, other: Table, hashCol: nat, i: nat)
    requires StopRow(table, hashCol) == Some(i)
    requires i < |other| && forall j :: 0 <= j <= i ==> other[j] == table[j]
    ensures StopRow(other, hashCol) == Some(i)
    decreases i
  {
    assert other[0] == table[0];
    if i > 0 {
      assert !IsStopRow(table[0], hashCol);
      assert StopRow(table[1..], hashCol) == Some(i - 1);
      forall j | 0 <= j <= i - 1 ensures other[1..][j] == table[1..][j] {
        assert other[j + 1] == table[j + 1];
      }
      StopRowOfAgreeingTable(table[1..], other[1..], hashCol, i - 1);
    }
  }

  /** The same holds of the whole STOP search, since it reads nothing but the first STOP row. */
  lemma LocateStopOfAgreeingTable(table: Table, other: Table, hashCol: nat, tempoCol: nat, parse: NumberParser, i: nat)
    requires StopRow(table, hashCol) == Some(i)
    requires i < |other| && forall j :: 0 <= j <= i ==> other[j] == table[j]
    ensures LocateStop(other, hashCol, tempoCol, parse) == LocateStop(table, hashCol, tempoCol, parse)
  {
    StopRowOfAgreeingTable(table, other, hashCol, i);
    assert other[i] == table[i];
  }

  /**
   * Rows after the first STOP row never matter, whatever their time or markers: every table
   * that agrees on the rows up to and including that STOP row has the same outcome.
   */
  lemma LaterRowsIgnored(table: Table, other: Table, name: NameOutcome, parse: NumberParser, i: nat)
    requires |table| >= 2 && |other| >= 2
    requires StopRow(table, HashColumn(table[0])) == Some(i)
    requires i < |other| && forall j :: 0 <= j <= i ==> other[j] == table[j]
    ensures Summarise(other, name, parse) == Summarise(table, name, parse)
  {
    if name.Ok? {
      SummariseRowsOfAgreeingTable(table, other, name.value, parse, i);
    }
    SummariseOfEquivalentTables(table, other, name, parse);
  }

  /** Two tables with two rows or more whose table-level results agree give the same outcome under any file name. */
  lemma SummariseOfEquivalentTables(table: Table, other: Table, name: NameOutcome, parse: NumberParser)
    requires |table| >= 2 && |other| >= 2
    requires name.Ok? ==> SummariseRows(other, name.value, parse) == SummariseRows(table, name.value, parse)
    ensures Summarise(other, name, parse) == Summarise(table, name, parse)
  {
  }

  lemma SummariseRowsOfAgreeingTable(table: Table, other: Table, metadata: TrialMetadata, parse: NumberParser, i: nat)
    requires |table| >= 1
    requires StopRow(table, HashColumn(table[0])) == Some(i)
    requires i < |other| && forall j :: 0 <= j <= i ==> other[j] == table[j]
    ensures SummariseRows(other, metadata, parse) == SummariseRows(table, metadata, parse)
  {
    var hashCol, tempoCol := HashColumn(table[0]), TempoColumn(table[0]);
    LocateStopOfAgreeingTable(table, other, hashCol, tempoCol, parse, i);
    LocateStopIndex(table, hashCol, tempoCol, parse, i);
    DataRowsOfAgreeingTable(table, other, i);
    SummariseRowsCongruent(table, other, metadata, parse);
  }

  /** The reduction reads the header, the STOP search's outcome and the data rows before the STOP row, and nothing else. */
  lemma SummariseRowsCongruent(table: Table, other: Table, metadata: TrialMetadata, parse: NumberParser)
    requires |table| >= 1 && |other| >= 1 && other[0] == table[0]
    requires LocateStop(other, HashColumn(table[0]), TempoColumn(table[0]), parse) ==
             LocateStop(table, HashColumn(table[0]), TempoColumn(table[0]), parse)
    requires var found := LocateStop(table, HashColumn(table[0]), TempoColumn(table[0]), parse);
             found.Ok? ==> found.value.0 < |other| && DataRows(other, found.value.0) == DataRows(table, found.value.0)
    ensures SummariseRows(other, metadata, parse) == SummariseRows(table, metadata, parse)
  {
  }

  /** A successful search reports the first STOP row. */
  lemma LocateStopIndex(table: Table, hashCol: nat, tempoCol: nat, parse: NumberParser, i: nat)
    requires StopRow(table, hashCol) == Some(i)
    ensures LocateStop(table, hashCol, tempoCol, parse).Ok? ==> LocateStop(table, hashCol, tempoCol, parse).value.0 == i
  {
  }

  /** Once the STOP search succeeds, the result is the window ending at T_stop and the reduction over it. */
  lemma SummariseRowsAtStop(table: Table, metadata: TrialMetadata, parse: NumberParser)
    requires |table| >= 1 && LocateStop(table, HashColumn(table[0]), TempoColumn(table[0]), parse).Ok?
    ensures var found := LocateStop(table, HashColumn(table[0]), TempoColumn(table[0]), parse).value;
            var tempoCol := TempoColumn(table[0]);
            var w := Window(found.1 - WindowSeconds, found.1);
            SummariseRows(table, metadata, parse) ==
              Ok(TrialResult(metadata, w, MeasurementHeaders(table[0], tempoCol), Measurements(|table[0]|, DataRows(table, found.0), tempoCol, w, parse)))
  {
  }

  lemma DataRowsOfAgreeingTable(table: Table, other: Table, i: nat)
    requires i < |table| && i < |other| && forall j :: 0 <= j <= i ==> other[j] == table[j]
    ensures DataRows(other, i) == DataRows(table, i)
  {
    if i > 1 {
      assert forall k :: 1 <= k < i ==> other[k] == table[k];
    }
  }

  /** The table-level part of process_single_file as statements: checks, column lookup, STOP search, reduction. */
  method ExtractTrial(table: Table, filename: string, parse: NumberParser) returns (r: Result<TrialResult, TrialError>)
    ensures r == Summarise(table, ParseFilename(filename), parse)
  {
    if |table| < 2 {
      return Err(InsufficientRows);
    }
    var metadata := ParseFilename(filename);
    if metadata.Err? {
      return Err(BadFilename(metadata.error));
    }
    r := ExtractRows(table, metadata.value, parse);
  }

  method ExtractRows(table: Table, metadata: TrialMetadata, parse: NumberParser) returns (r: Result<TrialResult, TrialError>)
    requires |table| >= 1
    ensures r == SummariseRows(table, metadata, parse)
  {
    var header := table[0];
    var hashCol := ResolveColumn(header, HashHeader, HashFallback);
    var tempoCol := ResolveColumn(header, TempoHeader, TempoFallback);
    var found := FindStop(table, hashCol, tempoCol, parse);
    if found.Err? {
      return Err(found.error);
    }
    var stop, tStop := found.value.0, found.value.1;
    var tStart := tStop - WindowSeconds;
    var w := Window(tStart, tStop);
    var measurements := ReduceWindow(|header|, DataRows(table, stop), tempoCol, w, parse);
    return Ok(TrialResult(metadata, w, MeasurementHeaders(header, tempoCol), measurements));
  }

  /** One worksheet of the workbook: its name and its tables, each a list of sparse rows. */
  datatype Worksheet = Worksheet(name: string, tables: seq<seq<seq<Cell>>>)

  /** The position of the first worksheet named "Dati OJ", in document order. */
  function FindWorksheet(sheets: seq<Worksheet>): (r: Option<nat>)
    ensures r.Some? ==> r.value < |sheets| && sheets[r.value].name == SheetName
    ensures r.Some? ==> forall k :: 0 <= k < r.value ==> sheets[k].name != SheetName
    ensures r.None? ==> forall k :: 0 <= k < |sheets| ==> sheets[k].name != SheetName
  {
    if sheets == [] then None
    else if sheets[0].name == SheetName then Some(0)
    else
      match FindWorksheet(sheets[1..])
      case None => None
      case Some(k) => Some(k + 1)
  }

  /** [parse_row(r) for r in rows] */
  function ReconstructRows(rows: seq<seq<Cell>>): (table: Table)
    ensures |table| == |rows| && forall k :: 0 <= k < |rows| ==> table[k] == Reconstruct(rows[k])
  {
    seq(|rows|, k requires 0 <= k < |rows| => Reconstruct(rows[k]))
  }

  /** process_single_file on an already parsed workbook: structure checks, then the table-level part. */
  function FileOutcome(sheets: seq<Worksheet>, filename: string, parse: NumberParser): Result<TrialResult, TrialError>
  {
    match FindWorksheet(sheets)
    case None => Err(MissingWorksheet)
    case Some(k) =>
      var sheet := sheets[k];
      if |sheet.tables| == 0 then Err(MissingTable)
      else Summarise(ReconstructRows(sheet.tables[0]), ParseFilename(filename), parse)
  }

  /** FindWorksheet finds exactly the first worksheet with the name. */
  lemma {:induction false} FindWorksheetAt(sheets: seq<Worksheet>, k: nat)
    requires k < |sheets| && sheets[k].name == SheetName
    requires forall j :: 0 <= j < k ==> sheets[j].name != SheetName
    ensures FindWorksheet(sheets) == Some(k)
    decreases k
  {
    if k > 0 {
      FindWorksheetAt(sheets[1..], k - 1);
    }
  }

  /**
   * Only the first worksheet named "Dati OJ" and only its first table matter: without any
   * table the file fails, otherwise its outcome is that table's summary.
   */
  lemma FileOutcomeFromSheet(sheets: seq<Worksheet>, filename: string, parse: NumberParser, k: nat)
    requires k < |sheets| && sheets[k].name == SheetName
    requires forall j :: 0 <= j < k ==> sheets[j].name != SheetName
    ensures |sheets[k].tables| == 0 ==> FileOutcome(sheets, filename, parse) == Err(MissingTable)
    ensures |sheets[k].tables| > 0 ==>
              FileOutcome(sheets, filename, parse) == Summarise(ReconstructRows(sheets[k].tables[0]), ParseFilename(filename), parse)
  {
    FindWorksheetAt(sheets, k);
  }

  /** Without a worksheet named "Dati OJ" the file fails. */
  lemma NoWorksheetFails(sheets: seq<Worksheet>, filename: string, parse: NumberParser)
    requires forall k :: 0 <= k < |sheets| ==> sheets[k].name != SheetName
    ensures FileOutcome(sheets, filename, parse) == Err(MissingWorksheet)
  {
  }

  method ProcessFile(sheets: seq<Worksheet>, filename: string, parse: NumberParser) returns (r: Result<TrialResult, TrialError>)
    ensures r == FileOutcome(sheets, filename, parse)
  {
    var found := FindWorksheet(sheets);
    if found.None? {
      return Err(MissingWorksheet);
    }
    var sheet := sheets[found.value];
    if |sheet.tables| == 0 {
      return Err(MissingTable);
    }
    var rows := sheet.tables[0];
    var parsedRows: Table := [];
    var i := 0;
    while i < |rows|
      invariant 0 <= i <= |rows|
      invariant parsedRows == ReconstructRows(rows[..i])
    {
      var row := ParseRow(rows[i]);
      parsedRows := parsedRows + [row];
      i := i + 1;
    }
    assert rows[..i] == rows;
    r := ExtractTrial(parsedRows, filename, parse);
  }
}
