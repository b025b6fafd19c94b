/**
  * Extraction of one generation report (`parse_csv`): the report's timestamp
  * from the header, the rows of the fixed generation window, and one record
  * per usable row with its fuel subtype.
  *
  * The report is given already split into rows of cells; the conversion of a
  * cell to a number (Python's `float`) is the parameter `toFloat`, which gives
  * `None` where `float` raises.
  */
module AesoReport {
  import opened Wrappers
  import opened Text
  import opened Timestamps

  /** The index of the header row that carries the timestamp. */
  const TimestampRow: nat := 4
  /** The generation rows are the slice `reader[28:32]`. */
  const WindowStart: nat := 28
  const WindowStop: nat := 32
  /** Rows with fewer cells are skipped. */
  const MinCells: nat := 6

  datatype SubType = Fossil | Renewable | Storage | Biomass | Interchange | Unknown

  /** One extracted row: the keys Timestamp, Type, Subtype, MC, TNG and DCR. */
  datatype Record = Record(timestamp: DateTime, fuelType: string, subType: SubType,
                           mc: real, tng: real, dcr: real)

  /** `float(cell)` raised `ValueError` for the given row index and column. */
  datatype ParseError = NotANumber(row: nat, column: nat, cell: string)

  /** The subtype chain, exact and case-sensitive on the stripped label. */
  function Classify(fuelType: string): SubType {
    if fuelType == "Gas" || fuelType == "Coal" || fuelType == "Dual Fuel" then Fossil
    else if fuelType == "Solar" || fuelType == "Wind" || fuelType == "Hydro" then Renewable
    else if fuelType == "Energy Storage" then Storage
    else if fuelType == "Other" then Biomass
    else if Contains(fuelType, "Interchange") then Interchange
    else Unknown
  }

  /** The classification written as a lookup table, the reference for `Classify`. */
  const KnownLabels: map<string, SubType> :=
    map["Gas" := Fossil, "Coal" := Fossil, "Dual Fuel" := Fossil,
        "Solar" := Renewable, "Wind" := Renewable, "Hydro" := Renewable,
        "Energy Storage" := Storage, "Other" := Biomass]

  /** The if/elif chain agrees with the table, with the substring fallback. */
  lemma ClassifyByTable(fuelType: string)
    ensures Classify(fuelType) ==
      if fuelType in KnownLabels then KnownLabels[fuelType]
      else if Contains(fuelType, "Interchange") then Interchange
      else Unknown
  {
  }

  /** Matching is exact and case-sensitive: only "Gas" itself is Fossil. */
  lemma ClassifyIsCaseSensitive()
    ensures Classify("GAS") == Unknown && Classify("gas") == Unknown && Classify("Gas") == Fossil
  {
  }

  /** A label holding "Interchange" anywhere, with any qualifier before or after it, is an interchange. */
  lemma ClassifyInterchangeAnywhere(pre: string, post: string)
    ensures Classify(pre + "Interchange" + post) == Interchange
  {
    var s := pre + "Interchange" + post;
    assert s[|pre|..|pre| + 11] == "Interchange";
    OccursContains(s, "Interchange", |pre|);
    ClassifyContainsInterchange(s);
  }

  /** No label of the table holds "Interchange", so holding it decides the subtype. */
  lemma ClassifyContainsInterchange(fuelType: string)
    requires Contains(fuelType, "Interchange")
    ensures Classify(fuelType) == Interchange
  {
    AbsentFirstChar("Energy Storage", "Interchange");
  }

  /** The slice bounds Python computes for `reader[28:32]`. */
  function WindowLo(reader: seq<seq<string>>): nat {
    if |reader| < WindowStart then |reader| else WindowStart
  }

  function WindowHi(reader: seq<seq<string>>): (hi: nat)
    ensures WindowLo(reader) <= hi <= |reader| && hi <= WindowStop
  {
    if |reader| < WindowStop then |reader| else WindowStop
  }

  /** The report's timestamp, read from the first cell of row 4 after the marker. */
  function ReportTimestamp(reader: seq<seq<string>>): Option<DateTime> {
    if |reader| <= TimestampRow || reader[TimestampRow] == [] then None
    else
      match SplitAfter(reader[TimestampRow][0], LastUpdateMarker)
      case None => None
      case Some(text) => ParseDateTime(Strip(text))
  }

  /**
    * A report has a timestamp exactly when row 4 and its first cell exist,
    * the cell holds the marker and the stripped text after it parses; the
    * timestamp is then a valid date and time.
    */
  lemma ReportTimestampSpec(reader: seq<seq<string>>)
    ensures ReportTimestamp(reader).Some? <==>
      |reader| > TimestampRow && reader[TimestampRow] != []
      && Contains(reader[TimestampRow][0], LastUpdateMarker)
      && ParseDateTime(Strip(SplitAfter(reader[TimestampRow][0], LastUpdateMarker).value)).Some?
    ensures ReportTimestamp(reader).Some? ==> Valid(ReportTimestamp(reader).value)
  {
    if |reader| > TimestampRow && reader[TimestampRow] != [] {
      SplitAfterSpec(reader[TimestampRow][0], LastUpdateMarker);
    }
  }

  /** Without a timestamp `parse_csv` returns no records at all. */
  lemma NoTimestampNoRecords(reader: seq<seq<string>>, toFloat: string -> Option<real>)
    requires |reader| <= TimestampRow || reader[TimestampRow] == []
      || !Contains(reader[TimestampRow][0], LastUpdateMarker)
      || ParseDateTime(Strip(SplitAfter(reader[TimestampRow][0], LastUpdateMarker).value)).None?
    ensures ParseReport(reader, toFloat) == Success([])
  {
    ReportTimestampSpec(reader);
  }

  /** Row `i` (with at least six cells) converted to a record, or the first failing `float`. */
  function ConvertRow(ts: DateTime, row: seq<string>, i: nat, toFloat: string -> Option<real>)
    : Result<Record, ParseError>
    requires |row| >= MinCells
  {
    var fuelType := Strip(row[0]);
    match toFloat(row[1])
    case None => Failure(NotANumber(i, 1, row[1]))
    case Some(mc) =>
      match toFloat(row[2])
      case None => Failure(NotANumber(i, 2, row[2]))
      case Some(tng) =>
        match toFloat(row[5])
        case None => Failure(NotANumber(i, 5, row[5]))
        case Some(dcr) => Success(Record(ts, fuelType, Classify(fuelType), mc, tng, dcr))
  }

  /** `rows` followed by the records of `rest`, unless `rest` raised. */
  function Prepend(rows: seq<Record>, rest: Result<seq<Record>, ParseError>): Result<seq<Record>, ParseError> {
    match rest
    case Success(more) => Success(rows + more)
    case Failure(e) => Failure(e)
  }

  /** The records of window rows `i` onward, stopping at the first `float` that raises. */
  function ExtractFrom(reader: seq<seq<string>>, ts: DateTime, toFloat: string -> Option<real>, i: nat)
    : Result<seq<Record>, ParseError>
    requires i <= WindowHi(reader)
    decreases WindowHi(reader) - i
  {
    if i == WindowHi(reader) then Success([])
    else if |reader[i]| < MinCells then ExtractFrom(reader, ts, toFloat, i + 1)
    else
      match ConvertRow(ts, reader[i], i, toFloat)
      case Failure(e) => Failure(e)
      case Success(r) => Prepend([r], ExtractFrom(reader, ts, toFloat, i + 1))
  }

  /** What `parse_csv` returns (`Success`) or raises (`Failure`) for a report. */
  function ParseReport(reader: seq<seq<string>>, toFloat: string -> Option<real>)
    : Result<seq<Record>, ParseError>
  {
    match ReportTimestamp(reader)
    case None => Success([])
    case Some(ts) => ExtractFrom(reader, ts, toFloat, WindowLo(reader))
  }

  /** One step of `ExtractFrom` seen from the records gathered so far. */
  lemma ExtractFromStep(reader: seq<seq<string>>, ts: DateTime, toFloat: string -> Option<real>,
                        i: nat, rows: seq<Record>)
    requires i < WindowHi(reader)
    ensures |reader[i]| < MinCells ==>
      Prepend(rows, ExtractFrom(reader, ts, toFloat, i)) == Prepend(rows, ExtractFrom(reader, ts, toFloat, i + 1))
    ensures |reader[i]| >= MinCells && ConvertRow(ts, reader[i], i, toFloat).Failure? ==>
      Prepend(rows, ExtractFrom(reader, ts, toFloat, i)) == Failure(ConvertRow(ts, reader[i], i, toFloat).error)
    ensures |reader[i]| >= MinCells && ConvertRow(ts, reader[i], i, toFloat).Success? ==>
      Prepend(rows, ExtractFrom(reader, ts, toFloat, i))
      == Prepend(rows + [ConvertRow(ts, reader[i], i, toFloat).value], ExtractFrom(reader, ts, toFloat, i + 1))
  {
    if |reader[i]| >= MinCells && ConvertRow(ts, reader[i], i, toFloat).Success? {
      var r := ConvertRow(ts, reader[i], i, toFloat).value;
      match ExtractFrom(reader, ts, toFloat, i + 1)
      case Success(more) => assert rows + ([r] + more) == (rows + [r]) + more;
      case Failure(_) =>
    }
  }

  /** The loop of `parse_csv` over `reader[28:32]`, appending one record per usable row. */
  method ExtractRecords(reader: seq<seq<string>>, ts: DateTime, toFloat: string -> Option<real>)
    returns (result: Result<seq<Record>, ParseError>)
    ensures result == ExtractFrom(reader, ts, toFloat, WindowLo(reader))
  {
    var lo, hi := WindowLo(reader), WindowHi(reader);
    var rows: seq<Record> := [];
    var i := lo;
    assert Prepend(rows, ExtractFrom(reader, ts, toFloat, i)) == ExtractFrom(reader, ts, toFloat, lo) by {
      match ExtractFrom(reader, ts, toFloat, lo)
      case Success(more) => assert rows + more == more;
      case Failure(_) =>
    }
    while i < hi
      invariant lo <= i <= hi
      invariant Prepend(rows, ExtractFrom(reader, ts, toFloat, i)) == ExtractFrom(reader, ts, toFloat, lo)
    {
      ExtractFromStep(reader, ts, toFloat, i, rows);
      var row := reader[i];
      if |row| >= MinCells {
        var converted := ConvertRow(ts, row, i, toFloat);
        if converted.Failure? {
          return Failure(converted.error);
        }
        rows := rows + [converted.value];
      }
      i := i + 1;
    }
    assert rows + [] == rows;
    return Success(rows);
  }

  /** `parse_csv`: no records without a timestamp, else the records of the window rows. */
  method ParseCsv(reader: seq<seq<string>>, toFloat: string -> Option<real>)
    returns (result: Result<seq<Record>, ParseError>)
    ensures result == ParseReport(reader, toFloat)
  {
    var parsed := ReportTimestamp(reader);
    if parsed.None? {
      return Success([]);
    }
    result := ExtractRecords(reader, parsed.value, toFloat);
  }

  /** The indices of the window rows at or after `i` with at least six cells, in order. */
  function UsableFrom(reader: seq<seq<string>>, i: nat): seq<nat>
    requires i <= WindowHi(reader)
    decreases WindowHi(reader) - i
  {
    if i == WindowHi(reader) then []
    else if |reader[i]| < MinCells then UsableFrom(reader, i + 1)
    else [i] + UsableFrom(reader, i + 1)
  }

  /** The indices of the rows of `reader[28:32]` that `parse_csv` does not skip. */
  function UsableRows(reader: seq<seq<string>>): seq<nat> {
    UsableFrom(reader, WindowLo(reader))
  }

  /** `q` lists, in increasing order, exactly the indices in `[lo, hi)` of rows with at least six cells. */
  predicate ListsUsable(reader: seq<seq<string>>, q: seq<nat>, lo: nat, hi: nat)
    requires hi <= |reader|
  {
    |q| <= hi - lo
    && (forall k :: 0 <= k < |q| ==> lo <= q[k] < hi && |reader[q[k]]| >= MinCells)
    && (forall k1, k2 :: 0 <= k1 < k2 < |q| ==> q[k1] < q[k2])
    && (forall j :: lo <= j < hi && |reader[j]| >= MinCells ==> j in q)
  }

  /** Row `i` in front of a listing of `[i + 1, hi)`: skipped when short, else listed first. */
  lemma ListsUsableStep(reader: seq<seq<string>>, q: seq<nat>, i: nat, hi: nat)
    requires i < hi <= |reader| && ListsUsable(reader, q, i + 1, hi)
    ensures |reader[i]| < MinCells ==> ListsUsable(reader, q, i, hi)
    ensures |reader[i]| >= MinCells ==> ListsUsable(reader, [i] + q, i, hi)
  {
    if |reader[i]| >= MinCells {
      var q1 := [i] + q;
      assert forall k :: 0 < k < |q1| ==> q1[k] == q[k - 1];
      assert q1[0] == i;
      forall j | i <= j < hi && |reader[j]| >= MinCells ensures j in q1 {
        if j > i { assert j in q; }
      }
    }
  }

  lemma {:induction false} UsableFromLists(reader: seq<seq<string>>, i: nat)
    requires i <= WindowHi(reader)
    ensures ListsUsable(reader, UsableFrom(reader, i), i, WindowHi(reader))
    decreases WindowHi(reader) - i
  {
    if i < WindowHi(reader) {
      UsableFromLists(reader, i + 1);
      ListsUsableStep(reader, UsableFrom(reader, i + 1), i, WindowHi(reader));
    }
  }

  /**
    * The rows `parse_csv` turns into records: at most four, all inside
    * `reader[28:32]`, in increasing order, and every row there with at
    * least six cells.
    */
  lemma UsableRowsExact(reader: seq<seq<string>>)
    ensures ListsUsable(reader, UsableRows(reader), WindowLo(reader), WindowHi(reader))
    ensures |UsableRows(reader)| <= 4
    ensures forall k :: 0 <= k < |UsableRows(reader)| ==>
      WindowStart <= UsableRows(reader)[k] < WindowStop
  {
    UsableFromLists(reader, WindowLo(reader));
  }

  /** Row `row` has at least six cells and every `float` it needs succeeds. */
  predicate Converts(row: seq<string>, toFloat: string -> Option<real>) {
    |row| >= MinCells && toFloat(row[1]).Some? && toFloat(row[2]).Some? && toFloat(row[5]).Some?
  }

  /** Every row listed in `q` converts. */
  predicate AllConvert(reader: seq<seq<string>>, q: seq<nat>, toFloat: string -> Option<real>) {
    forall k :: 0 <= k < |q| ==> q[k] < |reader| && Converts(reader[q[k]], toFloat)
  }

  /** `rec` is the record of `row`: its timestamp, stripped label, subtype and the three numbers. */
  predicate Describes(rec: Record, row: seq<string>, ts: DateTime, toFloat: string -> Option<real>) {
    |row| >= MinCells
    && rec.timestamp == ts
    && rec.fuelType == Strip(row[0])
    && rec.subType == Classify(rec.fuelType)
    && toFloat(row[1]) == Some(rec.mc)
    && toFloat(row[2]) == Some(rec.tng)
    && toFloat(row[5]) == Some(rec.dcr)
  }

  /** `recs` are, one for one and in order, the records of the rows listed in `q`. */
  predicate AllDescribe(recs: seq<Record>, reader: seq<seq<string>>, q: seq<nat>, ts: DateTime,
                        toFloat: string -> Option<real>) {
    |recs| == |q| && forall k :: 0 <= k < |q| ==> q[k] < |reader| && Describes(recs[k], reader[q[k]], ts, toFloat)
  }

  lemma AllConvertCons(reader: seq<seq<string>>, i: nat, q: seq<nat>, toFloat: string -> Option<real>)
    ensures AllConvert(reader, [i] + q, toFloat) <==>
      i < |reader| && Converts(reader[i], toFloat) && AllConvert(reader, q, toFloat)
  {
    var q1 := [i] + q;
    if i < |reader| && Converts(reader[i], toFloat) && AllConvert(reader, q, toFloat) {
      forall k | 0 <= k < |q1| ensures q1[k] < |reader| && Converts(reader[q1[k]], toFloat) {
        if k > 0 { assert q1[k] == q[k - 1]; }
      }
    }
    if AllConvert(reader, q1, toFloat) {
      assert q1[0] == i;
      forall k | 0 <= k < |q| ensures q[k] < |reader| && Converts(reader[q[k]], toFloat) {
        assert q[k] == q1[k + 1];
      }
    }
  }

  lemma AllDescribeCons(r: Record, recs: seq<Record>, reader: seq<seq<string>>, i: nat, q: seq<nat>,
                        ts: DateTime, toFloat: string -> Option<real>)
    requires i < |reader| && Describes(r, reader[i], ts, toFloat)
    requires AllDescribe(recs, reader, q, ts, toFloat)
    ensures AllDescribe([r] + recs, reader, [i] + q, ts, toFloat)
  {
    var q1, recs1 := [i] + q, [r] + recs;
    forall k | 0 <= k < |q1| ensures q1[k] < |reader| && Describes(recs1[k], reader[q1[k]], ts, toFloat) {
      if k > 0 { assert q1[k] == q[k - 1] && recs1[k] == recs[k - 1]; }
    }
  }

  lemma {:induction false} ExtractFromSucceeds(reader: seq<seq<string>>, ts: DateTime,
                                               toFloat: string -> Option<real>, i: nat)
    requires i <= WindowHi(reader)
    ensures ExtractFrom(reader, ts, toFloat, i).Success? <==> AllConvert(reader, UsableFrom(reader, i), toFloat)
    decreases WindowHi(reader) - i
  {
    if i < WindowHi(reader) {
      ExtractFromSucceeds(reader, ts, toFloat, i + 1);
      if |reader[i]| >= MinCells {
        AllConvertCons(reader, i, UsableFrom(reader, i + 1), toFloat);
      }
    }
  }

  lemma {:induction false} ExtractFromRecords(reader: seq<seq<string>>, ts: DateTime,
                                              toFloat: string -> Option<real>, i: nat)
    requires i <= WindowHi(reader)
    requires ExtractFrom(reader, ts, toFloat, i).Success?
    ensures AllDescribe(ExtractFrom(reader, ts, toFloat, i).value, reader, UsableFrom(reader, i), ts, toFloat)
    decreases WindowHi(reader) - i
  {
    if i < WindowHi(reader) {
      ExtractFromRecords(reader, ts, toFloat, i + 1);
      if |reader[i]| >= MinCells {
        var r := ConvertRow(ts, reader[i], i, toFloat).value;
        AllDescribeCons(r, ExtractFrom(reader, ts, toFloat, i + 1).value, reader, i,
                        UsableFrom(reader, i + 1), ts, toFloat);
      }
    }
  }

  /**
    * A report that parses yields one record per usable row of `reader[28:32]`,
    * in row order, each with the report's timestamp, the stripped label, its
    * subtype and MC, TNG and DCR read from columns 1, 2 and 5; without a
    * timestamp it yields none.
    */
  lemma ParseReportRecords(reader: seq<seq<string>>, toFloat: string -> Option<real>)
    requires ParseReport(reader, toFloat).Success?
    ensures var recs := ParseReport(reader, toFloat).value;
      match ReportTimestamp(reader)
      case None => recs == []
      case Some(ts) => |recs| <= 4 && AllDescribe(recs, reader, UsableRows(reader), ts, toFloat)
  {
    if ReportTimestamp(reader).Some? {
      UsableRowsExact(reader);
      ExtractFromRecords(reader, ReportTimestamp(reader).value, toFloat, WindowLo(reader));
    }
  }

  /** `parse_csv` raises exactly when it has a timestamp and some usable row holds a non-number. */
  lemma ParseReportRaises(reader: seq<seq<string>>, toFloat: string -> Option<real>)
    ensures ParseReport(reader, toFloat).Failure? <==>
      ReportTimestamp(reader).Some? && !AllConvert(reader, UsableRows(reader), toFloat)
  {
    if ReportTimestamp(reader).Some? {
      ExtractFromSucceeds(reader, ReportTimestamp(reader).value, toFloat, WindowLo(reader));
    }
  }

  /** `e` is the error of the conversion that fails first in `row`, in column order 1, 2, 5. */
  predicate FailsFirstAt(row: seq<string>, toFloat: string -> Option<real>, e: ParseError) {
    |row| >= MinCells
    && (e.column == 1 || e.column == 2 || e.column == 5)
    && e.cell == row[e.column] && toFloat(row[e.column]).None?
    && (e.column > 1 ==> toFloat(row[1]).Some?)
    && (e.column > 2 ==> toFloat(row[2]).Some?)
  }

  /** `e` is raised by row `q[k]`, the first listed row that does not convert. */
  predicate FirstFailure(reader: seq<seq<string>>, q: seq<nat>, toFloat: string -> Option<real>, e: ParseError) {
    exists k :: 0 <= k < |q| && q[k] == e.row && q[k] < |reader|
      && AllConvert(reader, q[..k], toFloat) && FailsFirstAt(reader[q[k]], toFloat, e)
  }

  /** A row that converts in front of the listed rows keeps the first failure. */
  lemma FirstFailureCons(reader: seq<seq<string>>, i: nat, q: seq<nat>, toFloat: string -> Option<real>,
                         e: ParseError)
    requires i < |reader| && Converts(reader[i], toFloat)
    requires FirstFailure(reader, q, toFloat, e)
    ensures FirstFailure(reader, [i] + q, toFloat, e)
  {
    var k :| 0 <= k < |q| && q[k] == e.row && q[k] < |reader|
      && AllConvert(reader, q[..k], toFloat) && FailsFirstAt(reader[q[k]], toFloat, e);
    var q1 := [i] + q;
    assert q1[..k + 1] == [i] + q[..k];
    AllConvertCons(reader, i, q[..k], toFloat);
    assert q1[k + 1] == q[k];
  }

  /** A row whose conversion fails, in front of the listed rows, raises first. */
  lemma FirstFailureHead(reader: seq<seq<string>>, ts: DateTime, i: nat, q: seq<nat>,
                         toFloat: string -> Option<real>)
    requires i < |reader| && |reader[i]| >= MinCells
    requires ConvertRow(ts, reader[i], i, toFloat).Failure?
    ensures FirstFailure(reader, [i] + q, toFloat, ConvertRow(ts, reader[i], i, toFloat).error)
  {
    var q1 := [i] + q;
    assert q1[..0] == [];
    assert FailsFirstAt(reader[q1[0]], toFloat, ConvertRow(ts, reader[i], i, toFloat).error);
  }

  lemma {:induction false} ExtractFromFailure(reader: seq<seq<string>>, ts: DateTime,
                                              toFloat: string -> Option<real>, i: nat)
    requires i <= WindowHi(reader)
    requires ExtractFrom(reader, ts, toFloat, i).Failure?
    ensures FirstFailure(reader, UsableFrom(reader, i), toFloat, ExtractFrom(reader, ts, toFloat, i).error)
    decreases WindowHi(reader) - i
  {
    if |reader[i]| < MinCells {
      ExtractFromFailure(reader, ts, toFloat, i + 1);
    } else if ConvertRow(ts, reader[i], i, toFloat).Success? {
      ExtractFromFailure(reader, ts, toFloat, i + 1);
      FirstFailureCons(reader, i, UsableFrom(reader, i + 1), toFloat, ExtractFrom(reader, ts, toFloat, i + 1).error);
    } else {
      FirstFailureHead(reader, ts, i, UsableFrom(reader, i + 1), toFloat);
    }
  }

  /**
    * A `float` that raises is not caught: `parse_csv` raises the error of the
    * first usable row holding a non-number, at its first such column.
    */
  lemma ParseReportFailure(reader: seq<seq<string>>, toFloat: string -> Option<real>)
    requires ParseReport(reader, toFloat).Failure?
    ensures ReportTimestamp(reader).Some?
    ensures FirstFailure(reader, UsableRows(reader), toFloat, ParseReport(reader, toFloat).error)
  {
    ExtractFromFailure(reader, ReportTimestamp(reader).value, toFloat, WindowLo(reader));
  }

  // A worked report: a header at row 4 and one generation row at index 28.

  const ScenarioHeader: string := "Last Update : 2024-06-23 10:05"

  const ScenarioReader: seq<seq<string>> :=
    seq(28, i => if i == 4 then [ScenarioHeader] else []) + [["Gas", "10", "4", "", "", "1"]]

  /** A stand-in for `float` on the cells of the worked report. */
  function ScenarioFloat(s: string): Option<real> {
    if s == "10" then Some(10.0) else if s == "4" then Some(4.0) else if s == "1" then Some(1.0) else None
  }

  lemma ScenarioHeaderSplits()
    ensures SplitAfter(ScenarioHeader, LastUpdateMarker) == Some(" 2024-06-23 10:05")
  {
    var rest := ScenarioHeader[13..];
    assert rest == " 2024-06-23 10:05";
    assert OccursAt(ScenarioHeader, LastUpdateMarker, 0);
    assert IndexOf(ScenarioHeader, LastUpdateMarker) == Some(0);
    AbsentFirstChar(rest, LastUpdateMarker);
  }

  lemma ScenarioHeaderStrips()
    ensures Strip(" 2024-06-23 10:05") == "2024-06-23 10:05"
  {
    var rest := " 2024-06-23 10:05";
    assert IsSpace(rest[0]) && !IsSpace(rest[1]) && !IsSpace(rest[|rest| - 1]);
    assert SkipSpace(rest, 0) == 1;
    assert TrimEnd(rest, |rest|) == |rest|;
  }

  lemma ScenarioHeaderParses()
    ensures ParseDateTime("2024-06-23 10:05") == Some(DateTime(2024, 6, 23, 10, 5))
  {
  }

  lemma ScenarioTimestamp()
    ensures ReportTimestamp(ScenarioReader) == Some(DateTime(2024, 6, 23, 10, 5))
  {
    ScenarioHeaderSplits();
    ScenarioHeaderStrips();
    ScenarioHeaderParses();
    assert |ScenarioReader| == 29;
    assert ScenarioReader[4] == [ScenarioHeader];
  }

  lemma ScenarioRecords()
    ensures ExtractFrom(ScenarioReader, DateTime(2024, 6, 23, 10, 5), ScenarioFloat, 28)
      == Success([Record(DateTime(2024, 6, 23, 10, 5), "Gas", Fossil, 10.0, 4.0, 1.0)])
  {
    var ts := DateTime(2024, 6, 23, 10, 5);
    var r := Record(ts, "Gas", Fossil, 10.0, 4.0, 1.0);
    assert |ScenarioReader| == 29 && ScenarioReader[28] == ["Gas", "10", "4", "", "", "1"];
    assert WindowLo(ScenarioReader) == 28 && WindowHi(ScenarioReader) == 29;
    assert Strip("Gas") == "Gas" by {
      assert SkipSpace("Gas", 0) == 0;
      assert TrimEnd("Gas", 3) == 3;
    }
    assert ConvertRow(ts, ScenarioReader[28], 28, ScenarioFloat) == Success(r);
    assert ExtractFrom(ScenarioReader, ts, ScenarioFloat, 29) == Success([]);
    assert [r] + [] == [r];
    assert ExtractFrom(ScenarioReader, ts, ScenarioFloat, 28) == Prepend([r], Success([]));
  }

  /**
    * The worked report yields one Fossil record for "Gas" at 2024-06-23 10:05
    * whose DCR is column 5 (1.0), not MC minus TNG (6.0).
    */
  lemma ReportScenario()
    ensures ParseReport(ScenarioReader, ScenarioFloat)
      == Success([Record(DateTime(2024, 6, 23, 10, 5), "Gas", Fossil, 10.0, 4.0, 1.0)])
    ensures var r := ParseReport(ScenarioReader, ScenarioFloat).value[0]; r.dcr != r.mc - r.tng
  {
    ScenarioTimestamp();
    ScenarioRecords();
  }
}
