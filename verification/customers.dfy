/**
 * The customers component: a CSV source whose first row names the customer
 * attributes; every later row becomes one customer, saved in order.
 */
module Customers {
  import opened Wrappers
  import opened Values
  import opened FileTypes
  import opened Seqs

  const EmailKey: string := "email"
  const FirstnameKey: string := "firstname"
  const LastnameKey: string := "lastname"
  const RowDataInvalid: string := "The row data is not valid."

  /**
   * The component instance: the file type `parseData` last recognised
   * persists across sources, and only ever becomes `csv`.
   */
  datatype Component = Component(fileType: Option<string>)

  datatype LogEntry = Info(message: string) | Error(message: string)

  /**
   * `parseData`: the CSV rows, and the type set to `csv`, exactly when the
   * extension is `csv`; a missing extension is logged and gives nothing, and
   * any other extension gives nothing silently. `readCsv` is the CSV parser.
   */
  function ParseData(c: Component, source: string, readCsv: string -> Csv): (r: (Component, Option<Csv>, seq<LogEntry>))
    ensures r.1.Some? <==> Extension(source) == Success(TypeCsv)
    ensures r.1.Some? ==> r.1.value == readCsv(source) && r.0.fileType == Some(TypeCsv)
    ensures r.1.None? ==> r.0 == c
    ensures r.2 != [] <==> Extension(source).Failure?
    ensures Extension(source).Failure? ==> r.2 == [Error(NoExtension)]
  {
    match Extension(source)
    case Failure(m) => (c, None, [Error(m)])
    case Success(ext) => if ext == TypeCsv then (Component(Some(TypeCsv)), Some(readCsv(source)), []) else (c, None, [])
  }

  /** The result of `processData`: the saved customers and the log, or the exception it throws. */
  datatype Outcome = Outcome(saved: seq<Record>, log: seq<LogEntry>)

  /** The line logged for a customer: first name, last name and email. */
  function Describe(customer: Record): string
  {
    Text(ValueAt(customer, FirstnameKey)) + " " + Text(ValueAt(customer, LastnameKey)) + " " + Text(ValueAt(customer, EmailKey))
  }

  /** The line logged for one customer's save. */
  function LogLine(customer: Record, saveFault: Record -> Option<string>): LogEntry
  {
    match saveFault(customer)
    case Some(m) => Error(m + " (" + Text(ValueAt(customer, EmailKey)) + ")")
    case None => Info(Describe(customer))
  }

  /**
   * The save loop: a customer whose save fails (`saveFault` gives the
   * message) is logged with its email and the loop goes on; one log line per
   * customer, in order.
   */
  function SaveAll(customers: seq<Record>, saveFault: Record -> Option<string>): (r: Outcome)
    ensures |r.log| == |customers|
    ensures forall i :: 0 <= i < |customers| ==> r.log[i] == LogLine(customers[i], saveFault)
    ensures r.saved == Kept(customers, saveFault)
  {
    if customers == [] then Outcome([], [])
    else
      var rest := SaveAll(customers[1..], saveFault);
      var c := customers[0];
      assert forall i :: 1 <= i < |customers| ==> customers[i] == customers[1..][i - 1];
      var saved := if saveFault(c).None? then [c] + rest.saved else rest.saved;
      Outcome(saved, [LogLine(c, saveFault)] + rest.log)
  }

  /**
   * `processData`: only when the component's type is `csv`. A missing first
   * row throws; otherwise the first row names the columns, every later row
   * becomes one customer, and the customers are saved in order.
   */
  function ProcessData(c: Component, data: Option<Csv>, saveFault: Record -> Option<string>): (r: Result<Outcome, string>)
    ensures c.fileType != Some(TypeCsv) ==> r == Success(Outcome([], []))
    ensures c.fileType == Some(TypeCsv) ==> (r.Failure? <==> data.None? || data.value == [])
    ensures r.Failure? ==> r.error == RowDataInvalid
    ensures c.fileType == Some(TypeCsv) && r.Success? ==>
              var customers := Records(data.value[0], data.value[1..]);
              |r.value.log| == |data.value| - 1 &&
              (forall i :: 0 <= i < |customers| ==> r.value.log[i] == LogLine(customers[i], saveFault)) &&
              r.value.saved == Kept(customers, saveFault)
  {
    if c.fileType != Some(TypeCsv) then Success(Outcome([], []))
    else
      match data
      case None => Failure(RowDataInvalid)
      case Some(rows) =>
        if rows == [] then Failure(RowDataInvalid)
        else Success(SaveAll(Records(rows[0], rows[1..]), saveFault))
  }

  /**
   * The customers handed to the save loop are the data rows keyed by the
   * header, `rows - 1` of them in order.
   */
  lemma CustomersOfRows(rows: Csv, i: nat, j: nat)
    requires 1 <= i < |rows| && j < |rows[0]|
    requires forall a, b :: 0 <= a < b < |rows[0]| ==> rows[0][a] != rows[0][b]
    ensures |Records(rows[0], rows[1..])| == |rows| - 1
    ensures Get(Records(rows[0], rows[1..])[i - 1], rows[0][j]) == Some(Cell(rows[i], j))
  {
    RowRecordColumn(rows[0], rows[i], j);
  }

  /**
   * The type sticks: after a CSV source, a YAML source parses to nothing but
   * leaves the type at `csv`, so processing it throws.
   */
  lemma StaleTypeThrows(csvSource: string, otherSource: string, readCsv: string -> Csv, saveFault: Record -> Option<string>)
    requires Extension(csvSource) == Success(TypeCsv)
    requires Extension(otherSource) == Success(TypeYaml)
    ensures var (c1, _, _) := ParseData(Component(None), csvSource, readCsv);
            var (c2, data, _) := ParseData(c1, otherSource, readCsv);
            ProcessData(c2, data, saveFault) == Failure(RowDataInvalid)
  {
  }
}
