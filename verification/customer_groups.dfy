/**
 * The customer groups component: a YAML source with a `customer_groups`
 * list, each entry saved as one customer group, in order.
 */
module CustomerGroups {
  import opened Wrappers
  import opened Values
  import opened FileTypes
  import opened Seqs

  const CustomerGroupsKey: string := "customer_groups"
  const CodeKey: string := "code"

  /** The component instance: the file type `parseData` last recognised, which only ever becomes `yaml`. */
  datatype Component = Component(fileType: Option<string>)

  datatype LogEntry = Info(message: string) | Error(message: string)

  /**
   * `parseData`: the parsed YAML, and the type set to `yaml`, exactly when
   * the extension is `yaml`; a missing extension is logged and gives
   * nothing, any other extension gives nothing silently. `readYaml` reads
   * and parses the file.
   */
  function ParseData(c: Component, source: string, readYaml: string -> Value): (r: (Component, Option<Value>, seq<LogEntry>))
    ensures r.1.Some? <==> Extension(source) == Success(TypeYaml)
    ensures r.1.Some? ==> r.1.value == readYaml(source) && r.0.fileType == Some(TypeYaml)
    ensures r.1.None? ==> r.0 == c
    ensures r.2 != [] <==> Extension(source).Failure?
    ensures Extension(source).Failure? ==> r.2 == [Error(NoExtension)]
  {
    match Extension(source)
    case Failure(m) => (c, None, [Error(m)])
    case Success(ext) => if ext == TypeYaml then (Component(Some(TypeYaml)), Some(readYaml(source)), []) else (c, None, [])
  }

  datatype Outcome = Outcome(saved: seq<Value>, log: seq<LogEntry>)

  /** A group's `code`, as the log prints it. */
  function Code(group: Value): string
  {
    Text(ValueAt(Fields(group), CodeKey))
  }

  /** The line logged for one group's save: its code, or the failure with its code. */
  function LogLine(group: Value, saveFault: Value -> Option<string>): LogEntry
  {
    match saveFault(group)
    case Some(m) => Error(m + " (" + Code(group) + ")")
    case None => Info(Code(group))
  }

  /** The save loop: a failing group is logged with its code and the next group still runs. */
  function SaveAll(groups: seq<Value>, saveFault: Value -> Option<string>): (r: Outcome)
    ensures |r.log| == |groups|
    ensures forall i :: 0 <= i < |groups| ==> r.log[i] == LogLine(groups[i], saveFault)
    ensures r.saved == Kept(groups, saveFault)
  {
    if groups == [] then Outcome([], [])
    else
      var rest := SaveAll(groups[1..], saveFault);
      assert forall i :: 1 <= i < |groups| ==> groups[i] == groups[1..][i - 1];
      var saved := if saveFault(groups[0]).None? then [groups[0]] + rest.saved else rest.saved;
      Outcome(saved, [LogLine(groups[0], saveFault)] + rest.log)
  }

  /**
   * `processData`: nothing without a `customer_groups` key (whatever its
   * value); otherwise every group under it is saved in order. Unlike the
   * customers component, the file type is not consulted.
   */
  function ProcessData(data: Value, saveFault: Value -> Option<string>): (r: Outcome)
    ensures !HasKey(Fields(data), CustomerGroupsKey) ==> r == Outcome([], [])
    ensures HasKey(Fields(data), CustomerGroupsKey) ==>
              var groups := Elements(ValueAt(Fields(data), CustomerGroupsKey));
              |r.log| == |groups| &&
              (forall i :: 0 <= i < |groups| ==> r.log[i] == LogLine(groups[i], saveFault)) &&
              r.saved == Kept(groups, saveFault)
  {
    if HasKey(Fields(data), CustomerGroupsKey) then SaveAll(Elements(ValueAt(Fields(data), CustomerGroupsKey)), saveFault)
    else Outcome([], [])
  }

  /** When every save goes through, every group is saved, in order. */
  lemma {:induction false} AllSavedInOrder(groups: seq<Value>, saveFault: Value -> Option<string>)
    requires forall i :: 0 <= i < |groups| ==> saveFault(groups[i]).None?
    ensures SaveAll(groups, saveFault).saved == groups
  {
    if groups != [] {
      AllSavedInOrder(groups[1..], saveFault);
    }
  }
}
