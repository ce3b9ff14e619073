/**
 * The webforms component: every identifier holds a list of form entries,
 * each naming a JSON export file that is parsed, imported into one form
 * model per identifier, activated and saved.
 */
module Webforms {
  import opened Wrappers
  import opened Values
  import opened Seqs

  const SourceKey: string := "source"
  const IsActiveKey: string := "is_active"

  /** The defaults the component declares for a form entry. */
  const DefaultValues: Record := [(IsActiveKey, Int(1))]

  /**
   * What the form model and the file system answer. `readSource` is
   * `file_get_contents`; `parse` is the model's `parseJson`, giving its error
   * list or throwing; `importJson` gives the model's id after importing the JSON
   * (from the id it had before) or throws; `saveFault` is a failing `save`.
   */
  datatype Env = Env(
    readSource: Value -> Value,
    parse: Value -> Result<seq<Value>, string>,
    importJson: (Option<nat>, Value) -> Result<Option<nat>, string>,
    saveFault: nat -> Option<string>)

  /** A saved form: its id and the `is_active` value it was given. */
  datatype Saved = Saved(id: nat, isActive: Value)

  datatype LogEntry =
    | ParseError(error: Value)
    | Caught(message: string)
    | Imported(id: nat)

  /** The state one identifier's loop carries: the form model's id, the saves and the log. */
  datatype State = State(modelId: Option<nat>, saved: seq<Saved>, log: seq<LogEntry>)

  /** `checkRequiredFields`: the entry must carry a `source` key, whatever its value. */
  function CheckRequiredFields(entry: Record): (r: Option<string>)
    ensures r.None? <==> HasKey(entry, SourceKey)
    ensures r.Some? ==> r.value == "Required Data Missing source"
  {
    if HasKey(entry, SourceKey) then None else Some("Required Data Missing " + SourceKey)
  }

  /**
   * `setDefaultFields` as written: the default is stored into a fresh local
   * array, not into the entry passed by reference, so the entry is unchanged.
   */
  function SetDefaultFieldsAsWritten(entry: Record): (r: Record)
    ensures forall k :: Get(r, k) == Get(entry, k)
  {
    entry
  }

  /** `setDefaultFields` as intended: a missing `is_active` becomes 1, present keys are untouched. */
  function SetDefaultFields(entry: Record): (r: Record)
    ensures forall k :: HasKey(entry, k) ==> Get(r, k) == Get(entry, k)
    ensures !HasKey(entry, IsActiveKey) ==> Get(r, IsActiveKey) == Some(Int(1))
    ensures forall k :: HasKey(r, k) <==> HasKey(entry, k) || k == IsActiveKey
  {
    WithDefaults(entry, DefaultValues)
  }

  /** Every parse error is logged, in order. */
  function ParseErrors(errors: seq<Value>): (log: seq<LogEntry>)
    ensures |log| == |errors|
    ensures forall i :: 0 <= i < |errors| ==> log[i] == ParseError(errors[i])
  {
    if errors == [] then [] else [ParseError(errors[0])] + ParseErrors(errors[1..])
  }

  /**
   * The guarded body of the loop for one entry whose defaults were applied:
   * read, parse, and either log the parse errors or import; a truthy id
   * after the import activates and saves the form. Any exception is logged
   * and the loop goes on.
   */
  function ImportEntry(entry: Record, env: Env, st: State): (r: State)
    ensures |r.saved| <= |st.saved| + 1
    ensures IsPrefix(st.saved, r.saved)
    ensures IsPrefix(st.log, r.log)
    ensures var data := env.readSource(ValueAt(entry, SourceKey));
            var imported := env.importJson(st.modelId, data);
            |r.saved| == |st.saved| + 1 <==>
              env.parse(data) == Success([]) && imported.Success? && imported.value.Some? &&
              imported.value.value != 0 && env.saveFault(imported.value.value).None?
    ensures |r.saved| == |st.saved| + 1 ==>
              r.saved[|st.saved|].isActive == ValueAt(entry, IsActiveKey) &&
              r.log == st.log + [Imported(r.saved[|st.saved|].id)]
    ensures var data := env.readSource(ValueAt(entry, SourceKey));
            env.parse(data).Success? && env.parse(data).value != [] ==>
              r == st.(log := st.log + ParseErrors(env.parse(data).value))
  {
    var data := env.readSource(ValueAt(entry, SourceKey));
    match env.parse(data)
    case Failure(m) => st.(log := st.log + [Caught(m)])
    case Success(errors) =>
      if errors != [] then st.(log := st.log + ParseErrors(errors))
      else
        match env.importJson(st.modelId, data)
        case Failure(m) => st.(log := st.log + [Caught(m)])
        case Success(id) =>
          if id.Some? && id.value != 0 then
            match env.saveFault(id.value)
            case Some(m) => State(id, st.saved, st.log + [Caught(m)])
            case None => State(id, st.saved + [Saved(id.value, ValueAt(entry, IsActiveKey))], st.log + [Imported(id.value)])
          else st.(modelId := id)
  }

  /**
   * One entry with the intended defaults: a form it saves carries the
   * entry's `is_active`, or 1 when the entry leaves the key out.
   */
  function FormStep(entry: Record, env: Env, st: State): (r: State)
    ensures IsPrefix(st.saved, r.saved) && |r.saved| <= |st.saved| + 1
    ensures |r.saved| == |st.saved| + 1 ==>
              r.saved[|st.saved|].isActive == if HasKey(entry, IsActiveKey) then ValueAt(entry, IsActiveKey) else Int(1)
  {
    ImportEntry(SetDefaultFields(entry), env, st)
  }

  /**
   * One entry with `setDefaultFields` as written: a form it saves carries
   * whatever reading `is_active` from the entry gives, null when it is absent.
   */
  function FormStepAsWritten(entry: Record, env: Env, st: State): (r: State)
    ensures IsPrefix(st.saved, r.saved) && |r.saved| <= |st.saved| + 1
    ensures |r.saved| == |st.saved| + 1 ==> r.saved[|st.saved|].isActive == ValueAt(entry, IsActiveKey)
  {
    ImportEntry(SetDefaultFieldsAsWritten(entry), env, st)
  }

  /** With the intended defaults, a form whose entry leaves `is_active` out is saved active. */
  lemma FormStepActivates(entry: Record, env: Env, st: State)
    requires !HasKey(entry, IsActiveKey)
    requires |FormStep(entry, env, st).saved| > |st.saved|
    ensures FormStep(entry, env, st).saved[|st.saved|].isActive == Int(1)
  {
  }

  /**
   * As written, the same form is saved with `is_active` null: the entry never
   * gets the default, and reading the missing key gives null.
   */
  lemma FormStepAsWrittenDeactivates(entry: Record, env: Env, st: State)
    requires !HasKey(entry, IsActiveKey)
    requires |FormStepAsWritten(entry, env, st).saved| > |st.saved|
    ensures FormStepAsWritten(entry, env, st).saved[|st.saved|].isActive == Null
  {
  }

  /** A concrete entry, `{source: "form.json"}`, whose import gives id 5. */
  lemma AsWrittenCounterexample()
    ensures var entry := [(SourceKey, Str("form.json"))];
            var env := Env(v => v, v => Success([]), (id, v) => Success(Some(5)), id => None);
            var st := State(None, [], []);
            FormStepAsWritten(entry, env, st).saved == [Saved(5, Null)] &&
            FormStep(entry, env, st).saved == [Saved(5, Int(1))]
  {
    var entry := [(SourceKey, Str("form.json"))];
    var env := Env(v => v, v => Success([]), (id, v) => Success(Some(5)), id => None);
    var st := State(None, [], []);
    assert !HasKey(entry, IsActiveKey);
  }

  /**
   * `processForm`: a fresh form model, then each entry in order. A missing
   * `source` throws out of the loop (it is checked outside the guarded block)
   * and comes back as `Some(message)` with the state reached so far.
   */
  function ProcessForm(entries: seq<Value>, env: Env, st: State): (r: (State, Option<string>))
    ensures IsPrefix(st.saved, r.0.saved)
    ensures IsPrefix(st.log, r.0.log)
    ensures r.1.None? <==> forall i :: 0 <= i < |entries| ==> HasKey(Fields(entries[i]), SourceKey)
    ensures r.1.Some? ==> r.1.value == "Required Data Missing source"
    decreases |entries|
  {
    if entries == [] then (st, None)
    else
      var entry := Fields(entries[0]);
      match CheckRequiredFields(entry)
      case Some(m) => (st, Some(m))
      case None =>
        var st' := FormStep(entry, env, st);
        var r := ProcessForm(entries[1..], env, st');
        SourcesCons(entries);
        PrefixTransitive(st.saved, st'.saved, r.0.saved);
        PrefixTransitive(st.log, st'.log, r.0.log);
        r
  }

  lemma SourcesCons(entries: seq<Value>)
    requires entries != []
    ensures (forall i :: 0 <= i < |entries| ==> HasKey(Fields(entries[i]), SourceKey)) <==>
            HasKey(Fields(entries[0]), SourceKey) &&
            (forall i :: 0 <= i < |entries[1..]| ==> HasKey(Fields(entries[1..][i]), SourceKey))
  {
    assert forall i :: 1 <= i < |entries| ==> entries[i] == entries[1..][i - 1];
  }

  /** An entry missing `source` ends the form's loop: later entries are never reached. */
  lemma {:induction false} ProcessFormStops(entries: seq<Value>, more: seq<Value>, env: Env, st: State)
    requires ProcessForm(entries, env, st).1.Some?
    ensures ProcessForm(entries + more, env, st) == ProcessForm(entries, env, st)
    decreases |entries|
  {
    assert entries != [];
    var all := entries + more;
    assert all[0] == entries[0];
    assert all[1..] == entries[1..] + more;
    var entry := Fields(entries[0]);
    if CheckRequiredFields(entry).None? {
      var st' := FormStep(entry, env, st);
      assert ProcessForm(all, env, st) == ProcessForm(entries[1..] + more, env, st');
      assert ProcessForm(entries, env, st) == ProcessForm(entries[1..], env, st');
      ProcessFormStops(entries[1..], more, env, st');
    }
  }

  /**
   * An exception thrown while importing one entry is logged and the next
   * entry still runs: the entries after it are processed from the state it left.
   */
  lemma ProcessFormContinues(entry: Value, rest: seq<Value>, env: Env, st: State)
    requires HasKey(Fields(entry), SourceKey)
    ensures ProcessForm([entry] + rest, env, st) ==
            ProcessForm(rest, env, FormStep(Fields(entry), env, st))
  {
    assert ([entry] + rest)[1..] == rest;
  }

  /** The result of the whole component: the saved forms and the log. */
  datatype Outcome = Outcome(saved: seq<Saved>, log: seq<LogEntry>)

  /**
   * `processData`: each identifier's list with a fresh form model. The first
   * missing `source` is logged once and the remaining identifiers are skipped.
   */
  function ProcessData(identifiers: seq<Value>, env: Env, acc: Outcome): (r: Outcome)
    ensures IsPrefix(acc.saved, r.saved)
    ensures IsPrefix(acc.log, r.log)
    decreases |identifiers|
  {
    if identifiers == [] then acc
    else
      var (st, raised) := ProcessForm(Elements(identifiers[0]), env, State(None, acc.saved, acc.log));
      match raised
      case Some(m) =>
        var log := st.log + [Caught(m)];
        assert log[..|st.log|] == st.log;
        PrefixTransitive(acc.log, st.log, log);
        Outcome(st.saved, log)
      case None =>
        var r := ProcessData(identifiers[1..], env, Outcome(st.saved, st.log));
        PrefixTransitive(acc.saved, st.saved, r.saved);
        PrefixTransitive(acc.log, st.log, r.log);
        r
  }

  /** The component entry point over the parsed file's top-level values. */
  function Run(data: Value, env: Env): (r: Outcome)
    ensures forall i :: 0 <= i < |r.saved| ==> r.saved[i].id != 0
  {
    var r := ProcessData(Elements(data), env, Outcome([], []));
    SavedIdsNonZero(Elements(data), env, Outcome([], []));
    r
  }

  predicate IdsNonZero(saved: seq<Saved>)
  {
    forall i :: 0 <= i < |saved| ==> saved[i].id != 0
  }

  /** Only a truthy id is ever saved. */
  lemma {:induction false} SavedIdsNonZero(identifiers: seq<Value>, env: Env, acc: Outcome)
    requires IdsNonZero(acc.saved)
    ensures IdsNonZero(ProcessData(identifiers, env, acc).saved)
    decreases |identifiers|
  {
    if identifiers != [] {
      var entries := Elements(identifiers[0]);
      var st := State(None, acc.saved, acc.log);
      FormIdsNonZero(entries, env, st);
      var (st', raised) := ProcessForm(entries, env, st);
      if raised.None? {
        SavedIdsNonZero(identifiers[1..], env, Outcome(st'.saved, st'.log));
      }
    }
  }

  lemma {:induction false} FormIdsNonZero(entries: seq<Value>, env: Env, st: State)
    requires IdsNonZero(st.saved)
    ensures IdsNonZero(ProcessForm(entries, env, st).0.saved)
    decreases |entries|
  {
    if entries != [] {
      var entry := Fields(entries[0]);
      if CheckRequiredFields(entry).None? {
        var st' := FormStep(entry, env, st);
        FormIdsNonZero(entries[1..], env, st');
      }
    }
  }

  /** A missing `source` under one identifier: the identifiers after it are never processed. */
  lemma {:induction false} ProcessDataStops(identifiers: seq<Value>, more: seq<Value>, env: Env, acc: Outcome)
    requires exists i :: 0 <= i < |identifiers| && !AllSourced(identifiers[i])
    ensures ProcessData(identifiers + more, env, acc) == ProcessData(identifiers, env, acc)
    decreases |identifiers|
  {
    assert (identifiers + more)[0] == identifiers[0];
    assert (identifiers + more)[1..] == identifiers[1..] + more;
    var (st, raised) := ProcessForm(Elements(identifiers[0]), env, State(None, acc.saved, acc.log));
    if raised.None? {
      assert AllSourced(identifiers[0]);
      var i :| 0 <= i < |identifiers| && !AllSourced(identifiers[i]);
      assert identifiers[i] == identifiers[1..][i - 1];
      ProcessDataStops(identifiers[1..], more, env, Outcome(st.saved, st.log));
    }
  }

  /** Every entry listed under an identifier carries a `source` key. */
  predicate AllSourced(identifier: Value)
  {
    forall i :: 0 <= i < |Elements(identifier)| ==> HasKey(Fields(Elements(identifier)[i]), SourceKey)
  }
}
