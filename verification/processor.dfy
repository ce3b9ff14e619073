/**
 * The version orchestrator: which master versions are pending, the gate on
 * older versions that were skipped, dispatch of components per version (all
 * of them in declared order, or a requested subset in request order), the
 * environment overlay of sources, and recording a version once its loop
 * body has finished.
 *
 * A run is a pure function. Each component's `process()` is an oracle that
 * sees the invocations made so far and may throw; a ledger save may fail.
 */
module Processor {
  import opened Wrappers
  import opened Values
  import opened Seqs
  import opened Master
  import Versioning
  import Repo = VersioningRepository

  /** One `$component->setSource($source)->process()` call. */
  datatype Invocation = Invocation(version: int, alias: Alias, source: Source)

  /** What `process()` may throw: the component exception, which the dispatch loops catch, or anything else. */
  datatype Thrown = ComponentException(message: string) | OtherException(message: string)

  /** Why the dispatch of versions stopped early. */
  datatype Halt =
    | Raised(thrown: Thrown)
    | AliasMissing(alias: Alias, version: int)
    | VersionMissing(version: int)

  /** The error-level messages the processor logs. */
  datatype LogEntry =
    | MasterInvalid(invalid: ValidationError)
    | NoNewVersions
    | OlderVersionsNotApplied(versions: seq<int>)
    | SaveFailed(version: int, failure: Repo.CouldNotSave)
    | DispatchStopped(halt: Halt)

  /**
   * What the command hands the processor: the environment (which the command
   * insists on), the requested component aliases and the force flag.
   */
  datatype Context = Context(environment: Environment, components: seq<Alias>, force: bool)

  datatype Status =
    | NothingPending
    | Blocked(missing: seq<int>)
    | Completed
    | Stopped(halt: Halt)
    | Escaped(thrown: Thrown)

  datatype RunResult = RunResult(trace: seq<Invocation>, ledger: Repo.Table, log: seq<LogEntry>, status: Status)

  /** `process()` of the component behind an invocation, given every invocation before it. */
  type ProcessOracle = (seq<Invocation>, Invocation) -> Option<Thrown>

  // ---------------------------------------------------------------------------
  // Requested components

  /** `addComponent`: the name becomes a key of an insertion-ordered array. */
  function AddComponent(components: seq<Alias>, name: Alias): (r: seq<Alias>)
    ensures name in r
    ensures forall a :: a in r <==> a in components || a == name
    ensures name in components ==> r == components
    ensures name !in components ==> r == components + [name]
  {
    if name in components then components else components + [name]
  }

  /** Adding the same component twice is the same as adding it once. */
  lemma AddComponentIdempotent(components: seq<Alias>, name: Alias)
    ensures AddComponent(AddComponent(components, name), name) == AddComponent(components, name)
  {
  }

  /** No element occurs twice: each one is absent from the rest of the sequence. */
  predicate NoDuplicates<T(==)>(s: seq<T>)
    decreases |s|
  {
    s == [] || (s[0] !in s[1..] && NoDuplicates(s[1..]))
  }

  /** Appending an element that is not there yet keeps the elements distinct. */
  lemma {:induction false} NoDuplicatesAppend<T>(s: seq<T>, x: T)
    requires NoDuplicates(s)
    ensures x !in s ==> NoDuplicates(s + [x])
    decreases |s|
  {
    if s != [] && x !in s {
      assert (s + [x])[1..] == s[1..] + [x];
      NoDuplicatesAppend(s[1..], x);
    }
  }

  /** A prefix of distinct elements is distinct, and the element after it is not in it. */
  lemma {:induction false} NoDuplicatesPrefix<T>(s: seq<T>, k: nat)
    requires NoDuplicates(s) && k <= |s|
    ensures NoDuplicates(s[..k])
    ensures k < |s| ==> s[k] !in s[..k]
    decreases k
  {
    if k > 0 {
      NoDuplicatesPrefix(s[1..], k - 1);
      assert s[..k][1..] == s[1..][..k - 1];
      assert s[..k] == [s[0]] + s[1..][..k - 1];
      assert s[0] !in s[1..][..k - 1] by {
        assert forall x :: x in s[1..][..k - 1] ==> x in s[1..];
      }
      if k < |s| {
        assert s[k] == s[1..][k - 1];
        assert s[k] in s[1..];
      }
    }
  }

  /** The command adding every `--component` option in turn. */
  function Requested(names: seq<Alias>): (r: seq<Alias>)
    ensures NoDuplicates(r)
    ensures forall a :: a in r <==> a in names
    ensures names == [] <==> r == []
  {
    if names == [] then []
    else
      var rest := Requested(names[..|names| - 1]);
      NoDuplicatesAppend(rest, names[|names| - 1]);
      AddComponent(rest, names[|names| - 1])
  }

  // ---------------------------------------------------------------------------
  // Pending and missing versions

  /** The master keys not yet in the ledger, in master-file order. */
  function Pending(keys: seq<int>, applied: seq<int>): (r: seq<int>)
    ensures forall v :: v in r <==> v in keys && v !in applied
    ensures IsSubsequence(r, keys)
    ensures NoDuplicates(keys) ==> NoDuplicates(r)
  {
    if keys == [] then []
    else if keys[0] in applied then Pending(keys[1..], applied)
    else [keys[0]] + Pending(keys[1..], applied)
  }

  /** PHP's `end()`: the last element, or `false` (here `None`) for an empty array. */
  function LastOf(s: seq<int>): (r: Option<int>)
    ensures r.None? <==> s == []
    ensures r.Some? ==> r.value == s[|s| - 1]
  {
    if s == [] then None else Some(s[|s| - 1])
  }

  /**
   * `getMissingVersions`: pending versions below both the last master key and
   * the last ledger entry. Comparing an integer with `false` is always false
   * in PHP, so with an empty ledger nothing is missing.
   */
  function Missing(pending: seq<int>, latestMaster: int, latestApplied: Option<int>): (r: seq<int>)
    ensures forall v :: v in r <==>
              v in pending && latestApplied.Some? && v < latestMaster && v < latestApplied.value
    ensures latestApplied.None? ==> r == []
    ensures IsSubsequence(r, pending)
  {
    if pending == [] then []
    else
      var rest := Missing(pending[1..], latestMaster, latestApplied);
      if latestApplied.Some? && pending[0] < latestMaster && pending[0] < latestApplied.value
      then [pending[0]] + rest
      else rest
  }

  // ---------------------------------------------------------------------------
  // Plans: the invocations a run is meant to make

  function Invocations(v: int, alias: Alias, sources: seq<Source>): (r: seq<Invocation>)
    ensures |r| == |sources|
    ensures forall i :: 0 <= i < |sources| ==> r[i] == Invocation(v, alias, sources[i])
  {
    if sources == [] then [] else [Invocation(v, alias, sources[0])] + Invocations(v, alias, sources[1..])
  }

  /**
   * The sources `runComponent` processes: every generic source, then every
   * source of the active environment. The `enabled` flag plays no part.
   */
  function DispatchSources(config: Config, environment: Environment): seq<Source>
  {
    config.sources + EnvSources(config, environment)
  }

  function ComponentPlan(v: int, alias: Alias, config: Config, environment: Environment): seq<Invocation>
  {
    Invocations(v, alias, DispatchSources(config, environment))
  }

  /** Every component of a version, in declared order. */
  function AllPlan(v: int, components: Components, environment: Environment): seq<Invocation>
  {
    if components == [] then []
    else ComponentPlan(v, components[0].0, components[0].1, environment) + AllPlan(v, components[1..], environment)
  }

  /** The invocations meant for one version, and whether the version can finish at all. */
  datatype Plan = Plan(invocations: seq<Invocation>, complete: bool)

  /** The requested aliases in request order, up to the first one the version does not define. */
  function SelectedPlan(v: int, components: Components, selected: seq<Alias>, environment: Environment): (r: Plan)
    ensures r.complete <==> forall i :: 0 <= i < |selected| ==> ConfigOf(components, selected[i]).Some?
  {
    if selected == [] then Plan([], true)
    else match ConfigOf(components, selected[0])
      case None => Plan([], false)
      case Some(config) =>
        var rest := SelectedPlan(v, components, selected[1..], environment);
        Plan(ComponentPlan(v, selected[0], config, environment) + rest.invocations, rest.complete)
  }

  function VersionPlan(v: int, versions: seq<VersionEntry>, selected: seq<Alias>, environment: Environment): (r: Plan)
    ensures selected == [] ==> (r.complete <==> v in VersionKeys(versions))
    ensures selected != [] ==>
              (r.complete <==> forall i :: 0 <= i < |selected| ==> ConfigOf(ComponentsOf(versions, v).GetOr([]), selected[i]).Some?)
  {
    if selected == [] then
      match ComponentsOf(versions, v)
      case None => Plan([], false)
      case Some(components) => Plan(AllPlan(v, components, environment), true)
    else SelectedPlan(v, ComponentsOf(versions, v).GetOr([]), selected, environment)
  }

  /** The plans of several versions, one after another. */
  function PlanOf(vs: seq<int>, versions: seq<VersionEntry>, selected: seq<Alias>, environment: Environment): seq<Invocation>
  {
    if vs == [] then []
    else VersionPlan(vs[0], versions, selected, environment).invocations + PlanOf(vs[1..], versions, selected, environment)
  }

  /** `t` keeps `t0` and adds a prefix of `plan` to it. */
  predicate Extends(t0: seq<Invocation>, t: seq<Invocation>, plan: seq<Invocation>)
  {
    |t0| <= |t| && t[..|t0|] == t0 && IsPrefix(t[|t0|..], plan)
  }

  /** Extending a trace by a prefix of the empty plan leaves it as it was. */
  lemma ExtendsNothing(t0: seq<Invocation>, t: seq<Invocation>)
    requires Extends(t0, t, [])
    ensures t == t0
  {
    assert t == t[..|t0|];
  }

  lemma ExtendsChain(t0: seq<Invocation>, t1: seq<Invocation>, t2: seq<Invocation>, a: seq<Invocation>, b: seq<Invocation>)
    requires t1 == t0 + a
    requires Extends(t1, t2, b)
    ensures Extends(t0, t2, a + b)
  {
    assert t2[|t0|..] == a + t2[|t1|..];
  }

  lemma ExtendsWeaken(t0: seq<Invocation>, t: seq<Invocation>, a: seq<Invocation>, b: seq<Invocation>)
    requires Extends(t0, t, a)
    ensures Extends(t0, t, a + b)
  {
  }

  // ---------------------------------------------------------------------------
  // Dispatch

  /** `t` extends `t0` and its last invocation is one whose `process()` threw `thrown`. */
  predicate Threw(t0: seq<Invocation>, t: seq<Invocation>, process: ProcessOracle, thrown: Thrown)
  {
    |t| > |t0| && process(t[..|t| - 1], t[|t| - 1]) == Some(thrown)
  }

  /** `foreach ($sources as $source) { $component->setSource($source)->process(); }` */
  function RunSources(v: int, alias: Alias, sources: seq<Source>, trace: seq<Invocation>, process: ProcessOracle)
    : (r: (seq<Invocation>, Option<Thrown>))
    ensures Extends(trace, r.0, Invocations(v, alias, sources))
    ensures r.1.None? ==> r.0 == trace + Invocations(v, alias, sources)
    ensures r.1.Some? ==> Threw(trace, r.0, process, r.1.value)
    decreases |sources|
  {
    if sources == [] then (trace, None)
    else
      var call := Invocation(v, alias, sources[0]);
      match process(trace, call)
      case Some(thrown) =>
        assert (trace + [call])[..|trace|] == trace;
        (trace + [call], Some(thrown))
      case None =>
        var r := RunSources(v, alias, sources[1..], trace + [call], process);
        ExtendsChain(trace, trace + [call], r.0, [call], Invocations(v, alias, sources[1..]));
        r
  }

  /** `runComponent`: generic sources, then the environment's sources if that node exists. */
  function RunComponent(v: int, alias: Alias, config: Config, environment: Environment,
                        trace: seq<Invocation>, process: ProcessOracle)
    : (r: (seq<Invocation>, Option<Thrown>))
    ensures Extends(trace, r.0, ComponentPlan(v, alias, config, environment))
    ensures r.1.None? ==> r.0 == trace + ComponentPlan(v, alias, config, environment)
    ensures r.1.Some? ==> Threw(trace, r.0, process, r.1.value)
  {
    var generic := Invocations(v, alias, config.sources);
    var overlay := Invocations(v, alias, EnvSources(config, environment));
    InvocationsAppend(v, alias, config.sources, EnvSources(config, environment));
    var first := RunSources(v, alias, config.sources, trace, process);
    if first.1.Some? then
      ExtendsWeaken(trace, first.0, generic, overlay);
      first
    else
      var second := RunSources(v, alias, EnvSources(config, environment), first.0, process);
      ExtendsChain(trace, first.0, second.0, generic, overlay);
      assert second.1.None? ==> second.0 == trace + (generic + overlay);
      second
  }

  lemma {:induction false} InvocationsAppend(v: int, alias: Alias, a: seq<Source>, b: seq<Source>)
    ensures Invocations(v, alias, a + b) == Invocations(v, alias, a) + Invocations(v, alias, b)
  {
  }

  /** `runAllComponents`, one version: every component in declared order. */
  function RunAll(v: int, components: Components, environment: Environment,
                  trace: seq<Invocation>, process: ProcessOracle)
    : (r: (seq<Invocation>, Option<Thrown>))
    ensures Extends(trace, r.0, AllPlan(v, components, environment))
    ensures r.1.None? ==> r.0 == trace + AllPlan(v, components, environment)
    ensures r.1.Some? ==> Threw(trace, r.0, process, r.1.value)
  {
    if components == [] then (trace, None)
    else
      var head := ComponentPlan(v, components[0].0, components[0].1, environment);
      var tail := AllPlan(v, components[1..], environment);
      var first := RunComponent(v, components[0].0, components[0].1, environment, trace, process);
      if first.1.Some? then
        ExtendsWeaken(trace, first.0, head, tail);
        first
      else
        var rest := RunAll(v, components[1..], environment, first.0, process);
        ExtendsChain(trace, first.0, rest.0, head, tail);
        rest
  }

  /**
   * `runIndividualComponents`, one version: the requested aliases in request
   * order; an alias the version does not define stops everything.
   */
  function RunSelected(v: int, components: Components, selected: seq<Alias>, environment: Environment,
                       trace: seq<Invocation>, process: ProcessOracle)
    : (r: (seq<Invocation>, Option<Halt>))
    ensures Extends(trace, r.0, SelectedPlan(v, components, selected, environment).invocations)
    ensures r.1.None? ==> SelectedPlan(v, components, selected, environment).complete
    ensures r.1.None? || r.1.value.AliasMissing? ==>
              r.0 == trace + SelectedPlan(v, components, selected, environment).invocations
    ensures !SelectedPlan(v, components, selected, environment).complete ==> r.1.Some?
    ensures r.1.Some? && r.1.value.AliasMissing? ==>
              && r.1.value.version == v && r.1.value.alias in selected && ConfigOf(components, r.1.value.alias).None?
              && !SelectedPlan(v, components, selected, environment).complete
    ensures r.1.Some? ==> r.1.value.Raised? || r.1.value.AliasMissing?
    ensures r.1.Some? && r.1.value.Raised? ==>
              Threw(trace, r.0, process, r.1.value.thrown)
  {
    if selected == [] then (trace, None)
    else match ConfigOf(components, selected[0])
      case None => (trace, Some(AliasMissing(selected[0], v)))
      case Some(config) =>
        var head := ComponentPlan(v, selected[0], config, environment);
        var tail := SelectedPlan(v, components, selected[1..], environment).invocations;
        var first := RunComponent(v, selected[0], config, environment, trace, process);
        if first.1.Some? then
          ExtendsWeaken(trace, first.0, head, tail);
          (first.0, Some(Raised(first.1.value)))
        else
          var rest := RunSelected(v, components, selected[1..], environment, first.0, process);
          ExtendsChain(trace, first.0, rest.0, head, tail);
          rest
  }

  /** The loop body for one version, in either mode. */
  function RunVersion(v: int, versions: seq<VersionEntry>, selected: seq<Alias>, environment: Environment,
                      trace: seq<Invocation>, process: ProcessOracle)
    : (r: (seq<Invocation>, Option<Halt>))
    ensures Extends(trace, r.0, VersionPlan(v, versions, selected, environment).invocations)
    ensures r.1.None? ==> VersionPlan(v, versions, selected, environment).complete
    ensures r.1.None? || !r.1.value.Raised? ==>
              r.0 == trace + VersionPlan(v, versions, selected, environment).invocations
    ensures !VersionPlan(v, versions, selected, environment).complete ==> r.1.Some?
    ensures r.1.Some? && !r.1.value.Raised? ==> !VersionPlan(v, versions, selected, environment).complete
    ensures r.1.Some? && r.1.value.Raised? ==>
              Threw(trace, r.0, process, r.1.value.thrown)
  {
    if selected == [] then
      match ComponentsOf(versions, v)
      case None => (trace, Some(VersionMissing(v)))
      case Some(components) =>
        var r := RunAll(v, components, environment, trace, process);
        if r.1.Some? then (r.0, Some(Raised(r.1.value))) else (r.0, None)
    else RunSelected(v, ComponentsOf(versions, v).GetOr([]), selected, environment, trace, process)
  }

  // ---------------------------------------------------------------------------
  // Recording versions

  /**
   * `saveVersion`: a fresh ledger record with the version and the time
   * `clock` gives for it, saved through the repository. A failed save is
   * logged and swallowed.
   */
  function SaveVersion(v: int, table: Repo.Table, fault: int -> Option<string>, clock: int -> Value)
    : (r: (Repo.Table, seq<LogEntry>))
    ensures Repo.VersionsOf(r.0) == if v in Repo.VersionsOf(table) || fault(v).Some?
                                    then Repo.VersionsOf(table)
                                    else Repo.VersionsOf(table) + [v]
    ensures r.1 == [] <==> r.0 != table
    ensures r.1 != [] ==> r.1 == [SaveFailed(v, Repo.Save(table, NewRecord(v, clock(v)), fault(v)).error)]
  {
    SaveRecord(v, table, NewRecord(v, clock(v)), fault(v))
  }

  /** Saving a ledger record for version `v`; `fault` is the storage failure, if any. */
  function SaveRecord(v: int, table: Repo.Table, record: Versioning.Versioning, fault: Option<string>)
    : (r: (Repo.Table, seq<LogEntry>))
    requires Versioning.GetVersion(record) == Int(v)
    ensures Repo.VersionsOf(r.0) == if v in Repo.VersionsOf(table) || fault.Some?
                                    then Repo.VersionsOf(table)
                                    else Repo.VersionsOf(table) + [v]
    ensures r.1 == [] <==> r.0 != table
    ensures r.1 != [] ==> r.1 == [SaveFailed(v, Repo.Save(table, record, fault).error)]
  {
    match Repo.Save(table, record, fault)
    case Success((_, table')) =>
      Repo.VersionsOfAppend(table, Repo.Row(v, Versioning.GetUpdateTime(record)));
      (table', [])
    case Failure(e) => (table, [SaveFailed(v, e)])
  }

  /** The ledger record `saveVersion` builds. */
  function NewRecord(v: int, time: Value): (m: Versioning.Versioning)
    ensures Versioning.GetVersion(m) == Int(v)
    ensures Versioning.GetUpdateTime(m) == time
  {
    Versioning.SetUpdateTime(Versioning.SetVersion(Versioning.Versioning([]), Int(v)), time)
  }

  /** The ledger versions after saving `vs` one by one, skipping the saves that fail. */
  function Commit(applied: seq<int>, vs: seq<int>, fault: int -> Option<string>): (r: seq<int>)
    ensures IsPrefix(applied, r)
    decreases |vs|
  {
    if vs == [] then applied
    else if vs[0] in applied || fault(vs[0]).Some? then Commit(applied, vs[1..], fault)
    else
      var r := Commit(applied + [vs[0]], vs[1..], fault);
      assert (applied + [vs[0]])[..|applied|] == applied;
      PrefixTransitive(applied, applied + [vs[0]], r);
      r
  }

  /** The ledger ends up holding what it held plus every version whose save does not fault. */
  lemma {:induction false} CommitMembers(applied: seq<int>, vs: seq<int>, fault: int -> Option<string>)
    ensures forall v :: v in Commit(applied, vs, fault) <==> v in applied || (v in vs && fault(v).None?)
    decreases |vs|
  {
    if vs != [] {
      if vs[0] in applied || fault(vs[0]).Some? {
        CommitMembers(applied, vs[1..], fault);
      } else {
        CommitMembers(applied + [vs[0]], vs[1..], fault);
      }
      assert forall v :: v in vs <==> v == vs[0] || v in vs[1..];
    }
  }

  /** The versions of `vs` whose save does not fault. */
  function Saveable(vs: seq<int>, fault: int -> Option<string>): (r: seq<int>)
    ensures forall v :: v in r <==> v in vs && fault(v).None?
  {
    if vs == [] then []
    else if fault(vs[0]).None? then [vs[0]] + Saveable(vs[1..], fault)
    else Saveable(vs[1..], fault)
  }

  /** Saving distinct versions the ledger lacks appends exactly those whose save does not fault. */
  lemma {:induction false} CommitFresh(applied: seq<int>, vs: seq<int>, fault: int -> Option<string>)
    requires NoDuplicates(vs)
    requires forall v :: v in vs ==> v !in applied
    ensures Commit(applied, vs, fault) == applied + Saveable(vs, fault)
    decreases |vs|
  {
    if vs != [] {
      assert vs[0] in vs;
      if fault(vs[0]).Some? {
        CommitFresh(applied, vs[1..], fault);
        assert Saveable(vs, fault) == Saveable(vs[1..], fault);
      } else {
        assert forall v :: v in vs[1..] ==> v != vs[0];
        CommitFresh(applied + [vs[0]], vs[1..], fault);
        assert Saveable(vs, fault) == [vs[0]] + Saveable(vs[1..], fault);
        ConcatAssoc(applied, [vs[0]], Saveable(vs[1..], fault));
      }
    }
  }

  datatype Progress = Progress(trace: seq<Invocation>, ledger: Repo.Table, log: seq<LogEntry>, halt: Option<Halt>)

  /** What a halt adds to the log: everything but a foreign exception is caught and logged. */
  function HaltLog(h: Halt): seq<LogEntry>
  {
    if h.Raised? && h.thrown.OtherException? then [] else [DispatchStopped(h)]
  }

  /** The version loop: run a version's body, then save it; a halt ends the loop with the version unsaved. */
  function RunVersions(pending: seq<int>, versions: seq<VersionEntry>, selected: seq<Alias>, environment: Environment,
                       trace: seq<Invocation>, table: Repo.Table, log: seq<LogEntry>,
                       process: ProcessOracle, fault: int -> Option<string>, clock: int -> Value)
    : (r: Progress)
    ensures IsPrefix(log, r.log)
    decreases |pending|
  {
    if pending == [] then Progress(trace, table, log, None)
    else
      var body := RunVersion(pending[0], versions, selected, environment, trace, process);
      if body.1.Some? then Progress(body.0, table, log + HaltLog(body.1.value), body.1)
      else
        var saved := SaveVersion(pending[0], table, fault, clock);
        var r := RunVersions(pending[1..], versions, selected, environment, body.0, saved.0, log + saved.1,
                             process, fault, clock);
        assert (log + saved.1)[..|log|] == log;
        PrefixTransitive(log, log + saved.1, r.log);
        r
  }

  /** How many versions the loop gets through before a halt. */
  function Finished(pending: seq<int>, versions: seq<VersionEntry>, selected: seq<Alias>, environment: Environment,
                    trace: seq<Invocation>, process: ProcessOracle): (k: nat)
    ensures k <= |pending|
    decreases |pending|
  {
    if pending == [] then 0
    else
      var body := RunVersion(pending[0], versions, selected, environment, trace, process);
      if body.1.Some? then 0
      else 1 + Finished(pending[1..], versions, selected, environment, body.0, process)
  }

  /** Every version the loop got through had a complete plan. */
  lemma {:induction false} FinishedComplete(
    pending: seq<int>, versions: seq<VersionEntry>, selected: seq<Alias>, environment: Environment,
    trace: seq<Invocation>, process: ProcessOracle)
    ensures forall i :: 0 <= i < Finished(pending, versions, selected, environment, trace, process) ==>
              VersionPlan(pending[i], versions, selected, environment).complete
    decreases |pending|
  {
    if pending != [] {
      var body := RunVersion(pending[0], versions, selected, environment, trace, process);
      var k := Finished(pending, versions, selected, environment, trace, process);
      if body.1.None? {
        var k' := Finished(pending[1..], versions, selected, environment, body.0, process);
        assert k == 1 + k';
        FinishedComplete(pending[1..], versions, selected, environment, body.0, process);
        assert VersionPlan(pending[0], versions, selected, environment).complete;
        forall i | 1 <= i < k
          ensures VersionPlan(pending[i], versions, selected, environment).complete
        {
          assert pending[i] == pending[1..][i - 1];
        }
      } else {
        assert k == 0;
      }
    }
  }

  lemma {:induction false} FinishedHalt(
    pending: seq<int>, versions: seq<VersionEntry>, selected: seq<Alias>, environment: Environment,
    trace: seq<Invocation>, table: Repo.Table, log: seq<LogEntry>,
    process: ProcessOracle, fault: int -> Option<string>, clock: int -> Value)
    ensures RunVersions(pending, versions, selected, environment, trace, table, log, process, fault, clock).halt.None?
        <==> Finished(pending, versions, selected, environment, trace, process) == |pending|
    decreases |pending|
  {
    if pending != [] {
      var body := RunVersion(pending[0], versions, selected, environment, trace, process);
      if body.1.None? {
        var saved := SaveVersion(pending[0], table, fault, clock);
        RunVersionsStep(pending, versions, selected, environment, trace, table, log, process, fault, clock);
        FinishedHalt(pending[1..], versions, selected, environment, body.0, saved.0, log + saved.1,
                     process, fault, clock);
      }
    }
  }

  lemma {:induction false} FinishedLedger(
    pending: seq<int>, versions: seq<VersionEntry>, selected: seq<Alias>, environment: Environment,
    trace: seq<Invocation>, table: Repo.Table, log: seq<LogEntry>,
    process: ProcessOracle, fault: int -> Option<string>, clock: int -> Value)
    ensures var k := Finished(pending, versions, selected, environment, trace, process);
            Repo.VersionsOf(RunVersions(pending, versions, selected, environment, trace, table, log, process, fault, clock).ledger)
            == Commit(Repo.VersionsOf(table), pending[..k], fault)
    decreases |pending|
  {
    if pending != [] && RunVersion(pending[0], versions, selected, environment, trace, process).1.None? {
      var body := RunVersion(pending[0], versions, selected, environment, trace, process);
      var saved := SaveVersion(pending[0], table, fault, clock);
      FinishedLedger(pending[1..], versions, selected, environment, body.0, saved.0, log + saved.1,
                     process, fault, clock);
      LedgerStep(pending, versions, selected, environment, trace, table, log, process, fault, clock);
    } else {
      assert Finished(pending, versions, selected, environment, trace, process) == 0;
      assert pending[..0] == [];
    }
  }

  lemma LedgerStep(
    pending: seq<int>, versions: seq<VersionEntry>, selected: seq<Alias>, environment: Environment,
    trace: seq<Invocation>, table: Repo.Table, log: seq<LogEntry>,
    process: ProcessOracle, fault: int -> Option<string>, clock: int -> Value)
    requires pending != []
    requires RunVersion(pending[0], versions, selected, environment, trace, process).1.None?
    requires var body := RunVersion(pending[0], versions, selected, environment, trace, process);
             var saved := SaveVersion(pending[0], table, fault, clock);
             var k := Finished(pending[1..], versions, selected, environment, body.0, process);
             Repo.VersionsOf(RunVersions(pending[1..], versions, selected, environment, body.0, saved.0, log + saved.1, process, fault, clock).ledger)
             == Commit(Repo.VersionsOf(saved.0), pending[1..][..k], fault)
    ensures var k := Finished(pending, versions, selected, environment, trace, process);
            Repo.VersionsOf(RunVersions(pending, versions, selected, environment, trace, table, log, process, fault, clock).ledger)
            == Commit(Repo.VersionsOf(table), pending[..k], fault)
  {
    var body := RunVersion(pending[0], versions, selected, environment, trace, process);
    var k := Finished(pending, versions, selected, environment, trace, process);
    var k' := Finished(pending[1..], versions, selected, environment, body.0, process);
    assert k == k' + 1;
    var saved := SaveVersion(pending[0], table, fault, clock);
    RunVersionsStep(pending, versions, selected, environment, trace, table, log, process, fault, clock);
    CommitCons(Repo.VersionsOf(table), pending, k, fault);
    CommitOne(Repo.VersionsOf(table), pending[0], fault);
  }

  /** Saving one version through `SaveVersion` commits it. */
  lemma CommitOne(applied: seq<int>, v: int, fault: int -> Option<string>)
    ensures Commit(applied, [v], fault) == if v in applied || fault(v).Some? then applied else applied + [v]
  {
    assert [v][1..] == [];
  }

  lemma {:induction false} FinishedTrace(
    pending: seq<int>, versions: seq<VersionEntry>, selected: seq<Alias>, environment: Environment,
    trace: seq<Invocation>, table: Repo.Table, log: seq<LogEntry>,
    process: ProcessOracle, fault: int -> Option<string>, clock: int -> Value)
    ensures var k := Finished(pending, versions, selected, environment, trace, process);
            Extends(trace + PlanOf(pending[..k], versions, selected, environment),
                    RunVersions(pending, versions, selected, environment, trace, table, log, process, fault, clock).trace,
                    if k < |pending| then VersionPlan(pending[k], versions, selected, environment).invocations else [])
    decreases |pending|
  {
    if pending != [] && RunVersion(pending[0], versions, selected, environment, trace, process).1.None? {
      var body := RunVersion(pending[0], versions, selected, environment, trace, process);
      var saved := SaveVersion(pending[0], table, fault, clock);
      FinishedTrace(pending[1..], versions, selected, environment, body.0, saved.0, log + saved.1,
                    process, fault, clock);
      TraceStep(pending, versions, selected, environment, trace, table, log, process, fault, clock, body, saved,
                Finished(pending[1..], versions, selected, environment, body.0, process));
    } else {
      assert Finished(pending, versions, selected, environment, trace, process) == 0;
      assert pending[..0] == [];
    }
  }

  lemma TraceStep(
    pending: seq<int>, versions: seq<VersionEntry>, selected: seq<Alias>, environment: Environment,
    trace: seq<Invocation>, table: Repo.Table, log: seq<LogEntry>,
    process: ProcessOracle, fault: int -> Option<string>, clock: int -> Value,
    body: (seq<Invocation>, Option<Halt>), saved: (Repo.Table, seq<LogEntry>), k': nat)
    requires pending != []
    requires body == RunVersion(pending[0], versions, selected, environment, trace, process)
    requires body.1.None?
    requires saved == SaveVersion(pending[0], table, fault, clock)
    requires k' == Finished(pending[1..], versions, selected, environment, body.0, process)
    requires Extends(body.0 + PlanOf(pending[1..][..k'], versions, selected, environment),
                     RunVersions(pending[1..], versions, selected, environment, body.0, saved.0, log + saved.1,
                                 process, fault, clock).trace,
                     if k' < |pending[1..]| then VersionPlan(pending[1..][k'], versions, selected, environment).invocations
                     else [])
    ensures var k := Finished(pending, versions, selected, environment, trace, process);
            Extends(trace + PlanOf(pending[..k], versions, selected, environment),
                    RunVersions(pending, versions, selected, environment, trace, table, log, process, fault, clock).trace,
                    if k < |pending| then VersionPlan(pending[k], versions, selected, environment).invocations else [])
  {
    var k := Finished(pending, versions, selected, environment, trace, process);
    assert k == k' + 1;
    TracePlanShift(pending, k, k', versions, selected, environment, trace, body.0);
    RunVersionsStep(pending, versions, selected, environment, trace, table, log, process, fault, clock);
  }

  /** The plans of the versions finished after the first, and the next one's plan, seen from the first version on. */
  lemma TracePlanShift(pending: seq<int>, k: nat, k': nat, versions: seq<VersionEntry>, selected: seq<Alias>,
                       environment: Environment, trace: seq<Invocation>, body: seq<Invocation>)
    requires pending != [] && k == k' + 1 && k <= |pending|
    requires body == trace + VersionPlan(pending[0], versions, selected, environment).invocations
    ensures trace + PlanOf(pending[..k], versions, selected, environment)
         == body + PlanOf(pending[1..][..k'], versions, selected, environment)
    ensures (if k < |pending| then VersionPlan(pending[k], versions, selected, environment).invocations else [])
         == (if k' < |pending[1..]| then VersionPlan(pending[1..][k'], versions, selected, environment).invocations else [])
  {
    var p0 := VersionPlan(pending[0], versions, selected, environment).invocations;
    var done := PlanOf(pending[1..][..k'], versions, selected, environment);
    PlanOfCons(pending, k, versions, selected, environment);
    assert PlanOf(pending[..k], versions, selected, environment) == p0 + done;
    ConcatAssoc(trace, p0, done);
    assert k < |pending| ==> pending[k] == pending[1..][k'];
  }

  /**
   * The shape of every run of the version loop: the first `k` versions ran
   * their whole plan and were saved (those whose save did not fail); if the
   * loop halted, it did so inside version `k`, which made a prefix of its
   * plan and was not saved.
   */
  lemma RunVersionsShape(
    pending: seq<int>, versions: seq<VersionEntry>, selected: seq<Alias>, environment: Environment,
    trace: seq<Invocation>, table: Repo.Table, log: seq<LogEntry>,
    process: ProcessOracle, fault: int -> Option<string>, clock: int -> Value)
    returns (k: nat)
    ensures k <= |pending|
    ensures forall i :: 0 <= i < k ==> VersionPlan(pending[i], versions, selected, environment).complete
    ensures Repo.VersionsOf(RunVersions(pending, versions, selected, environment, trace, table, log, process, fault, clock).ledger)
         == Commit(Repo.VersionsOf(table), pending[..k], fault)
    ensures RunVersions(pending, versions, selected, environment, trace, table, log, process, fault, clock).halt.None?
        <==> k == |pending|
    ensures Extends(trace + PlanOf(pending[..k], versions, selected, environment),
                    RunVersions(pending, versions, selected, environment, trace, table, log, process, fault, clock).trace,
                    if k < |pending| then VersionPlan(pending[k], versions, selected, environment).invocations else [])
  {
    k := Finished(pending, versions, selected, environment, trace, process);
    FinishedComplete(pending, versions, selected, environment, trace, process);
    FinishedHalt(pending, versions, selected, environment, trace, table, log, process, fault, clock);
    FinishedLedger(pending, versions, selected, environment, trace, table, log, process, fault, clock);
    FinishedTrace(pending, versions, selected, environment, trace, table, log, process, fault, clock);
  }

  /** A version whose body finishes is saved, and the loop carries on with the rest. */
  lemma RunVersionsStep(
    pending: seq<int>, versions: seq<VersionEntry>, selected: seq<Alias>, environment: Environment,
    trace: seq<Invocation>, table: Repo.Table, log: seq<LogEntry>,
    process: ProcessOracle, fault: int -> Option<string>, clock: int -> Value)
    requires pending != []
    requires RunVersion(pending[0], versions, selected, environment, trace, process).1.None?
    ensures var body := RunVersion(pending[0], versions, selected, environment, trace, process);
            var saved := SaveVersion(pending[0], table, fault, clock);
            RunVersions(pending, versions, selected, environment, trace, table, log, process, fault, clock)
            == RunVersions(pending[1..], versions, selected, environment, body.0, saved.0, log + saved.1,
                           process, fault, clock)
  {
  }

  lemma ConcatAssoc<T>(a: seq<T>, b: seq<T>, c: seq<T>)
    ensures a + (b + c) == (a + b) + c
  {
  }

  lemma PlanOfCons(vs: seq<int>, k: nat, versions: seq<VersionEntry>, selected: seq<Alias>, environment: Environment)
    requires 0 < k <= |vs|
    ensures PlanOf(vs[..k], versions, selected, environment)
         == VersionPlan(vs[0], versions, selected, environment).invocations + PlanOf(vs[1..][..k - 1], versions, selected, environment)
  {
    assert vs[..k][1..] == vs[1..][..k - 1];
  }

  lemma CommitCons(applied: seq<int>, vs: seq<int>, k: nat, fault: int -> Option<string>)
    requires 0 < k <= |vs|
    ensures Commit(applied, vs[..k], fault) == Commit(Commit(applied, [vs[0]], fault), vs[1..][..k - 1], fault)
  {
    assert vs[..k][1..] == vs[1..][..k - 1];
    assert [vs[0]][1..] == [];
  }

  // ---------------------------------------------------------------------------
  // The run

  /** `array_column($items, 'version')`: the integer version of every item that has one, in order. */
  function VersionColumn(items: seq<Record>): (vs: seq<int>)
    ensures |vs| <= |items|
  {
    if items == [] then []
    else match Get(items[0], Versioning.VersionKey)
      case Some(Int(v)) => [v] + VersionColumn(items[1..])
      case _ => VersionColumn(items[1..])
  }

  lemma {:induction false} VersionColumnOf(items: seq<Record>, table: Repo.Table)
    requires |items| == |table|
    requires forall i :: 0 <= i < |table| ==> Get(items[i], Versioning.VersionKey) == Some(Int(table[i].version))
    ensures VersionColumn(items) == Repo.VersionsOf(table)
  {
    if items != [] {
      VersionColumnOf(items[1..], table[1..]);
    }
  }

  /**
   * What `getVersions` reads back, listing the ledger with empty criteria
   * and taking the `version` column, is the ledger's versions in key order,
   * whatever the database does with filters and sort orders.
   */
  lemma ListedVersions(
    table: Repo.Table,
    holds: (string, Value, Value) -> bool,
    sort: (Repo.Table, seq<(string, Repo.Direction)>) -> Repo.Table)
    ensures VersionColumn(Repo.GetList(table, Repo.EmptyCriteria, holds, sort).items) == Listed(table)
  {
    Repo.ListAllVersions(table, holds, sort);
    VersionColumnOf(Repo.GetList(table, Repo.EmptyCriteria, holds, sort).items, Repo.KeyOrder(table));
  }

  /** `$versionsDatabase`: the ledger's versions as the listing returns them, ascending. */
  function Listed(table: Repo.Table): seq<int>
  {
    Repo.VersionsOf(Repo.KeyOrder(table))
  }

  /** `getMasterYaml`'s validation: a failure is only logged. */
  function ValidationLog(doc: Document, registry: set<Alias>): (log: seq<LogEntry>)
    ensures log == [] <==> Validate(doc, registry).None?
    ensures log != [] ==> log == [MasterInvalid(Validate(doc, registry).value)]
  {
    match Validate(doc, registry)
    case None => []
    case Some(e) => [MasterInvalid(e)]
  }

  /** `getMasterYaml`: the parsed document is returned whatever validation found. */
  function LoadMaster(doc: Document, registry: set<Alias>): (r: (Document, seq<LogEntry>))
    ensures r.0 == doc
    ensures r.1 == [] <==> Validate(doc, registry).None?
  {
    (doc, ValidationLog(doc, registry))
  }

  /**
   * The pending versions of a run. `in_array` only asks whether a version is
   * listed, so the table's own order serves as well as the listing's.
   */
  function PendingOf(doc: Document, table: Repo.Table): seq<int>
  {
    Pending(VersionKeys(Versions(doc)), Repo.VersionsOf(table))
  }

  /** The pending versions are the master keys missing from the listing `getVersions` reads. */
  lemma PendingOfListing(doc: Document, table: Repo.Table)
    ensures PendingOf(doc, table) == Pending(VersionKeys(Versions(doc)), Listed(table))
  {
    Repo.KeyOrderSameVersions(table);
    PendingSameMembers(VersionKeys(Versions(doc)), Repo.VersionsOf(table), Listed(table));
  }

  lemma {:induction false} PendingSameMembers(keys: seq<int>, a: seq<int>, b: seq<int>)
    requires forall v :: v in a <==> v in b
    ensures Pending(keys, a) == Pending(keys, b)
  {
    if keys != [] {
      PendingSameMembers(keys[1..], a, b);
    }
  }

  /** The missing versions of a run; only meaningful when something is pending. */
  function MissingOf(doc: Document, table: Repo.Table): seq<int>
  {
    var keys := VersionKeys(Versions(doc));
    if keys == [] then []
    else Missing(PendingOf(doc, table), keys[|keys| - 1], LastOf(Listed(table)))
  }

  /** The components the run is restricted to, as the command adds them. */
  function Selected(context: Context): seq<Alias>
  {
    Requested(context.components)
  }

  /** The run gets past `getVersions`: something is pending, and nothing older is missing or force is set. */
  predicate Dispatches(doc: Document, table: Repo.Table, context: Context)
  {
    PendingOf(doc, table) != [] && (MissingOf(doc, table) == [] || context.force)
  }

  /** The version loop of a run that gets past `getVersions`; the dispatch reads the master document again. */
  function Dispatch(doc: Document, registry: set<Alias>, table: Repo.Table, context: Context,
                    process: ProcessOracle, fault: int -> Option<string>, clock: int -> Value): (r: Progress)
    ensures IsPrefix(ValidationLog(doc, registry) + ValidationLog(doc, registry), r.log)
    ensures r.halt.None? <==>
              Finished(PendingOf(doc, table), Versions(doc), Selected(context), context.environment, [], process)
              == |PendingOf(doc, table)|
  {
    var log := LoadMaster(doc, registry).1 + LoadMaster(doc, registry).1;
    FinishedHalt(PendingOf(doc, table), Versions(doc), Selected(context), context.environment,
                 [], table, log, process, fault, clock);
    RunVersions(PendingOf(doc, table), Versions(doc), Selected(context), context.environment,
                [], table, log, process, fault, clock)
  }

  /**
   * `run()`. `registry` is what the component lookup resolves, `process`
   * the components' behaviour, `fault` the storage failures of ledger saves
   * and `clock` the update time written for a version.
   */
  function Run(doc: Document, registry: set<Alias>, table: Repo.Table, context: Context,
               process: ProcessOracle, fault: int -> Option<string>, clock: int -> Value)
    : (r: RunResult)
    requires context.environment != ""
    ensures PendingOf(doc, table) == [] ==> r.status == NothingPending && r.trace == [] && r.ledger == table
    ensures IsPrefix(ValidationLog(doc, registry), r.log)
  {
    var loaded := LoadMaster(doc, registry);
    var pending := PendingOf(doc, table);
    if pending == [] then RunResult([], table, loaded.1 + [NoNewVersions], NothingPending)
    else
      var missing := MissingOf(doc, table);
      if missing != [] && !context.force then
        RunResult([], table, loaded.1 + [OlderVersionsNotApplied(missing)], Blocked(missing))
      else
        var p := Dispatch(doc, registry, table, context, process, fault, clock);
        assert (loaded.1 + loaded.1)[..|loaded.1|] == loaded.1;
        PrefixTransitive(loaded.1, loaded.1 + loaded.1, p.log);
        RunResult(p.trace, p.ledger, p.log, StatusOf(p.halt))
  }

  /** How a dispatched run ends: a foreign exception escapes, any other halt is a logged stop. */
  function StatusOf(halt: Option<Halt>): (s: Status)
    ensures s == Completed <==> halt.None?
    ensures s.Escaped? <==> halt.Some? && halt.value.Raised? && halt.value.thrown.OtherException?
  {
    match halt
    case None => Completed
    case Some(h) => if h.Raised? && h.thrown.OtherException? then Escaped(h.thrown) else Stopped(h)
  }

  /**
   * The gate: a run with something pending is blocked exactly when older
   * versions are missing and `force` is off, and a blocked run runs and
   * records nothing.
   */
  lemma RunGate(doc: Document, registry: set<Alias>, table: Repo.Table, context: Context,
                process: ProcessOracle, fault: int -> Option<string>, clock: int -> Value)
    requires context.environment != ""
    ensures var r := Run(doc, registry, table, context, process, fault, clock);
            r.status.Blocked? <==> PendingOf(doc, table) != [] && MissingOf(doc, table) != [] && !context.force
    ensures var r := Run(doc, registry, table, context, process, fault, clock);
            r.status.Blocked? ==> r.trace == [] && r.ledger == table && r.status.missing == MissingOf(doc, table)
  {
    if PendingOf(doc, table) != [] && !(MissingOf(doc, table) != [] && !context.force) {
      var p := Dispatch(doc, registry, table, context, process, fault, clock);
      assert !Run(doc, registry, table, context, process, fault, clock).status.Blocked?;
    }
  }

  /** Past the gate, the run's trace and ledger are the version loop's, and it completes exactly when the loop does not halt. */
  lemma RunDispatches(doc: Document, registry: set<Alias>, table: Repo.Table, context: Context,
                      process: ProcessOracle, fault: int -> Option<string>, clock: int -> Value)
    requires context.environment != ""
    requires Dispatches(doc, table, context)
    ensures var r := Run(doc, registry, table, context, process, fault, clock);
            var p := Dispatch(doc, registry, table, context, process, fault, clock);
            && r.trace == p.trace
            && r.ledger == p.ledger
            && (r.status == Completed <==> p.halt.None?)
  {
    var p := Dispatch(doc, registry, table, context, process, fault, clock);
    assert Run(doc, registry, table, context, process, fault, clock) == RunResult(p.trace, p.ledger, p.log, StatusOf(p.halt));
  }

  /**
   * The shape of a run past the gate: the first `k` pending versions ran
   * their whole plan, in pending order, and were recorded unless their save
   * failed; the run completes exactly when `k` covers every pending version,
   * and otherwise stopped inside version `k` after a prefix of its plan.
   */
  lemma RunShape(doc: Document, registry: set<Alias>, table: Repo.Table, context: Context,
                 process: ProcessOracle, fault: int -> Option<string>, clock: int -> Value)
    returns (k: nat)
    requires context.environment != ""
    requires Dispatches(doc, table, context)
    ensures k <= |PendingOf(doc, table)|
    ensures forall i :: 0 <= i < k ==>
              VersionPlan(PendingOf(doc, table)[i], Versions(doc), Selected(context), context.environment).complete
    ensures Repo.VersionsOf(Run(doc, registry, table, context, process, fault, clock).ledger)
         == Commit(Repo.VersionsOf(table), PendingOf(doc, table)[..k], fault)
    ensures Run(doc, registry, table, context, process, fault, clock).status == Completed
        <==> k == |PendingOf(doc, table)|
    ensures Extends(PlanOf(PendingOf(doc, table)[..k], Versions(doc), Selected(context), context.environment),
                    Run(doc, registry, table, context, process, fault, clock).trace,
                    if k < |PendingOf(doc, table)|
                    then VersionPlan(PendingOf(doc, table)[k], Versions(doc), Selected(context), context.environment).invocations
                    else [])
  {
    var log := LoadMaster(doc, registry).1 + LoadMaster(doc, registry).1;
    var pending := PendingOf(doc, table);
    RunDispatches(doc, registry, table, context, process, fault, clock);
    k := RunVersionsShape(pending, Versions(doc), Selected(context), context.environment, [], table, log,
                          process, fault, clock);
    assert [] + PlanOf(pending[..k], Versions(doc), Selected(context), context.environment)
        == PlanOf(pending[..k], Versions(doc), Selected(context), context.environment);
  }

  /**
   * With master keys distinct, as the keys of a PHP array are, the ledger
   * gains exactly the versions the run got through whose save did not fail,
   * and the version in flight when a run stopped is never recorded.
   */
  lemma RunRecordsFinishedVersions(doc: Document, registry: set<Alias>, table: Repo.Table, context: Context,
                                   process: ProcessOracle, fault: int -> Option<string>, clock: int -> Value)
    returns (k: nat)
    requires context.environment != ""
    requires Dispatches(doc, table, context)
    requires NoDuplicates(VersionKeys(Versions(doc)))
    ensures k <= |PendingOf(doc, table)|
    ensures Run(doc, registry, table, context, process, fault, clock).status == Completed
        <==> k == |PendingOf(doc, table)|
    ensures Repo.VersionsOf(Run(doc, registry, table, context, process, fault, clock).ledger)
         == Repo.VersionsOf(table) + Saveable(PendingOf(doc, table)[..k], fault)
    ensures k < |PendingOf(doc, table)| ==>
              PendingOf(doc, table)[k] !in Repo.VersionsOf(Run(doc, registry, table, context, process, fault, clock).ledger)
  {
    k := RunShape(doc, registry, table, context, process, fault, clock);
    CommitPending(Repo.VersionsOf(table), PendingOf(doc, table), k, fault);
  }

  /**
   * Committing the first `k` of distinct versions the ledger lacks appends
   * the saveable ones, and leaves the `k`-th version out of the ledger.
   */
  lemma CommitPending(applied: seq<int>, pending: seq<int>, k: nat, fault: int -> Option<string>)
    requires k <= |pending|
    requires NoDuplicates(pending)
    requires forall v :: v in pending ==> v !in applied
    ensures Commit(applied, pending[..k], fault) == applied + Saveable(pending[..k], fault)
    ensures k < |pending| ==> pending[k] !in applied + Saveable(pending[..k], fault)
  {
    NoDuplicatesPrefix(pending, k);
    assert forall v :: v in pending[..k] ==> v !in applied by {
      forall v | v in pending[..k] ensures v !in applied {
        assert v in pending;
      }
    }
    CommitFresh(applied, pending[..k], fault);
    if k < |pending| {
      var x := pending[k];
      assert x in pending;
      assert x !in applied;
      assert x !in Saveable(pending[..k], fault);
    }
  }


  /** A version whose plan is complete finishes whenever no component throws. */
  lemma {:induction false} FinishedAll(
    pending: seq<int>, versions: seq<VersionEntry>, selected: seq<Alias>, environment: Environment,
    trace: seq<Invocation>, process: ProcessOracle)
    requires forall t, c :: process(t, c).None?
    requires forall v :: v in pending ==> VersionPlan(v, versions, selected, environment).complete
    ensures Finished(pending, versions, selected, environment, trace, process) == |pending|
    decreases |pending|
  {
    if pending != [] {
      var body := RunVersion(pending[0], versions, selected, environment, trace, process);
      assert body.1.None?;
      FinishedAll(pending[1..], versions, selected, environment, body.0, process);
    }
  }

  /**
   * When no component throws and every pending version defines what the run
   * asks for, the run completes, makes exactly the planned invocations and
   * records every pending version whose save does not fail.
   */
  lemma QuietRunCompletes(doc: Document, registry: set<Alias>, table: Repo.Table, context: Context,
                          process: ProcessOracle, fault: int -> Option<string>, clock: int -> Value)
    requires context.environment != ""
    requires Dispatches(doc, table, context)
    requires forall t, c :: process(t, c).None?
    requires forall v :: v in PendingOf(doc, table) ==>
               VersionPlan(v, Versions(doc), Selected(context), context.environment).complete
    ensures Run(doc, registry, table, context, process, fault, clock).status == Completed
    ensures Run(doc, registry, table, context, process, fault, clock).trace
         == PlanOf(PendingOf(doc, table), Versions(doc), Selected(context), context.environment)
    ensures Repo.VersionsOf(Run(doc, registry, table, context, process, fault, clock).ledger)
         == Commit(Repo.VersionsOf(table), PendingOf(doc, table), fault)
  {
    var log := LoadMaster(doc, registry).1 + LoadMaster(doc, registry).1;
    RunDispatches(doc, registry, table, context, process, fault, clock);
    QuietLoop(PendingOf(doc, table), Versions(doc), Selected(context), context.environment, table, log,
              process, fault, clock);
  }

  /** The version loop with no component throwing and every plan complete. */
  lemma QuietLoop(pending: seq<int>, versions: seq<VersionEntry>, selected: seq<Alias>, environment: Environment,
                  table: Repo.Table, log: seq<LogEntry>,
                  process: ProcessOracle, fault: int -> Option<string>, clock: int -> Value)
    requires forall t, c :: process(t, c).None?
    requires forall v :: v in pending ==> VersionPlan(v, versions, selected, environment).complete
    ensures var p := RunVersions(pending, versions, selected, environment, [], table, log, process, fault, clock);
            && p.halt.None?
            && p.trace == PlanOf(pending, versions, selected, environment)
            && Repo.VersionsOf(p.ledger) == Commit(Repo.VersionsOf(table), pending, fault)
  {
    var p := RunVersions(pending, versions, selected, environment, [], table, log, process, fault, clock);
    FinishedAll(pending, versions, selected, environment, [], process);
    FinishedHalt(pending, versions, selected, environment, [], table, log, process, fault, clock);
    var k := RunVersionsShape(pending, versions, selected, environment, [], table, log, process, fault, clock);
    assert k == |pending| && pending[..k] == pending;
    assert [] + PlanOf(pending, versions, selected, environment) == PlanOf(pending, versions, selected, environment);
    ExtendsNothing(PlanOf(pending, versions, selected, environment), p.trace);
  }

  /**
   * The version loop's invocations, ledger and halt do not depend on what
   * was logged before it.
   */
  lemma {:induction false} RunVersionsIgnoresLog(
    pending: seq<int>, versions: seq<VersionEntry>, selected: seq<Alias>, environment: Environment,
    trace: seq<Invocation>, table: Repo.Table, log1: seq<LogEntry>, log2: seq<LogEntry>,
    process: ProcessOracle, fault: int -> Option<string>, clock: int -> Value)
    ensures var r1 := RunVersions(pending, versions, selected, environment, trace, table, log1, process, fault, clock);
            var r2 := RunVersions(pending, versions, selected, environment, trace, table, log2, process, fault, clock);
            r1.trace == r2.trace && r1.ledger == r2.ledger && r1.halt == r2.halt
    decreases |pending|
  {
    if pending != [] {
      var body := RunVersion(pending[0], versions, selected, environment, trace, process);
      if body.1.None? {
        var saved := SaveVersion(pending[0], table, fault, clock);
        RunVersionsStep(pending, versions, selected, environment, trace, table, log1, process, fault, clock);
        RunVersionsStep(pending, versions, selected, environment, trace, table, log2, process, fault, clock);
        RunVersionsIgnoresLog(pending[1..], versions, selected, environment, body.0, saved.0,
                              log1 + saved.1, log2 + saved.1, process, fault, clock);
      }
    }
  }

  /**
   * Validation only logs: whatever the component lookup resolves, a run
   * makes the same invocations, leaves the same ledger and ends the same way.
   */
  lemma ValidationOnlyLogs(doc: Document, registry1: set<Alias>, registry2: set<Alias>, table: Repo.Table,
                           context: Context, process: ProcessOracle, fault: int -> Option<string>, clock: int -> Value)
    requires context.environment != ""
    ensures Run(doc, registry1, table, context, process, fault, clock).trace
         == Run(doc, registry2, table, context, process, fault, clock).trace
    ensures Run(doc, registry1, table, context, process, fault, clock).ledger
         == Run(doc, registry2, table, context, process, fault, clock).ledger
    ensures Run(doc, registry1, table, context, process, fault, clock).status
         == Run(doc, registry2, table, context, process, fault, clock).status
  {
    if Dispatches(doc, table, context) {
      var log1 := LoadMaster(doc, registry1).1 + LoadMaster(doc, registry1).1;
      var log2 := LoadMaster(doc, registry2).1 + LoadMaster(doc, registry2).1;
      RunVersionsIgnoresLog(PendingOf(doc, table), Versions(doc), Selected(context), context.environment,
                            [], table, log1, log2, process, fault, clock);
      var p1 := Dispatch(doc, registry1, table, context, process, fault, clock);
      var p2 := Dispatch(doc, registry2, table, context, process, fault, clock);
      assert p1.trace == p2.trace && p1.ledger == p2.ledger && p1.halt == p2.halt;
    }
  }

  /** A component whose `enabled` node says false runs exactly as one that says true. */
  lemma EnabledIgnored(v: int, alias: Alias, config: Config, enabled: Option<bool>, environment: Environment,
                       trace: seq<Invocation>, process: ProcessOracle)
    ensures RunComponent(v, alias, config.(enabled := enabled), environment, trace, process)
         == RunComponent(v, alias, config, environment, trace, process)
  {
  }

  /**
   * Master versions 1, 2 and 3 against a ledger holding 1 and 3: version 2
   * is pending and older than both latest versions, so without force the run
   * is blocked before any component runs.
   */
  lemma OlderVersionBlocks(process: ProcessOracle, fault: int -> Option<string>, clock: int -> Value)
    ensures var doc := Document([(VersionsKey, [(1, []), (2, []), (3, [])])]);
            var table := [Repo.Row(1, Null), Repo.Row(3, Null)];
            var r := Run(doc, {}, table, Context("production", [], false), process, fault, clock);
            r.status == Blocked([2]) && r.trace == [] && r.ledger == table
  {
    var doc := Document([(VersionsKey, [(1, []), (2, []), (3, [])])]);
    var table := [Repo.Row(1, Null), Repo.Row(3, Null)];
    OlderVersionMissing(doc, table);
    RunGate(doc, {}, table, Context("production", [], false), process, fault, clock);
  }

  lemma OlderVersionMissing(doc: Document, table: Repo.Table)
    requires doc == Document([(VersionsKey, [(1, []), (2, []), (3, [])])])
    requires table == [Repo.Row(1, Null), Repo.Row(3, Null)]
    ensures PendingOf(doc, table) == [2] && MissingOf(doc, table) == [2]
  {
    MasterKeysThree(doc);
    assert Repo.VersionsOf(table) == [1, 3];
    PendingOfThree();
    ListedInOrder(table);
    assert Missing([2], 3, Some(3)) == [2];
  }

  lemma MasterKeysThree(doc: Document)
    requires doc == Document([(VersionsKey, [(1, []), (2, []), (3, [])])])
    ensures VersionKeys(Versions(doc)) == [1, 2, 3]
  {
  }

  /** A ledger that recorded 1 and then 3 is listed as recorded. */
  lemma ListedInOrder(table: Repo.Table)
    requires table == [Repo.Row(1, Null), Repo.Row(3, Null)]
    ensures Listed(table) == [1, 3]
  {
    assert Repo.KeyOrder(table[1..]) == table[1..];
    assert Repo.KeyOrder(table) == table;
  }

  lemma PendingOfThree()
    ensures Pending([1, 2, 3], [1, 3]) == [2]
  {
    var keys: seq<int> := [1, 2, 3];
    assert keys[1..] == [2, 3] && keys[1..][1..] == [3] && keys[1..][1..][1..] == [];
    assert Pending([3], [1, 3]) == [];
  }

  /**
   * The latest applied version is the greatest one, not the last one
   * recorded: master versions 1 to 5 against a ledger that recorded 1, 4 and
   * then 2 (a forced run) leave 3 and 5 pending, and 3 is older than the
   * latest applied version 4, so without force the run is blocked.
   */
  lemma InsertionOrderIgnored(process: ProcessOracle, fault: int -> Option<string>, clock: int -> Value)
    ensures var doc := Document([(VersionsKey, [(1, []), (2, []), (3, []), (4, []), (5, [])])]);
            var table := [Repo.Row(1, Null), Repo.Row(4, Null), Repo.Row(2, Null)];
            var r := Run(doc, {}, table, Context("production", [], false), process, fault, clock);
            r.status == Blocked([3]) && r.trace == [] && r.ledger == table
  {
    var doc := Document([(VersionsKey, [(1, []), (2, []), (3, []), (4, []), (5, [])])]);
    var table := [Repo.Row(1, Null), Repo.Row(4, Null), Repo.Row(2, Null)];
    GreatestAppliedVersion(doc, table);
    RunGate(doc, {}, table, Context("production", [], false), process, fault, clock);
  }

  lemma GreatestAppliedVersion(doc: Document, table: Repo.Table)
    requires doc == Document([(VersionsKey, [(1, []), (2, []), (3, []), (4, []), (5, [])])])
    requires table == [Repo.Row(1, Null), Repo.Row(4, Null), Repo.Row(2, Null)]
    ensures PendingOf(doc, table) == [3, 5] && MissingOf(doc, table) == [3]
  {
    MasterKeysFive(doc);
    assert Repo.VersionsOf(table) == [1, 4, 2];
    ListedAscending(table);
    PendingOfFive();
    MissingOfFive();
  }

  lemma MissingOfFive()
    ensures Missing([3, 5], 5, Some(4)) == [3]
  {
    assert Missing([5], 5, Some(4)) == [];
  }

  lemma MasterKeysFive(doc: Document)
    requires doc == Document([(VersionsKey, [(1, []), (2, []), (3, []), (4, []), (5, [])])])
    ensures VersionKeys(Versions(doc)) == [1, 2, 3, 4, 5]
  {
  }

  lemma PendingOfFive()
    ensures Pending([1, 2, 3, 4, 5], [1, 4, 2]) == [3, 5]
  {
    var keys: seq<int> := [1, 2, 3, 4, 5];
    assert keys[1..] == [2, 3, 4, 5] && keys[2..] == [3, 4, 5] && keys[3..] == [4, 5] && keys[4..] == [5];
    assert Pending([5], [1, 4, 2]) == [5];
    assert Pending([4, 5], [1, 4, 2]) == [5];
    assert Pending([3, 4, 5], [1, 4, 2]) == [3, 5];
  }

  /** A ledger that recorded 1, 4 and 2 is listed as 1, 2, 4. */
  lemma ListedAscending(table: Repo.Table)
    requires table == [Repo.Row(1, Null), Repo.Row(4, Null), Repo.Row(2, Null)]
    ensures Listed(table) == [1, 2, 4]
  {
    assert Repo.KeyOrder(table[2..]) == [Repo.Row(2, Null)];
    assert Repo.KeyOrder(table[1..]) == [Repo.Row(2, Null), Repo.Row(4, Null)];
    assert Repo.KeyOrder(table) == [Repo.Row(1, Null), Repo.Row(2, Null), Repo.Row(4, Null)];
  }

  /** With an empty ledger nothing counts as missing, since `end()` of it is `false`. */
  lemma EmptyLedgerMissesNothing(doc: Document)
    ensures MissingOf(doc, []) == []
  {
  }
}
