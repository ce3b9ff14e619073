/**
 * The master document (`app/etc/master.yaml`) after parsing: top-level nodes,
 * of which `versions` maps version numbers to ordered component sets, and the
 * validation the processor applies to it.
 */
module Master {
  import opened Wrappers
  import opened Seqs

  type Alias = string
  type Source = string
  type Environment = string

  /**
   * One component entry of a version. An absent `sources` list or `env` map
   * behaves exactly like an empty one everywhere it is read, so both are
   * plain sequences; `enabled` is optional because its presence is checked.
   */
  datatype Config = Config(
    enabled: Option<bool>,
    sources: seq<Source>,
    env: seq<(Environment, seq<Source>)>)

  /** The components of one version, in declaration order. */
  type Components = seq<(Alias, Config)>

  type VersionEntry = (int, Components)

  /** The parsed document: every top-level node, in file order. */
  datatype Document = Document(nodes: seq<(string, seq<VersionEntry>)>)

  const VersionsKey: string := "versions"

  /** `$master['versions']`, if the node exists. */
  function VersionsNode(doc: Document): (r: Option<seq<VersionEntry>>)
    ensures r.Some? <==> exists i :: 0 <= i < |doc.nodes| && doc.nodes[i].0 == VersionsKey
  {
    Lookup(doc.nodes, VersionsKey)
  }

  /** The version entries the processor iterates; a document without the node has none. */
  function Versions(doc: Document): seq<VersionEntry>
  {
    VersionsNode(doc).GetOr([])
  }

  /** `array_keys($master['versions'])`, in file order. */
  function VersionKeys(versions: seq<VersionEntry>): seq<int>
  {
    Keys(versions)
  }

  /** `$master['versions'][$version]`. */
  function ComponentsOf(versions: seq<VersionEntry>, v: int): (r: Option<Components>)
    ensures r.Some? <==> v in VersionKeys(versions)
  {
    if versions == [] then None
    else if versions[0].0 == v then Some(versions[0].1)
    else ComponentsOf(versions[1..], v)
  }

  /** `$master['versions'][$version][$alias]`. */
  function ConfigOf(components: Components, alias: Alias): Option<Config>
  {
    Lookup(components, alias)
  }

  /** `$componentConfig['env'][$environment]['sources']`, or nothing. */
  function EnvSources(config: Config, environment: Environment): seq<Source>
  {
    EnvSourcesIn(config.env, environment)
  }

  function EnvSourcesIn(env: seq<(Environment, seq<Source>)>, environment: Environment): (r: seq<Source>)
    ensures (forall i :: 0 <= i < |env| ==> env[i].0 != environment) ==> r == []
    ensures forall i :: (0 <= i < |env| && env[i].0 == environment &&
                         (forall j :: 0 <= j < i ==> env[j].0 != environment)) ==> r == env[i].1
  {
    if env == [] then []
    else if env[0].0 == environment then env[0].1
    else EnvSourcesIn(env[1..], environment)
  }

  /** Every source a component's loop counts: generic ones plus those of every environment. */
  function SourceCount(config: Config): nat
  {
    |config.sources| + EnvSourceCount(config.env)
  }

  function EnvSourceCount(env: seq<(Environment, seq<Source>)>): nat
  {
    if env == [] then 0 else |env[0].1| + EnvSourceCount(env[1..])
  }

  lemma {:induction false} EnvSourceCountPositive(env: seq<(Environment, seq<Source>)>)
    ensures EnvSourceCount(env) >= 1 <==> exists i :: 0 <= i < |env| && env[i].1 != []
  {
    if env != [] {
      EnvSourceCountPositive(env[1..]);
      if EnvSourceCount(env[1..]) >= 1 {
        var i :| 0 <= i < |env[1..]| && env[1..][i].1 != [];
        assert env[i + 1].1 != [];
      }
      if exists i :: 1 <= i < |env| && env[i].1 != [] {
        var i :| 1 <= i < |env| && env[i].1 != [];
        assert env[1..][i - 1].1 != [];
      }
    }
  }

  /**
   * The source count is at least one exactly when some source is listed,
   * generically or under any environment, whichever environment will run.
   */
  lemma SourceCountPositive(config: Config)
    ensures SourceCount(config) >= 1 <==>
      config.sources != [] || exists i :: 0 <= i < |config.env| && config.env[i].1 != []
  {
    EnvSourceCountPositive(config.env);
  }

  datatype ValidationError =
    | NoVersionsNode
    | NoEnabledNode(alias: Alias)
    | NoSources(alias: Alias)
    | InvalidComponent(alias: Alias)

  /**
   * The three checks on one component, in the order the validator makes them.
   * `registry` holds the aliases that resolve to a component class whose
   * instance is a component.
   */
  function CheckComponent(alias: Alias, config: Config, registry: set<Alias>): (r: Option<ValidationError>)
    ensures r == None <==> config.enabled.Some? && SourceCount(config) >= 1 && alias in registry
    ensures r.Some? ==> !r.value.NoVersionsNode? && r.value.alias == alias
  {
    if config.enabled.None? then Some(NoEnabledNode(alias))
    else if SourceCount(config) < 1 then Some(NoSources(alias))
    else if alias !in registry then Some(InvalidComponent(alias))
    else None
  }

  /**
   * Every component entry the validator visits: it walks every top-level
   * node (not only `versions`), every version in it, every component.
   */
  function AllComponents(doc: Document): Components
  {
    NodesComponents(doc.nodes)
  }

  function NodesComponents(nodes: seq<(string, seq<VersionEntry>)>): Components
  {
    if nodes == [] then [] else VersionsComponents(nodes[0].1) + NodesComponents(nodes[1..])
  }

  function VersionsComponents(versions: seq<VersionEntry>): Components
  {
    if versions == [] then [] else versions[0].1 + VersionsComponents(versions[1..])
  }

  /** The position of the first component that fails a check. */
  function FirstFailing(components: Components, registry: set<Alias>): (r: Option<nat>)
    ensures r.Some? ==>
              && r.value < |components|
              && CheckComponent(components[r.value].0, components[r.value].1, registry).Some?
              && forall j :: 0 <= j < r.value ==> CheckComponent(components[j].0, components[j].1, registry).None?
    ensures r.None? ==> forall j :: 0 <= j < |components| ==> CheckComponent(components[j].0, components[j].1, registry).None?
  {
    if components == [] then None
    else if CheckComponent(components[0].0, components[0].1, registry).Some? then Some(0)
    else match FirstFailing(components[1..], registry)
      case None => None
      case Some(i) => Some(i + 1)
  }

  /**
   * `validateMasterYaml`: the error it logs, if any. Validation stops at the
   * first failure, so the error is the `versions` node being absent or the
   * first failing component in traversal order.
   */
  function Validate(doc: Document, registry: set<Alias>): (r: Option<ValidationError>)
    ensures r == None <==>
              && VersionsNode(doc).Some?
              && forall j :: 0 <= j < |AllComponents(doc)| ==>
                   CheckComponent(AllComponents(doc)[j].0, AllComponents(doc)[j].1, registry) == None
    ensures VersionsNode(doc).None? ==> r == Some(NoVersionsNode)
    ensures VersionsNode(doc).Some? && r.Some? ==>
              exists i ::
                && 0 <= i < |AllComponents(doc)|
                && r == CheckComponent(AllComponents(doc)[i].0, AllComponents(doc)[i].1, registry)
                && forall j :: 0 <= j < i ==>
                     CheckComponent(AllComponents(doc)[j].0, AllComponents(doc)[j].1, registry) == None
  {
    if VersionsNode(doc).None? then Some(NoVersionsNode)
    else
      var cs := AllComponents(doc);
      match FirstFailing(cs, registry)
      case None => None
      case Some(i) => CheckComponent(cs[i].0, cs[i].1, registry)
  }
}
