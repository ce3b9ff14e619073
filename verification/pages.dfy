/**
 * The CMS pages component: for every identifier, every `page` entry is
 * resolved to an existing page or a new one, checked for its required
 * field, completed with defaults, written attribute by attribute only where
 * the stored value differs, assigned to stores and saved if anything
 * changed.
 *
 * The page table is a sequence of page data arrays whose ids are positions
 * counted from one; a new page is appended. `checkIdentifier` (the page
 * lookup by identifier and store) and the source-file reader are oracles.
 */
module Pages {
  import opened Wrappers
  import opened Values

  const TitleKey: string := "title"
  const PageLayoutKey: string := "page_layout"
  const IsActiveKey: string := "is_active"
  const SourceKey: string := "source"
  const ContentKey: string := "content"
  const StoresKey: string := "stores"
  const PageKey: string := "page"
  const IdentifierKey: string := "identifier"
  const StoreIdKey: string := "store_id"
  const StoreDataKey: string := "store_data"

  /** The default store every page is assigned to when no stores are listed. */
  const AdminStore: nat := 0

  /** Defaults for absent keys, in the order they are added. */
  const DefaultValues: Record := [(PageLayoutKey, Str("empty")), (IsActiveKey, Str("1"))]

  /** A page entity: its id once it has one, its data, and whether the data changed since it was loaded. */
  datatype Page = Page(id: Option<nat>, data: Record, changed: bool)

  /** Saved pages; the page with id `i` is at position `i - 1`. */
  type PageTable = seq<Record>

  datatype PageError =
    | NoSuchStore(code: Value)
    | NoSuchPage(id: nat)
    | RequiredMissing(message: string)

  /**
   * What lies outside the component: store codes known to the store
   * repository, the page lookup by identifier and store id (0 when none),
   * and the contents of a source file.
   */
  datatype Env = Env(
    stores: map<Value, nat>,
    checkIdentifier: (PageTable, string, nat) -> nat,
    readSource: Value -> Value)

  // ---------------------------------------------------------------------------
  // Field rules

  /** `checkRequiredFields`: the error thrown for the first absent required key. */
  function CheckRequiredFields(entry: Record): (r: Option<string>)
    ensures r.None? <==> HasKey(entry, TitleKey)
    ensures r.Some? ==> r.value == "Required Data Missing title"
  {
    if HasKey(entry, TitleKey) then None else Some("Required Data Missing " + TitleKey)
  }

  /** `setDefaultFields`: every default whose key is absent is appended; nothing present is touched. */
  function SetDefaultFields(entry: Record): (r: Record)
    ensures |r| >= |entry| && r[..|entry|] == entry
    ensures forall k :: HasKey(entry, k) ==> Get(r, k) == Get(entry, k)
    ensures forall i :: 0 <= i < |DefaultValues| && !HasKey(entry, DefaultValues[i].0) ==>
              Get(r, DefaultValues[i].0) == Some(DefaultValues[i].1)
    ensures forall k :: HasKey(r, k) <==> HasKey(entry, k) || k == PageLayoutKey || k == IsActiveKey
    ensures forall k :: k != PageLayoutKey && k != IsActiveKey ==> Get(r, k) == Get(entry, k)
  {
    var r := WithDefaults(entry, DefaultValues);
    assert forall k :: k != PageLayoutKey && k != IsActiveKey ==> Get(DefaultValues, k) == None;
    r
  }

  /** Completing an entry with defaults twice is the same as once. */
  lemma SetDefaultFieldsIdempotent(entry: Record)
    ensures SetDefaultFields(SetDefaultFields(entry)) == SetDefaultFields(entry)
  {
    var once := SetDefaultFields(entry);
    assert HasKey(once, PageLayoutKey) && HasKey(once, IsActiveKey);
    assert DefaultValues[1..] == [(IsActiveKey, Str("1"))];
    assert DefaultValues[1..][1..] == [];
    assert WithDefaults(once, DefaultValues[1..][1..]) == once;
    assert WithDefaults(once, DefaultValues[1..]) == once;
  }

  // ---------------------------------------------------------------------------
  // The page entity

  /** `$page->getData($key) != $value` guarding `$page->setData($key, $value)`. */
  function SetData(page: Page, key: string, value: Value): (r: Page)
    ensures ValueAt(r.data, key) == value
    ensures forall k :: k != key ==> Get(r.data, k) == Get(page.data, k)
    ensures r.id == page.id
    ensures r.changed <==> page.changed || ValueAt(page.data, key) != value
    ensures ValueAt(page.data, key) == value ==> r == page
    ensures !r.changed ==> r == page
  {
    if ValueAt(page.data, key) != value then Page(page.id, Put(page.data, key, value), true) else page
  }

  /** `unsetData($key)`: removing a present key is a change. */
  function UnsetData(page: Page, key: string): (r: Page)
    ensures Get(r.data, key) == None
    ensures forall k :: k != key ==> Get(r.data, k) == Get(page.data, k)
    ensures r.id == page.id
    ensures r.changed <==> page.changed || HasKey(page.data, key)
    ensures !r.changed ==> r == page
  {
    if HasKey(page.data, key) then Page(page.id, Remove(page.data, key), true) else page
  }

  /** The attribute writes an entry asks for: `source` becomes `content` read from the file, `stores` is skipped. */
  function Writes(entry: Record, readSource: Value -> Value): (ws: seq<(string, Value)>)
    ensures forall i :: 0 <= i < |ws| ==> ws[i].0 != StoresKey && ws[i].0 != SourceKey
    ensures |ws| <= |entry|
  {
    if entry == [] then []
    else
      var (k, v) := entry[0];
      var w := if k == SourceKey then (ContentKey, readSource(v)) else (k, v);
      (if w.0 == StoresKey then [] else [w]) + Writes(entry[1..], readSource)
  }

  /** Each write in order, through the diff check. */
  function Apply(page: Page, writes: seq<(string, Value)>): (r: Page)
    ensures r.id == page.id
    ensures page.changed ==> r.changed
    ensures !r.changed ==> r == page
    decreases |writes|
  {
    if writes == [] then page else Apply(SetData(page, writes[0].0, writes[0].1), writes[1..])
  }

  /** After the writes, every key holds the last value written to it, and untouched keys keep their value. */
  lemma {:induction false} ApplyValue(page: Page, writes: seq<(string, Value)>, k: string)
    ensures ValueAt(Apply(page, writes).data, k) == LastValue(writes, k).GetOr(ValueAt(page.data, k))
    decreases |writes|
  {
    if writes != [] {
      var next := SetData(page, writes[0].0, writes[0].1);
      ApplyValue(next, writes[1..], k);
    }
  }

  /** Every write already holds in `data`. */
  predicate Holds(data: Record, writes: seq<(string, Value)>)
  {
    forall i :: 0 <= i < |writes| ==> ValueAt(data, writes[i].0) == writes[i].1
  }

  /** Writes that all match what the page holds change nothing, so nothing marks the page for saving. */
  lemma {:induction false} ApplyUnchanged(page: Page, writes: seq<(string, Value)>)
    requires Holds(page.data, writes)
    ensures Apply(page, writes) == page
    decreases |writes|
  {
    if writes != [] {
      assert SetData(page, writes[0].0, writes[0].1) == page;
      assert forall i :: 0 <= i < |writes[1..]| ==> writes[1..][i] == writes[i + 1];
      ApplyUnchanged(page, writes[1..]);
    }
  }

  /** A page is marked changed by the writes only if it already was or some write differed. */
  lemma {:induction false} ApplyChanged(page: Page, writes: seq<(string, Value)>)
    ensures Apply(page, writes).changed ==>
              page.changed || exists i :: 0 <= i < |writes| && ValueAt(page.data, writes[i].0) != writes[i].1
  {
    if !page.changed && Holds(page.data, writes) {
      ApplyUnchanged(page, writes);
    }
  }

  // ---------------------------------------------------------------------------
  // Stores and page resolution

  /** The ids of the listed store codes, in order; the first unknown code fails the lookup. */
  function StoreIds(codes: seq<Value>, stores: map<Value, nat>): (r: Result<seq<nat>, PageError>)
    ensures r.Success? <==> forall i :: 0 <= i < |codes| ==> codes[i] in stores
    ensures r.Success? ==> |r.value| == |codes| && forall i :: 0 <= i < |codes| ==> r.value[i] == stores[codes[i]]
    ensures r.Failure? ==> r.error.NoSuchStore? && r.error.code in codes && r.error.code !in stores
  {
    if codes == [] then Success([])
    else if codes[0] !in stores then Failure(NoSuchStore(codes[0]))
    else match StoreIds(codes[1..], stores)
      case Failure(e) => Failure(e)
      case Success(ids) => Success([stores[codes[0]]] + ids)
  }

  function IdValues(ids: seq<nat>): (vs: seq<Value>)
    ensures |vs| == |ids|
    ensures forall i :: 0 <= i < |ids| ==> vs[i] == Int(ids[i])
  {
    if ids == [] then [] else [Int(ids[0])] + IdValues(ids[1..])
  }

  /** The store codes an entry lists. */
  function Codes(entry: Record): seq<Value>
  {
    Elements(ValueAt(entry, StoresKey))
  }

  /**
   * The page id the lookup loop leaves behind: with `stores`, the lookup in
   * the last listed store (an empty list leaves the previous entry's id);
   * without, the lookup in the admin store. A falsy id is 0.
   */
  function ResolveId(identifier: string, entry: Record, previous: nat, env: Env, pages: PageTable)
    : (r: Result<nat, PageError>)
    ensures !IsSet(entry, StoresKey) ==> r == Success(env.checkIdentifier(pages, identifier, AdminStore))
    ensures IsSet(entry, StoresKey) ==> (r.Success? <==> StoreIds(Codes(entry), env.stores).Success?)
    ensures IsSet(entry, StoresKey) && Codes(entry) == [] ==> r == Success(previous)
    ensures IsSet(entry, StoresKey) && r.Success? && Codes(entry) != [] ==>
              r.value == env.checkIdentifier(pages, identifier, env.stores[Codes(entry)[|Codes(entry)| - 1]])
  {
    if IsSet(entry, StoresKey) then
      match StoreIds(Codes(entry), env.stores)
      case Failure(e) => Failure(e)
      case Success(ids) => if ids == [] then Success(previous) else Success(env.checkIdentifier(pages, identifier, ids[|ids| - 1]))
    else Success(env.checkIdentifier(pages, identifier, AdminStore))
  }

  /** `getById` for a truthy id, otherwise a fresh page carrying the identifier. */
  function LoadPage(identifier: string, id: nat, pages: PageTable): (r: Result<Page, PageError>)
    ensures id != 0 ==> (r.Success? <==> id <= |pages|)
    ensures id != 0 && r.Success? ==> r.value == Page(Some(id), pages[id - 1], false)
    ensures id != 0 && r.Failure? ==> r.error == NoSuchPage(id)
    ensures id == 0 ==> r.Success? && r.value.id.None? && r.value.changed
    ensures id == 0 ==> r.value.data == [(IdentifierKey, Str(identifier))]
  {
    if id != 0 then
      if id <= |pages| then Success(Page(Some(id), pages[id - 1], false)) else Failure(NoSuchPage(id))
    else Success(SetData(Page(None, [], false), IdentifierKey, Str(identifier)))
  }

  /** `setStores([0])`, then, with `stores`, the listed stores' ids in place of the store fields. */
  function AssignStores(page: Page, entry: Record, env: Env): (r: Result<Page, PageError>)
    ensures r.Success? <==> !IsSet(entry, StoresKey) || StoreIds(Codes(entry), env.stores).Success?
    ensures r.Success? && !IsSet(entry, StoresKey) ==> ValueAt(r.value.data, StoresKey) == List([Int(AdminStore)])
    ensures r.Success? && IsSet(entry, StoresKey) ==>
              && ValueAt(r.value.data, StoresKey) == List(IdValues(StoreIds(Codes(entry), env.stores).value))
              && !HasKey(r.value.data, StoreIdKey) && !HasKey(r.value.data, StoreDataKey)
    ensures r.Success? ==> r.value.id == page.id
    ensures r.Success? && page.changed ==> r.value.changed
    ensures r.Success? && !r.value.changed ==> r.value == page
    ensures r.Success? ==> forall k :: k != StoresKey && k != StoreIdKey && k != StoreDataKey ==>
              Get(r.value.data, k) == Get(page.data, k)
  {
    var p := SetData(page, StoresKey, List([Int(AdminStore)]));
    if IsSet(entry, StoresKey) then
      match StoreIds(Codes(entry), env.stores)
      case Failure(e) => Failure(e)
      case Success(ids) => Success(WithStores(p, ids))
    else Success(p)
  }

  /** The listed stores' ids replace the store fields: `store_id` and `store_data` are unset. */
  function WithStores(p: Page, ids: seq<nat>): (q: Page)
    ensures ValueAt(q.data, StoresKey) == List(IdValues(ids))
    ensures !HasKey(q.data, StoreIdKey) && !HasKey(q.data, StoreDataKey)
    ensures q.id == p.id
    ensures p.changed ==> q.changed
    ensures !q.changed ==> q == p
    ensures forall k :: k != StoresKey && k != StoreIdKey && k != StoreDataKey ==> Get(q.data, k) == Get(p.data, k)
  {
    SetData(UnsetData(UnsetData(p, StoreIdKey), StoreDataKey), StoresKey, List(IdValues(ids)))
  }

  /** `pageRepository->save` when the page reports changes: in place for a loaded page, appended for a new one. */
  function SavePage(page: Page, pages: PageTable): (r: PageTable)
    requires page.id.Some? ==> 1 <= page.id.value <= |pages|
    ensures !page.changed ==> r == pages
    ensures page.changed && page.id.Some? ==> r == pages[page.id.value - 1 := page.data]
    ensures page.changed && page.id.None? ==> r == pages + [page.data]
  {
    if !page.changed then pages
    else match page.id
      case Some(i) => pages[i - 1 := page.data]
      case None => pages + [page.data]
  }

  // ---------------------------------------------------------------------------
  // Processing

  /** Writing a checked entry to its page: defaults, attribute writes, then the store assignment. */
  function WriteEntry(page: Page, entry: Record, env: Env): (r: Result<Page, PageError>)
    ensures r.Success? <==> !IsSet(entry, StoresKey) || StoreIds(Codes(entry), env.stores).Success?
    ensures r.Success? ==> r.value.id == page.id
    ensures r.Success? && page.changed ==> r.value.changed
    ensures r.Success? && !r.value.changed ==> r.value == page
  {
    var completed := SetDefaultFields(entry);
    var written := Apply(page, Writes(completed, env.readSource));
    assert IsSet(completed, StoresKey) == IsSet(entry, StoresKey) && Codes(completed) == Codes(entry);
    AssignStores(written, completed, env)
  }

  /**
   * One `page` entry: resolve the page, check the required field, write the
   * entry and save if changed. The resolved id is kept for the next entry.
   * Only the resolved page is touched; a new page is always saved.
   */
  function ProcessEntry(identifier: string, entry: Record, previous: nat, env: Env, pages: PageTable)
    : (r: Result<(nat, PageTable), PageError>)
    ensures r.Success? ==> |r.value.1| == |pages| + (if r.value.0 == 0 then 1 else 0)
  {
    match ResolveId(identifier, entry, previous, env, pages)
    case Failure(e) => Failure(e)
    case Success(id) =>
      match LoadPage(identifier, id, pages)
      case Failure(e) => Failure(e)
      case Success(page) =>
        match CheckRequiredFields(entry)
        case Some(message) => Failure(RequiredMissing(message))
        case None =>
          match WriteEntry(page, entry, env)
          case Failure(e) => Failure(e)
          case Success(written) => Success((id, SavePage(written, pages)))
  }

  /**
   * An entry goes through exactly when its id resolves, its page loads, it
   * has a title and its store codes exist; a missing title is the error the
   * required-field check reports; and a successful entry touches no page
   * but the one its id names.
   */
  lemma ProcessEntryOutcome(identifier: string, entry: Record, previous: nat, env: Env, pages: PageTable)
    ensures var r := ProcessEntry(identifier, entry, previous, env, pages);
            ResolveId(identifier, entry, previous, env, pages).Success? &&
            LoadPage(identifier, ResolveId(identifier, entry, previous, env, pages).value, pages).Success? ==>
              (r.Success? <==> HasKey(entry, TitleKey) && WriteEntry(
                 LoadPage(identifier, ResolveId(identifier, entry, previous, env, pages).value, pages).value, entry, env).Success?)
    ensures var r := ProcessEntry(identifier, entry, previous, env, pages);
            r.Failure? && r.error.RequiredMissing? ==> !HasKey(entry, TitleKey) && r.error.message == CheckRequiredFields(entry).value
    ensures var r := ProcessEntry(identifier, entry, previous, env, pages);
            r.Success? ==>
              && ResolveId(identifier, entry, previous, env, pages).Success?
              && r.value.0 == ResolveId(identifier, entry, previous, env, pages).value
              && forall j :: 0 <= j < |pages| && j != r.value.0 - 1 ==> r.value.1[j] == pages[j]
  {
    var r := ProcessEntry(identifier, entry, previous, env, pages);
    if r.Success? {
      var id, page, written := ProcessEntrySteps(identifier, entry, previous, env, pages);
    }
  }

  lemma ProcessEntryOf(identifier: string, entry: Record, previous: nat, env: Env, pages: PageTable,
                       id: nat, page: Page, written: Page)
    requires ResolveId(identifier, entry, previous, env, pages) == Success(id)
    requires LoadPage(identifier, id, pages) == Success(page)
    requires HasKey(entry, TitleKey)
    requires WriteEntry(page, entry, env) == Success(written)
    ensures written.id.Some? ==> 1 <= written.id.value <= |pages|
    ensures ProcessEntry(identifier, entry, previous, env, pages) == Success((id, SavePage(written, pages)))
  {
  }

  /** The steps a successful entry went through: the resolved id, the loaded page and the written page. */
  lemma ProcessEntrySteps(identifier: string, entry: Record, previous: nat, env: Env, pages: PageTable)
    returns (id: nat, page: Page, written: Page)
    requires ProcessEntry(identifier, entry, previous, env, pages).Success?
    ensures ResolveId(identifier, entry, previous, env, pages) == Success(id)
    ensures LoadPage(identifier, id, pages) == Success(page)
    ensures WriteEntry(page, entry, env) == Success(written)
    ensures ProcessEntry(identifier, entry, previous, env, pages) == Success((id, SavePage(written, pages)))
  {
    id := ResolveId(identifier, entry, previous, env, pages).value;
    page := LoadPage(identifier, id, pages).value;
    written := WriteEntry(page, entry, env).value;
  }

  /** The page an entry's resolved id names in the saved table; id 0 names the page appended after `pages`. */
  function PageAt(saved: PageTable, id: nat, pages: PageTable): Record
  {
    if id != 0 && id <= |saved| then saved[id - 1] else if |pages| < |saved| then saved[|pages|] else []
  }

  /** What a successful entry stores is exactly what it wrote to the page it loaded. */
  lemma StoredIsWritten(identifier: string, entry: Record, previous: nat, env: Env, pages: PageTable, id: nat, saved: PageTable)
    requires ProcessEntry(identifier, entry, previous, env, pages) == Success((id, saved))
    ensures LoadPage(identifier, id, pages).Success?
    ensures WriteEntry(LoadPage(identifier, id, pages).value, entry, env).Success?
    ensures PageAt(saved, id, pages) == WriteEntry(LoadPage(identifier, id, pages).value, entry, env).value.data
  {
    var id', page, written := ProcessEntrySteps(identifier, entry, previous, env, pages);
    SavedWhereLoaded(identifier, id, pages, page, written);
  }

  /** A page written after loading is saved where it was loaded from, or appended when new. */
  lemma SavedWhereLoaded(identifier: string, id: nat, pages: PageTable, page: Page, written: Page)
    requires LoadPage(identifier, id, pages) == Success(page)
    requires written.id == page.id
    requires page.changed ==> written.changed
    requires !written.changed ==> written == page
    ensures |SavePage(written, pages)| == |pages| + (if id == 0 then 1 else 0)
    ensures (if id != 0 then SavePage(written, pages)[id - 1] else SavePage(written, pages)[|pages|]) == written.data
  {
  }

  /** The attribute writes survive the store assignment. */
  lemma WriteEntryValue(page: Page, entry: Record, env: Env, k: string)
    requires WriteEntry(page, entry, env).Success?
    requires k != StoresKey && k != StoreIdKey && k != StoreDataKey
    ensures ValueAt(WriteEntry(page, entry, env).value.data, k)
         == LastValue(Writes(SetDefaultFields(entry), env.readSource), k).GetOr(ValueAt(page.data, k))
  {
    var completed := SetDefaultFields(entry);
    var writes := Writes(completed, env.readSource);
    ApplyValue(page, writes, k);
  }

  /**
   * After a successful entry, the page holds every attribute the entry
   * writes, `content` read from `source` included; the last write to a key
   * wins, and the store fields are set by the store assignment instead.
   */
  lemma EntryStoresAttributes(identifier: string, entry: Record, previous: nat, env: Env, pages: PageTable, k: string,
                              id: nat, saved: PageTable)
    requires ProcessEntry(identifier, entry, previous, env, pages) == Success((id, saved))
    requires k != StoresKey && k != StoreIdKey && k != StoreDataKey
    requires LastValue(Writes(SetDefaultFields(entry), env.readSource), k).Some?
    ensures ValueAt(PageAt(saved, id, pages), k) == LastValue(Writes(SetDefaultFields(entry), env.readSource), k).value
  {
    StoredIsWritten(identifier, entry, previous, env, pages, id, saved);
    WriteEntryValue(LoadPage(identifier, id, pages).value, entry, env, k);
  }

  lemma WriteEntryUnchanged(page: Page, entry: Record, env: Env)
    requires !page.changed && !IsSet(entry, StoresKey)
    requires ValueAt(page.data, StoresKey) == List([Int(AdminStore)])
    requires Holds(page.data, Writes(SetDefaultFields(entry), env.readSource))
    ensures WriteEntry(page, entry, env) == Success(page)
  {
    var completed := SetDefaultFields(entry);
    ApplyUnchanged(page, Writes(completed, env.readSource));
    assert IsSet(completed, StoresKey) == IsSet(entry, StoresKey);
  }

  /**
   * The diff-only write: an existing page that already holds every value an
   * entry writes, and its store assignment, is not saved again.
   */
  lemma UnchangedPageNotSaved(identifier: string, entry: Record, previous: nat, env: Env, pages: PageTable, id: nat)
    requires HasKey(entry, TitleKey) && !IsSet(entry, StoresKey)
    requires id == env.checkIdentifier(pages, identifier, AdminStore) && 1 <= id <= |pages|
    requires ValueAt(pages[id - 1], StoresKey) == List([Int(AdminStore)])
    requires Holds(pages[id - 1], Writes(SetDefaultFields(entry), env.readSource))
    ensures ProcessEntry(identifier, entry, previous, env, pages) == Success((id, pages))
  {
    var page := AdminPageLoads(identifier, entry, previous, env, pages, id);
    WriteEntryUnchanged(page, entry, env);
    ProcessEntryOf(identifier, entry, previous, env, pages, id, page, page);
  }

  /** Without `stores`, the entry's page is the admin-store page, loaded unchanged. */
  lemma AdminPageLoads(identifier: string, entry: Record, previous: nat, env: Env, pages: PageTable, id: nat)
    returns (page: Page)
    requires !IsSet(entry, StoresKey)
    requires id == env.checkIdentifier(pages, identifier, AdminStore) && 1 <= id <= |pages|
    ensures ResolveId(identifier, entry, previous, env, pages) == Success(id)
    ensures LoadPage(identifier, id, pages) == Success(page)
    ensures page == Page(Some(id), pages[id - 1], false)
  {
    page := Page(Some(id), pages[id - 1], false);
  }

  /** Whether processing stopped inside an identifier, and whether by a component exception. */
  datatype Outcome = Done | Skipped(error: PageError) | Raised(message: string)

  /**
   * The entries of one identifier. A missing store or page ends this
   * identifier with the error logged; a missing required field is thrown on
   * to the caller.
   */
  function ProcessPage(identifier: string, entries: seq<Value>, previous: nat, env: Env, pages: PageTable)
    : (r: (PageTable, Outcome))
    ensures |r.0| >= |pages|
    decreases |entries|
  {
    if entries == [] then (pages, Done)
    else match ProcessEntry(identifier, Fields(entries[0]), previous, env, pages)
      case Success((id, pages')) => ProcessPage(identifier, entries[1..], id, env, pages')
      case Failure(e) => if e.RequiredMissing? then (pages, Raised(e.message)) else (pages, Skipped(e))
  }

  /** Entries after the one that stopped an identifier are never processed. */
  lemma {:induction false} ProcessPageStops(identifier: string, entries: seq<Value>, more: seq<Value>, previous: nat,
                                            env: Env, pages: PageTable)
    requires !ProcessPage(identifier, entries, previous, env, pages).1.Done?
    ensures ProcessPage(identifier, entries + more, previous, env, pages) == ProcessPage(identifier, entries, previous, env, pages)
    decreases |entries|
  {
    assert entries != [];
    assert (entries + more)[0] == entries[0];
    assert (entries + more)[1..] == entries[1..] + more;
    match ProcessEntry(identifier, Fields(entries[0]), previous, env, pages)
    case Success((id, pages')) =>
      ProcessPageStops(identifier, entries[1..], more, id, env, pages');
    case Failure(_) =>
  }

  /**
   * `processData`: every identifier in order. A component exception stops
   * the remaining identifiers and is logged; other errors are logged and the
   * next identifier runs.
   */
  function ProcessData(data: Record, env: Env, pages: PageTable): (r: (PageTable, seq<PageError>, bool))
    ensures |r.0| >= |pages|
    decreases |data|
  {
    if data == [] then (pages, [], false)
    else
      var (pages', outcome) := ProcessPage(data[0].0, Elements(ValueAt(Fields(data[0].1), PageKey)), 0, env, pages);
      match outcome
      case Raised(message) => (pages', [RequiredMissing(message)], true)
      case Skipped(e) =>
        var rest := ProcessData(data[1..], env, pages');
        (rest.0, [e] + rest.1, rest.2)
      case Done => ProcessData(data[1..], env, pages')
  }

  /** After a component exception, the identifiers that follow are never processed. */
  lemma {:induction false} ProcessDataStops(data: Record, more: Record, env: Env, pages: PageTable)
    requires ProcessData(data, env, pages).2
    ensures ProcessData(data + more, env, pages) == ProcessData(data, env, pages)
    decreases |data|
  {
    assert data != [];
    assert (data + more)[0] == data[0];
    assert (data + more)[1..] == data[1..] + more;
    var (pages', outcome) := ProcessPage(data[0].0, Elements(ValueAt(Fields(data[0].1), PageKey)), 0, env, pages);
    if !outcome.Raised? {
      ProcessDataStops(data[1..], more, env, pages');
    }
  }

  /** A missing store or page in one identifier leaves the next identifier to run. */
  lemma SkippedIdentifierContinues(identifier: string, value: Value, rest: Record, env: Env, pages: PageTable)
    requires ProcessPage(identifier, Elements(ValueAt(Fields(value), PageKey)), 0, env, pages).1.Skipped?
    ensures var (pages', outcome) := ProcessPage(identifier, Elements(ValueAt(Fields(value), PageKey)), 0, env, pages);
            ProcessData([(identifier, value)] + rest, env, pages)
            == (ProcessData(rest, env, pages').0, [outcome.error] + ProcessData(rest, env, pages').1, ProcessData(rest, env, pages').2)
  {
    assert ([(identifier, value)] + rest)[1..] == rest;
  }
}
