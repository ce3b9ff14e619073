/**
 * The categories component: for every store group it either creates a new
 * root category, with a URL key derived from the group name, or finds the
 * group's root category and walks the nested category tree below it,
 * creating or updating each category by name and parent.
 */
module Categories {
  import opened Wrappers
  import opened Values
  import opened Seqs

  const CategoriesKey: string := "categories"
  const StoreGroupKey: string := "store_group"
  const NewRootKey: string := "new_root"
  const RootStoreIdKey: string := "root_store_id"
  const NameKey: string := "name"
  const IsActiveKey: string := "is_active"
  const CategoryKey: string := "category"
  const ImageKey: string := "image"
  const UrlKeyKey: string := "url_key"
  const StoreIdKey: string := "store_id"

  /** The attributes written with `setData`; every other attribute is a custom attribute. */
  const MainAttributes: seq<string> := ["name", "is_active", "position", "include_in_menu", "description"]

  /** The catalog's tree root, under which new root categories are created. */
  const TreeRootId: nat := 1

  // ---------------------------------------------------------------------------
  // The URL-key slug

  /** `strtolower` on one character (ASCII letters only). */
  function LowerChar(c: char): (d: char)
    ensures 'A' <= c <= 'Z' ==> 'a' <= d <= 'z'
    ensures !('A' <= c <= 'Z') ==> d == c
  {
    if 'A' <= c <= 'Z' then (c as int + 32) as char else c
  }

  function Lower(s: string): (r: string)
    ensures |r| == |s|
    ensures forall i :: 0 <= i < |s| ==> r[i] == LowerChar(s[i])
  {
    if s == [] then [] else [LowerChar(s[0])] + Lower(s[1..])
  }

  /** The characters the pattern `[^A-Za-z0-9 ]` does not remove. */
  predicate IsKept(c: char)
  {
    'A' <= c <= 'Z' || 'a' <= c <= 'z' || '0' <= c <= '9' || c == ' '
  }

  /** The characters a URL key may hold. */
  predicate IsUrlKeyChar(c: char)
  {
    'A' <= c <= 'Z' || 'a' <= c <= 'z' || '0' <= c <= '9' || c == '-'
  }

  /** Removing every character outside `[A-Za-z0-9 ]`, keeping the order of the rest. */
  function KeepSlugChars(s: string): (r: string)
    ensures |r| <= |s|
    ensures forall i :: 0 <= i < |r| ==> IsKept(r[i]) && r[i] in s
    ensures (forall i :: 0 <= i < |s| ==> IsKept(s[i])) ==> r == s
  {
    if s == [] then []
    else if IsKept(s[0]) then [s[0]] + KeepSlugChars(s[1..])
    else KeepSlugChars(s[1..])
  }

  /** The string without its leading spaces. */
  function DropSpaces(s: string): (r: string)
    ensures |r| <= |s|
    ensures r == [] || r[0] != ' '
    ensures forall i :: 0 <= i < |r| ==> r[i] in s
    ensures r == [] ==> forall i :: 0 <= i < |s| ==> s[i] == ' '
  {
    if s != [] && s[0] == ' ' then DropSpaces(s[1..]) else s
  }

  /** `preg_replace('/ +/', '-', $s)`: every run of spaces becomes one dash. */
  function CollapseSpaces(s: string): (r: string)
    ensures forall i :: 0 <= i < |r| ==> r[i] != ' ' && (r[i] == '-' || r[i] in s)
    ensures r == [] <==> s == []
    ensures r != [] ==> (s[0] == ' ' ==> r[0] == '-') && (s[0] != ' ' ==> r[0] == s[0])
    ensures r != [] && r[|r| - 1] == '-' ==> s[|s| - 1] == ' ' || s[|s| - 1] == '-'
    ensures NoDash(s) ==> NoDoubleDash(r)
    decreases |s|
  {
    if s == [] then []
    else if s[0] == ' ' then
      var rest := DropSpaces(s[1..]);
      var r := "-" + CollapseSpaces(rest);
      assert rest != [] ==> rest[|rest| - 1] == s[|s| - 1] by {
        DropSpacesSuffix(s[1..]);
      }
      r
    else [s[0]] + CollapseSpaces(s[1..])
  }

  lemma {:induction false} DropSpacesSuffix(s: string)
    ensures DropSpaces(s) == s[|s| - |DropSpaces(s)|..]
    decreases |s|
  {
    if s != [] && s[0] == ' ' {
      DropSpacesSuffix(s[1..]);
      assert s[1..][|s| - 1 - |DropSpaces(s)|..] == s[|s| - |DropSpaces(s)|..];
    }
  }

  predicate NoDash(s: string)
  {
    forall i :: 0 <= i < |s| ==> s[i] != '-'
  }

  predicate NoDoubleDash(s: string)
  {
    forall i :: 0 <= i < |s| - 1 ==> !(s[i] == '-' && s[i + 1] == '-')
  }

  /** The characters PHP's `trim` removes by default. */
  predicate IsTrimmed(c: char)
  {
    c == ' ' || c == '\t' || c == '\n' || c == '\r' || c == '\0' || c == '\U{B}'
  }

  function TrimLeft(s: string): (r: string)
    ensures r == [] || !IsTrimmed(r[0])
    ensures |r| <= |s| && r == s[|s| - |r|..]
    ensures s == [] || !IsTrimmed(s[0]) ==> r == s
  {
    if s != [] && IsTrimmed(s[0]) then TrimLeft(s[1..]) else s
  }

  function TrimRight(s: string): (r: string)
    ensures r == [] || !IsTrimmed(r[|r| - 1])
    ensures |r| <= |s| && r == s[..|r|]
    ensures s == [] || !IsTrimmed(s[|s| - 1]) ==> r == s
  {
    if s != [] && IsTrimmed(s[|s| - 1]) then TrimRight(s[..|s| - 1]) else s
  }

  /** `trim`: no leading or trailing whitespace remains; the rest is a slice of the input. */
  function Trim(s: string): (r: string)
    ensures r == [] || (!IsTrimmed(r[0]) && !IsTrimmed(r[|r| - 1]))
    ensures forall i :: 0 <= i < |r| ==> r[i] in s
    ensures s == [] || (!IsTrimmed(s[0]) && !IsTrimmed(s[|s| - 1])) ==> r == s
  {
    var l := TrimLeft(s);
    var r := TrimRight(l);
    assert r != [] ==> r[0] == l[0];
    SliceOfSuffix(s, l, r);
    r
  }

  /** A prefix of a suffix of `s` holds only characters of `s`. */
  lemma SliceOfSuffix(s: string, l: string, r: string)
    requires |l| <= |s| && l == s[|s| - |l|..]
    requires |r| <= |l| && r == l[..|r|]
    ensures forall i :: 0 <= i < |r| ==> r[i] in s
  {
    forall i | 0 <= i < |r|
      ensures r[i] in s
    {
      assert r[i] == l[i];
      assert l[i] == s[|s| - |l| + i];
    }
  }

  /**
   * The URL key as written: lower-case, decode (`strip_tags`,
   * `html_entity_decode` and `urldecode`, given as `decode`), drop the other
   * characters, turn runs of spaces into dashes, then trim.
   */
  function UrlKeyAsWritten(name: string, decode: string -> string): (r: string)
    ensures forall i :: 0 <= i < |r| ==> IsUrlKeyChar(r[i])
  {
    var kept := KeepSlugChars(decode(Lower(name)));
    var c := CollapseSpaces(kept);
    assert forall i :: 0 <= i < |c| ==> IsUrlKeyChar(c[i]) by {
      forall i | 0 <= i < |c|
        ensures IsUrlKeyChar(c[i])
      {
        NotTrimmed(kept, c, i);
      }
    }
    Trim(c)
  }

  /** The URL key with the trim done before the spaces become dashes. */
  function UrlKey(name: string, decode: string -> string): (r: string)
    ensures forall i :: 0 <= i < |r| ==> IsUrlKeyChar(r[i])
    ensures NoDoubleDash(r)
    ensures r != [] ==> r[0] != '-' && r[|r| - 1] != '-'
  {
    var t := Trim(KeepSlugChars(decode(Lower(name))));
    TrimmedKept(KeepSlugChars(decode(Lower(name))));
    CollapseTrimmed(t);
    CollapseSpaces(t)
  }

  predicate AllKept(s: string)
  {
    forall i :: 0 <= i < |s| ==> IsKept(s[i])
  }

  /** Trimming the filtered text keeps it filtered, with no space at either end. */
  lemma TrimmedKept(kept: string)
    requires AllKept(kept)
    ensures AllKept(Trim(kept))
    ensures Trim(kept) == [] || (Trim(kept)[0] != ' ' && Trim(kept)[|Trim(kept)| - 1] != ' ')
  {
    var t := Trim(kept);
    forall i | 0 <= i < |t|
      ensures IsKept(t[i])
    {
      var j :| 0 <= j < |kept| && kept[j] == t[i];
    }
  }

  /** Collapsing a filtered text without end spaces gives a well-formed URL key. */
  lemma CollapseTrimmed(t: string)
    requires AllKept(t)
    requires t == [] || (t[0] != ' ' && t[|t| - 1] != ' ')
    ensures var r := CollapseSpaces(t);
            (forall i :: 0 <= i < |r| ==> IsUrlKeyChar(r[i])) &&
            NoDoubleDash(r) &&
            (r != [] ==> r[0] != '-' && r[|r| - 1] != '-')
  {
    var r := CollapseSpaces(t);
    assert NoDash(t);
    forall i | 0 <= i < |r|
      ensures IsUrlKeyChar(r[i])
    {
      NotTrimmed(t, r, i);
    }
  }

  /**
   * As written, the trim never removes anything: after the collapse no
   * whitespace is left, so the URL key is the collapsed string itself, dashes
   * from leading or trailing spaces included.
   */
  lemma UrlKeyAsWrittenSkipsTrim(name: string, decode: string -> string)
    ensures UrlKeyAsWritten(name, decode) == CollapseSpaces(KeepSlugChars(decode(Lower(name))))
  {
    var kept := KeepSlugChars(decode(Lower(name)));
    var c := CollapseSpaces(kept);
    if c != [] {
      NotTrimmed(kept, c, 0);
      NotTrimmed(kept, c, |c| - 1);
    }
  }

  /** A character of the collapsed string is a dash or one the filter kept, so never whitespace. */
  lemma NotTrimmed(kept: string, c: string, i: nat)
    requires AllKept(kept)
    requires c == CollapseSpaces(kept) && i < |c|
    ensures !IsTrimmed(c[i]) && IsUrlKeyChar(c[i])
  {
    if c[i] != '-' {
      var j :| 0 <= j < |kept| && kept[j] == c[i];
    }
  }

  /** No decoding: the name is taken as it stands. */
  function Identity(s: string): string
  {
    s
  }

  /** A name whose decoded form starts with a space gets a URL key starting with a dash, as written. */
  lemma UrlKeyAsWrittenLeadingDash(name: string, decode: string -> string)
    requires decode(Lower(name)) != [] && decode(Lower(name))[0] == ' '
    ensures UrlKeyAsWritten(name, decode) != [] && UrlKeyAsWritten(name, decode)[0] == '-'
  {
    var d := decode(Lower(name));
    assert KeepSlugChars(d) == [d[0]] + KeepSlugChars(d[1..]);
    UrlKeyAsWrittenSkipsTrim(name, decode);
  }

  /** The store group name `" Main"`: the URL key starts with a dash as written, and not once trimmed first. */
  lemma UrlKeyCounterexample()
    ensures UrlKeyAsWritten(" Main", Identity) != [] && UrlKeyAsWritten(" Main", Identity)[0] == '-'
    ensures UrlKey(" Main", Identity) == [] || UrlKey(" Main", Identity)[0] != '-'
  {
    var lowered := Lower(" Main");
    assert lowered[0] == LowerChar(" Main"[0]) == ' ';
    assert Identity(lowered) == lowered;
    UrlKeyAsWrittenLeadingDash(" Main", Identity);
  }

  // ---------------------------------------------------------------------------
  // Categories and the catalog

  /** A category model; `path` is the parent path it was saved with. */
  datatype Category = Category(id: Option<nat>, parentId: Option<nat>, path: string, data: Record, custom: Record)

  /** The catalog's categories; the category with id `n` is at index `n - 1`. */
  type Catalog = seq<Category>

  /** A fresh category model, as an empty collection's first item or a failed load gives. */
  const NewCategory: Category := Category(None, None, "", [], [])

  /** `load($id)`: the stored category, or an empty model when there is none. */
  function Load(catalog: Catalog, id: nat): (c: Category)
    ensures 1 <= id <= |catalog| ==> c == catalog[id - 1].(id := Some(id))
    ensures !(1 <= id <= |catalog|) ==> c == NewCategory
  {
    if 1 <= id <= |catalog| then catalog[id - 1].(id := Some(id)) else NewCategory
  }

  /** A stored category matching the name and parent filters. */
  predicate Matches(c: Category, name: Value, parentId: Option<nat>)
  {
    ValueAt(c.data, NameKey) == name && parentId.Some? && c.parentId == parentId
  }

  /**
   * The collection filtered by name and parent id, first item: the first
   * matching category, or a fresh model. A parent without an id filters on
   * `NULL`, which nothing equals.
   */
  function Find(catalog: Catalog, name: Value, parentId: Option<nat>): (c: Category)
    ensures c.id.None? <==> forall i :: 0 <= i < |catalog| ==> !Matches(catalog[i], name, parentId)
    ensures c.id.None? ==> c == NewCategory
    ensures c.id.Some? ==> 1 <= c.id.value <= |catalog| && c == Load(catalog, c.id.value) &&
                           Matches(catalog[c.id.value - 1], name, parentId) &&
                           (forall i :: 0 <= i < c.id.value - 1 ==> !Matches(catalog[i], name, parentId))
  {
    FindFrom(catalog, name, parentId, 0)
  }

  function FindFrom(catalog: Catalog, name: Value, parentId: Option<nat>, from: nat): (c: Category)
    requires from <= |catalog|
    ensures c.id.None? <==> forall i :: from <= i < |catalog| ==> !Matches(catalog[i], name, parentId)
    ensures c.id.None? ==> c == NewCategory
    ensures c.id.Some? ==> from + 1 <= c.id.value <= |catalog| && c == Load(catalog, c.id.value) &&
                           Matches(catalog[c.id.value - 1], name, parentId) &&
                           (forall i :: from <= i < c.id.value - 1 ==> !Matches(catalog[i], name, parentId))
    decreases |catalog| - from
  {
    if from == |catalog| then NewCategory
    else if Matches(catalog[from], name, parentId) then
      var c := Load(catalog, from + 1);
      assert c.id == Some(from + 1) && catalog[c.id.value - 1] == catalog[from];
      c
    else
      var c := FindFrom(catalog, name, parentId, from + 1);
      NoMatchFrom(catalog, name, parentId, from, |catalog|);
      if c.id.Some? then NoMatchFrom(catalog, name, parentId, from, c.id.value - 1); c
      else c
  }

  /** A non-matching category at `from` extends a non-matching run that starts right after it. */
  lemma NoMatchFrom(catalog: Catalog, name: Value, parentId: Option<nat>, from: nat, to: nat)
    requires from < to <= |catalog| && !Matches(catalog[from], name, parentId)
    ensures (forall i :: from + 1 <= i < to ==> !Matches(catalog[i], name, parentId)) ==>
            (forall i :: from <= i < to ==> !Matches(catalog[i], name, parentId))
  {
  }

  /** `save`: a stored category is overwritten in place, a new one is appended under the next id. */
  function Save(catalog: Catalog, c: Category): (r: (Catalog, Category))
    ensures r.1 == c.(id := r.1.id) && r.1.id.Some?
    ensures c.id.Some? && 1 <= c.id.value <= |catalog| ==>
              r.1.id == c.id && r.0 == catalog[c.id.value - 1 := r.1]
    ensures !(c.id.Some? && 1 <= c.id.value <= |catalog|) ==>
              r.1.id == Some(|catalog| + 1) && r.0 == catalog + [r.1]
    ensures Load(r.0, r.1.id.value) == r.1
  {
    if c.id.Some? && 1 <= c.id.value <= |catalog| then (catalog[c.id.value - 1 := c], c)
    else
      var saved := c.(id := Some(|catalog| + 1));
      (catalog + [saved], saved)
  }

  // ---------------------------------------------------------------------------
  // Store groups

  datatype StoreGroup = StoreGroup(name: Value, rootCategoryId: nat)

  function GroupsNamed(groups: seq<StoreGroup>, name: Value): (r: seq<StoreGroup>)
    ensures forall g :: g in r <==> g in groups && g.name == name
    ensures |r| <= |groups|
    ensures (forall i :: 0 <= i < |groups| ==> groups[i].name != name) ==> r == []
  {
    if groups == [] then []
    else if groups[0].name == name then [groups[0]] + GroupsNamed(groups[1..], name)
    else GroupsNamed(groups[1..], name)
  }

  /** The message of a lookup that finds several groups named `name`. */
  function MultipleGroups(name: Value): string
  {
    "Multiple store groups were found with the name \"" + Text(name) + "\""
  }

  /** The message of a lookup that finds no group named `name`. */
  function NoGroup(name: Value): string
  {
    "No store groups were found with the name \"" + Text(name) + "\""
  }

  /**
   * `getDefaultCategory`: exactly one group with the name gives its root
   * category; several or none are errors. The size of a collection is never
   * negative, so the trailing `return false` is unreachable.
   */
  function GetDefaultCategory(groups: seq<StoreGroup>, catalog: Catalog, name: Value): (r: Result<Category, string>)
    ensures r.Success? <==> |GroupsNamed(groups, name)| == 1
    ensures r.Success? ==> r.value == Load(catalog, GroupsNamed(groups, name)[0].rootCategoryId)
    ensures |GroupsNamed(groups, name)| > 1 ==> r == Failure(MultipleGroups(name))
    ensures |GroupsNamed(groups, name)| == 0 ==> r == Failure(NoGroup(name))
  {
    var matching := GroupsNamed(groups, name);
    if |matching| == 1 then Success(Load(catalog, matching[0].rootCategoryId))
    else if |matching| > 1 then Failure(MultipleGroups(name))
    else Failure(NoGroup(name))
  }

  /** A group whose name no other group shares is the one whose root is loaded. */
  lemma DefaultCategoryOfUniqueGroup(groups: seq<StoreGroup>, catalog: Catalog, k: nat)
    requires k < |groups|
    requires forall i :: 0 <= i < |groups| && i != k ==> groups[i].name != groups[k].name
    ensures GetDefaultCategory(groups, catalog, groups[k].name) == Success(Load(catalog, groups[k].rootCategoryId))
  {
    GroupsNamedSingle(groups, k);
  }

  lemma {:induction false} GroupsNamedSingle(groups: seq<StoreGroup>, k: nat)
    requires k < |groups|
    requires forall i :: 0 <= i < |groups| && i != k ==> groups[i].name != groups[k].name
    ensures GroupsNamed(groups, groups[k].name) == [groups[k]]
    decreases |groups|
  {
    var name := groups[k].name;
    if k == 0 {
      var rest := GroupsNamed(groups[1..], name);
      assert forall i :: 0 <= i < |groups[1..]| ==> groups[1..][i].name != name;

    } else {
      assert groups[0].name != name;
      assert groups[1..][k - 1] == groups[k];
      forall i | 0 <= i < |groups[1..]| && i != k - 1
        ensures groups[1..][i].name != name
      {
        assert groups[1..][i] == groups[i + 1];
      }
      GroupsNamedSingle(groups[1..], k - 1);
    }
  }

  // ---------------------------------------------------------------------------
  // Writing one category's attributes

  /**
   * What the image copy answers: the file name stored on the category when
   * the copy succeeds, `None` when it fails. `decode` is the tag stripping
   * and entity and URL decoding of the URL key.
   */
  datatype Env = Env(copyImage: Value -> Option<string>, decode: string -> string)

  datatype LogEntry =
    | UpdatingGroup(group: Value)
    | Updated(name: Value)
    | ImageMissing(image: Value)
    | GroupFailed(message: string)

  /** PHP truthiness of an array key. */
  predicate Truthy(s: string)
  {
    s != "" && s != "0"
  }

  /**
   * The first `case` of the attribute switch compares the key with the
   * boolean `in_array` result, loosely: a truthy string key matches `true`
   * exactly when it is a main attribute, and the key `""` matches `false`.
   * PHP stores the key `"0"` as the integer 0, which matches neither
   * boolean here (`in_array(0, ...)` is true under PHP 7).
   */
  predicate SwitchesToMain(attribute: string)
  {
    if attribute in MainAttributes then Truthy(attribute) else attribute == ""
  }

  /**
   * The keys `case 'category'` catches: `category` itself, and the integer
   * key 0, which equals any non-numeric string under PHP 7's loose `==`.
   */
  predicate Skipped(attribute: string)
  {
    attribute == CategoryKey || attribute == "0"
  }

  lemma SwitchesToMainIff(attribute: string)
    requires Truthy(attribute)
    ensures SwitchesToMain(attribute) <==> attribute in MainAttributes
  {
  }

  /** One attribute of the switch. */
  function WriteAttribute(c: Category, attribute: string, value: Value, env: Env): (r: (Category, seq<LogEntry>))
    ensures r.0.id == c.id && r.0.parentId == c.parentId && r.0.path == c.path
    ensures SwitchesToMain(attribute) ==> r == (c.(data := Put(c.data, attribute, value)), [])
    ensures !SwitchesToMain(attribute) && Skipped(attribute) ==> r == (c, [])
    ensures !SwitchesToMain(attribute) && !Skipped(attribute) && attribute != ImageKey ==>
              r == (c.(custom := Put(c.custom, attribute, value)), [])
    ensures !SwitchesToMain(attribute) && !Skipped(attribute) && attribute == ImageKey ==>
              r.0.custom == c.custom &&
              (env.copyImage(value).None? ==> r == (c, [ImageMissing(value)])) &&
              (env.copyImage(value).Some? ==> r.1 == [] && r.0.data == Put(c.data, ImageKey, Str(env.copyImage(value).value)))
  {
    if SwitchesToMain(attribute) then (c.(data := Put(c.data, attribute, value)), [])
    else if Skipped(attribute) then (c, [])
    else if attribute == ImageKey then
      match env.copyImage(value)
      case Some(img) => (c.(data := Put(c.data, ImageKey, Str(img))), [])
      case None => (c, [ImageMissing(value)])
    else (c.(custom := Put(c.custom, attribute, value)), [])
  }

  /** The attribute loop, in the entry's order. */
  function WriteAttributes(c: Category, entries: Record, env: Env): (r: (Category, seq<LogEntry>))
    ensures r.0.id == c.id && r.0.parentId == c.parentId && r.0.path == c.path
    decreases |entries|
  {
    if entries == [] then (c, [])
    else
      var (c1, log1) := WriteAttribute(c, entries[0].0, entries[0].1, env);
      var (c2, log2) := WriteAttributes(c1, entries[1..], env);
      (c2, log1 + log2)
  }

  /** After the loop a main attribute holds the last value the entry gives it. */
  lemma {:induction false} WriteAttributesMain(c: Category, entries: Record, env: Env, k: string)
    requires k in MainAttributes
    ensures ValueAt(WriteAttributes(c, entries, env).0.data, k) == LastValue(entries, k).GetOr(ValueAt(c.data, k))
    decreases |entries|
  {
    if entries != [] {
      var c1 := WriteAttribute(c, entries[0].0, entries[0].1, env).0;
      WriteAttributeMainStep(c, entries[0].0, entries[0].1, env, k);
      WriteAttributesMain(c1, entries[1..], env, k);
    }
  }

  /** One write leaves a main attribute alone unless it names it. */
  lemma WriteAttributeMainStep(c: Category, attribute: string, value: Value, env: Env, k: string)
    requires k in MainAttributes
    ensures ValueAt(WriteAttribute(c, attribute, value, env).0.data, k) == if attribute == k then value else ValueAt(c.data, k)
  {
    if attribute == k {
      SwitchesToMainIff(k);
    }
  }

  /** An attribute outside the main ones, other than `category` and `image`, ends up a custom attribute. */
  lemma {:induction false} WriteAttributesCustom(c: Category, entries: Record, env: Env, k: string)
    requires k !in MainAttributes && Truthy(k) && k != CategoryKey && k != ImageKey
    ensures ValueAt(WriteAttributes(c, entries, env).0.custom, k) == LastValue(entries, k).GetOr(ValueAt(c.custom, k))
    ensures ValueAt(WriteAttributes(c, entries, env).0.data, k) == ValueAt(c.data, k)
    decreases |entries|
  {
    if entries != [] {
      var c1 := WriteAttribute(c, entries[0].0, entries[0].1, env).0;
      WriteAttributesCustom(c1, entries[1..], env, k);
    }
  }

  /** A `category` key is written nowhere. */
  lemma {:induction false} WriteAttributesSkipsCategory(c: Category, entries: Record, env: Env)
    ensures Get(WriteAttributes(c, entries, env).0.data, CategoryKey) == Get(c.data, CategoryKey)
    ensures Get(WriteAttributes(c, entries, env).0.custom, CategoryKey) == Get(c.custom, CategoryKey)
    decreases |entries|
  {
    if entries != [] {
      var c1 := WriteAttribute(c, entries[0].0, entries[0].1, env).0;
      WriteAttributeSkipsCategory(c, entries[0].0, entries[0].1, env);
      WriteAttributesSkipsCategory(c1, entries[1..], env);
    }
  }

  lemma WriteAttributeSkipsCategory(c: Category, attribute: string, value: Value, env: Env)
    ensures Get(WriteAttribute(c, attribute, value, env).0.data, CategoryKey) == Get(c.data, CategoryKey)
    ensures Get(WriteAttribute(c, attribute, value, env).0.custom, CategoryKey) == Get(c.custom, CategoryKey)
  {
    if attribute == CategoryKey {
      assert !SwitchesToMain(attribute) && Skipped(attribute);
    }
  }

  // ---------------------------------------------------------------------------
  // The category tree walk

  /** The walk's state: the catalog, the saves as (id, parent id) in order, and the log. */
  datatype State = State(catalog: Catalog, saves: seq<(nat, Option<nat>)>, log: seq<LogEntry>)

  /**
   * Everything `createOrUpdateCategory` does for one entry before descending:
   * find by name and parent, write the attributes, default `is_active` to
   * true, set the path and parent, save and log. Returns the saved category.
   */
  function SaveOne(parent: Category, entry: Value, env: Env, st: State): (r: (State, Category))
    ensures var found := Find(st.catalog, ValueAt(Fields(entry), NameKey), parent.id);
            r.1.id.Some? &&
            (found.id.Some? ==> r.1.id == found.id && |r.0.catalog| == |st.catalog|) &&
            (found.id.None? ==> r.1.id == Some(|st.catalog| + 1) && |r.0.catalog| == |st.catalog| + 1) &&
            r.1.path == (if found.id.Some? then parent.path + "/" else parent.path)
    ensures r.1.parentId == parent.id
    ensures !IsSet(Fields(entry), IsActiveKey) ==> ValueAt(r.1.data, IsActiveKey) == Bool(true)
    ensures r.0.saves == st.saves + [(r.1.id.value, parent.id)]
    ensures Load(r.0.catalog, r.1.id.value) == r.1
    ensures IsPrefix(st.log, r.0.log)
  {
    var values := Fields(entry);
    var found := Find(st.catalog, ValueAt(values, NameKey), parent.id);
    var (prepared, log) := Prepare(found, parent, values, env);
    var (catalog', saved) := Save(st.catalog, prepared);
    var log' := st.log + log + [Updated(ValueAt(saved.data, NameKey))];
    assert log'[..|st.log|] == st.log;
    (State(catalog', st.saves + [(saved.id.value, parent.id)], log'), saved)
  }

  /** The found category with the entry written over it, `is_active` defaulted and placed below `parent`. */
  function Prepare(found: Category, parent: Category, values: Record, env: Env): (r: (Category, seq<LogEntry>))
    ensures r.0.id == found.id && r.0.parentId == parent.id
    ensures r.0.path == if found.id.Some? && found.id.value != 0 then parent.path + "/" else parent.path
    ensures !IsSet(values, IsActiveKey) ==> ValueAt(r.0.data, IsActiveKey) == Bool(true)
  {
    var (written, log) := WriteAttributes(found, values, env);
    var active := if IsSet(values, IsActiveKey) then written else written.(data := Put(written.data, IsActiveKey, Bool(true)));
    var path := if active.id.Some? && active.id.value != 0 then parent.path + "/" else parent.path;
    (active.(path := path, parentId := parent.id), log)
  }

  /**
   * The saved category holds the entry's values: a main attribute has the
   * last value the entry gives it, or keeps the found category's value;
   * `is_active` is true when the entry does not set it.
   */
  lemma SaveOneMain(parent: Category, entry: Value, env: Env, st: State, k: string)
    requires k in MainAttributes
    ensures var found := Find(st.catalog, ValueAt(Fields(entry), NameKey), parent.id);
            ValueAt(SaveOne(parent, entry, env, st).1.data, k) ==
              if k == IsActiveKey && !IsSet(Fields(entry), IsActiveKey) then Bool(true)
              else LastValue(Fields(entry), k).GetOr(ValueAt(found.data, k))
  {
    var values := Fields(entry);
    var found := Find(st.catalog, ValueAt(values, NameKey), parent.id);
    WriteAttributesMain(found, values, env, k);
  }

  /**
   * Every other attribute of the entry, apart from `category` and `image`,
   * is saved as a custom attribute with the last value the entry gives it.
   */
  lemma SaveOneCustom(parent: Category, entry: Value, env: Env, st: State, k: string)
    requires k !in MainAttributes && Truthy(k) && k != CategoryKey && k != ImageKey
    ensures var found := Find(st.catalog, ValueAt(Fields(entry), NameKey), parent.id);
            ValueAt(SaveOne(parent, entry, env, st).1.custom, k) == LastValue(Fields(entry), k).GetOr(ValueAt(found.custom, k))
  {
    var values := Fields(entry);
    var found := Find(st.catalog, ValueAt(values, NameKey), parent.id);
    WriteAttributesCustom(found, values, env, k);
  }

  /** A value found in a map is smaller than the map. */
  lemma ValueAtSmaller(entry: Value, k: string)
    requires IsSet(Fields(entry), k)
    ensures ValueAt(Fields(entry), k) < entry
  {
    var entries := Fields(entry);
    var v := ValueAt(entries, k);
    var i :| 0 <= i < |entries| && entries[i] == (k, v);
    assert entries[i] in entry.entries;
  }

  /** An element a `foreach` visits is smaller than the collection. */
  lemma ElementSmaller(list: Value, i: nat)
    requires i < |Elements(list)|
    ensures Elements(list)[i] < list
  {
    if list.Map? {
      assert list.entries[i] in list.entries;
    } else {
      assert list.items[i] in list.items;
    }
  }

  /**
   * `createOrUpdateCategory` for one entry: save it, then walk its nested
   * `categories` with it as parent. Earlier saves and log lines are kept,
   * and the entry's own save comes first.
   */
  function UpdateOne(parent: Category, entry: Value, env: Env, st: State): (r: State)
    ensures IsPrefix(st.saves, r.saves) && IsPrefix(st.log, r.log) && |r.catalog| >= |st.catalog|
    ensures |r.saves| > |st.saves| && r.saves[|st.saves|] == (SaveOne(parent, entry, env, st).1.id.value, parent.id)
    decreases entry, 0
  {
    var (st', saved) := SaveOne(parent, entry, env, st);
    var values := Fields(entry);
    if IsSet(values, CategoriesKey) then
      ValueAtSmaller(entry, CategoriesKey);
      var r := UpdateList(saved, ValueAt(values, CategoriesKey), 0, env, st');
      PrefixTransitive(st.saves, st'.saves, r.saves);
      PrefixTransitive(st.log, st'.log, r.log);
      assert r.saves[|st.saves|] == r.saves[..|st'.saves|][|st.saves|];
      r
    else st'
  }

  /** The loop over a `categories` list from position `i`, all under the same parent; nothing earlier is lost. */
  function UpdateList(parent: Category, list: Value, i: nat, env: Env, st: State): (r: State)
    ensures IsPrefix(st.saves, r.saves) && IsPrefix(st.log, r.log) && |r.catalog| >= |st.catalog|
    ensures |r.saves| >= |st.saves| + |Elements(list)| - i
    decreases list, |Elements(list)| - i
  {
    if i >= |Elements(list)| then st
    else
      ElementSmaller(list, i);
      var st1 := UpdateOne(parent, Elements(list)[i], env, st);
      var r := UpdateList(parent, list, i + 1, env, st1);
      PrefixTransitive(st.saves, st1.saves, r.saves);
      PrefixTransitive(st.log, st1.log, r.log);
      r
  }

  /**
   * Every save from position `from` on is under `top` or under a category
   * saved earlier from `from` on: the saves form a tree below `top`, each
   * parent saved before its children.
   */
  predicate Rooted(saves: seq<(nat, Option<nat>)>, from: nat, top: Option<nat>)
  {
    forall j :: from <= j < |saves| ==> saves[j].1 == top || SavedEarlier(saves, from, j)
  }

  predicate SavedEarlier(saves: seq<(nat, Option<nat>)>, from: nat, j: nat)
    requires j < |saves|
  {
    exists i :: from <= i < j && saves[j].1 == Some(saves[i].0)
  }

  /**
   * Pre-order: the entry itself is saved first, under `parent`, and every
   * later save of its subtree is under a category saved before it.
   */
  lemma {:induction false} UpdateOnePreOrder(parent: Category, entry: Value, env: Env, st: State)
    ensures var r := UpdateOne(parent, entry, env, st);
            IsPrefix(st.saves, r.saves) && |r.saves| > |st.saves| &&
            r.saves[|st.saves|] == (SaveOne(parent, entry, env, st).1.id.value, parent.id) &&
            Rooted(r.saves, |st.saves|, parent.id)
    decreases entry, 0
  {
    var (st', saved) := SaveOne(parent, entry, env, st);
    var values := Fields(entry);
    if IsSet(values, CategoriesKey) {
      ValueAtSmaller(entry, CategoriesKey);
      var list := ValueAt(values, CategoriesKey);
      UpdateListPreOrder(saved, list, 0, env, st');
      var r := UpdateList(saved, list, 0, env, st');
      assert r == UpdateOne(parent, entry, env, st);
      RootedBelow(r.saves, |st.saves|, parent.id);
    }
  }

  /** A save under `top` followed by a tree below it is a tree below `top`. */
  lemma RootedBelow(saves: seq<(nat, Option<nat>)>, n: nat, top: Option<nat>)
    requires n < |saves| && saves[n].1 == top
    requires Rooted(saves, n + 1, Some(saves[n].0))
    ensures Rooted(saves, n, top)
  {
    forall j | n <= j < |saves|
      ensures saves[j].1 == top || SavedEarlier(saves, n, j)
    {
      if j > n && saves[j].1 != top && saves[j].1 != Some(saves[n].0) {
        var i :| n + 1 <= i < j && saves[j].1 == Some(saves[i].0);
      }
    }
  }

  /** The loop keeps the earlier saves and adds a tree below `parent`. */
  lemma {:induction false} UpdateListPreOrder(parent: Category, list: Value, i: nat, env: Env, st: State)
    ensures var r := UpdateList(parent, list, i, env, st);
            IsPrefix(st.saves, r.saves) && Rooted(r.saves, |st.saves|, parent.id)
    decreases list, |Elements(list)| - i
  {
    if i < |Elements(list)| {
      ElementSmaller(list, i);
      var entry := Elements(list)[i];
      UpdateOnePreOrder(parent, entry, env, st);
      var st1 := UpdateOne(parent, entry, env, st);
      UpdateListPreOrder(parent, list, i + 1, env, st1);
      var r := UpdateList(parent, list, i + 1, env, st1);
      RootedJoin(st.saves, st1.saves, r.saves, parent.id);
    }
  }

  /** Two consecutive trees below the same parent make one. */
  lemma RootedJoin(s0: seq<(nat, Option<nat>)>, s1: seq<(nat, Option<nat>)>, s2: seq<(nat, Option<nat>)>, top: Option<nat>)
    requires IsPrefix(s0, s1) && IsPrefix(s1, s2)
    requires Rooted(s1, |s0|, top) && Rooted(s2, |s1|, top)
    ensures IsPrefix(s0, s2) && Rooted(s2, |s0|, top)
  {
    assert s2[..|s0|] == s2[..|s1|][..|s0|];
    forall j | |s0| <= j < |s2|
      ensures s2[j].1 == top || SavedEarlier(s2, |s0|, j)
    {
      if j < |s1| {
        assert s2[j] == s1[j];
        if s1[j].1 != top {
          var i :| |s0| <= i < j && s1[j].1 == Some(s1[i].0);
          assert s2[i] == s1[i];
        }
      } else if s2[j].1 != top {
        var i :| |s1| <= i < j && s2[j].1 == Some(s2[i].0);
      }
    }
  }

  // ---------------------------------------------------------------------------
  // The store-group loop

  /** The attributes a new root category is created with. */
  function RootData(name: Value, urlKey: string, storeId: Value): (data: Record)
    ensures ValueAt(data, NameKey) == name
    ensures ValueAt(data, IsActiveKey) == Bool(true)
    ensures ValueAt(data, UrlKeyKey) == Str(urlKey)
    ensures ValueAt(data, StoreIdKey) == storeId
  {
    var d3: Record := [(StoreIdKey, storeId)];
    var d2 := [(UrlKeyKey, Str(urlKey))] + d3;
    var d1 := [(IsActiveKey, Bool(true))] + d2;
    var data := [(NameKey, name)] + d1;
    assert Get(d3, StoreIdKey) == Some(storeId);
    assert d2[1..] == d3 && Get(d2, StoreIdKey) == Get(d3, StoreIdKey);
    assert d1[1..] == d2 && Get(d1, StoreIdKey) == Get(d2, StoreIdKey) && Get(d1, UrlKeyKey) == Get(d2, UrlKeyKey);
    assert data[1..] == d1 && Get(data, StoreIdKey) == Get(d1, StoreIdKey) && Get(data, UrlKeyKey) == Get(d1, UrlKeyKey);
    assert Get(data, IsActiveKey) == Get(d1, IsActiveKey);
    data
  }

  /** A new root category under the catalog's tree root, for a group with `new_root: true`. */
  function CreateRoot(store: Record, env: Env, catalog: Catalog): (r: (Catalog, Category))
    ensures |r.0| == |catalog| + 1 && r.0[..|catalog|] == catalog
    ensures r.1.id == Some(|catalog| + 1)
    ensures ValueAt(r.1.data, NameKey) == ValueAt(store, StoreGroupKey)
    ensures ValueAt(r.1.data, IsActiveKey) == Bool(true)
    ensures ValueAt(r.1.data, UrlKeyKey) == Str(UrlKey(Text(ValueAt(store, StoreGroupKey)), env.decode))
    ensures r.1.parentId == Load(catalog, TreeRootId).id && r.1.path == Load(catalog, TreeRootId).path
  {
    var root := Load(catalog, TreeRootId);
    var name := ValueAt(store, StoreGroupKey);
    var data := RootData(name, UrlKey(Text(name), env.decode), ValueAt(store, RootStoreIdKey));
    var c := Category(None, root.id, root.path, data, []);
    var r := Save(catalog, c);
    assert r.1 == c.(id := Some(|catalog| + 1));
    r
  }

  /**
   * One store group of `processData`: skipped without `store_group`; with
   * `new_root: true` a root category is created; when `new_root` is unset
   * or false the group's root category is found and, when the group lists
   * `categories`, its tree is updated below that root after an
   * `UpdatingGroup` line. Any other `new_root` does neither. A failed lookup
   * is logged. Nothing saved or logged before is lost.
   */
  function ProcessStore(store: Value, groups: seq<StoreGroup>, env: Env, st: State): (r: State)
    ensures IsPrefix(st.saves, r.saves) && IsPrefix(st.log, r.log) && |r.catalog| >= |st.catalog|
    ensures !IsSet(Fields(store), StoreGroupKey) ==> r == st
    ensures IsSet(Fields(store), StoreGroupKey) && ValueAt(Fields(store), NewRootKey) == Bool(true) ==>
              r == st.(catalog := CreateRoot(Fields(store), env, st.catalog).0)
    ensures IsSet(Fields(store), StoreGroupKey) && ValueAt(Fields(store), NewRootKey) !in {Null, Bool(true), Bool(false)} ==>
              r == st
    ensures var name := ValueAt(Fields(store), StoreGroupKey);
            IsSet(Fields(store), StoreGroupKey) && ValueAt(Fields(store), NewRootKey) in {Null, Bool(false)} &&
            GetDefaultCategory(groups, st.catalog, name).Failure? ==>
              r == st.(log := st.log + [GroupFailed(GetDefaultCategory(groups, st.catalog, name).error)])
    ensures var name := ValueAt(Fields(store), StoreGroupKey);
            var found := GetDefaultCategory(groups, st.catalog, name);
            (IsSet(Fields(store), StoreGroupKey) && ValueAt(Fields(store), NewRootKey) in {Null, Bool(false)} &&
             found.Success? && !IsSet(Fields(store), CategoriesKey)) ==> r == st
  {
    var values := Fields(store);
    if !IsSet(values, StoreGroupKey) then st else StoreGroupStep(values, groups, env, st)
  }

  /** A store group that names itself: `new_root` decides between a new root, the lookup, and nothing. */
  function StoreGroupStep(values: Record, groups: seq<StoreGroup>, env: Env, st: State): (r: State)
    ensures IsPrefix(st.saves, r.saves) && IsPrefix(st.log, r.log) && |r.catalog| >= |st.catalog|
  {
    var newRoot := ValueAt(values, NewRootKey);
    if newRoot == Bool(true) then st.(catalog := CreateRoot(values, env, st.catalog).0)
    else if newRoot == Null || newRoot == Bool(false) then LookupGroup(values, groups, env, st)
    else st
  }

  /** The group's root category by name: a failed lookup is logged, a found one is updated. */
  function LookupGroup(values: Record, groups: seq<StoreGroup>, env: Env, st: State): (r: State)
    ensures IsPrefix(st.saves, r.saves) && IsPrefix(st.log, r.log) && |r.catalog| >= |st.catalog|
  {
    match GetDefaultCategory(groups, st.catalog, ValueAt(values, StoreGroupKey))
    case Failure(m) =>
      var log := st.log + [GroupFailed(m)];
      assert log[..|st.log|] == st.log;
      st.(log := log)
    case Success(category) => UpdateGroup(category, values, env, st)
  }

  /** A found group: its `categories`, if listed, are walked below its root category. */
  function UpdateGroup(root: Category, values: Record, env: Env, st: State): (r: State)
    ensures IsPrefix(st.saves, r.saves) && IsPrefix(st.log, r.log) && |r.catalog| >= |st.catalog|
    ensures !IsSet(values, CategoriesKey) ==> r == st
  {
    if IsSet(values, CategoriesKey) then
      var st2 := st.(log := st.log + [UpdatingGroup(ValueAt(values, StoreGroupKey))]);
      var r := UpdateList(root, ValueAt(values, CategoriesKey), 0, env, st2);
      PrefixTransitive(st.log, st2.log, r.log);
      r
    else st
  }

  /**
   * A group found by name, listing `categories`: an `UpdatingGroup` line is
   * logged, then each listed category is saved, and every save is in a
   * tree below the group's root category.
   */
  lemma ProcessStoreUpdatesTree(store: Value, groups: seq<StoreGroup>, env: Env, st: State)
    requires IsSet(Fields(store), StoreGroupKey) && ValueAt(Fields(store), NewRootKey) in {Null, Bool(false)}
    requires GetDefaultCategory(groups, st.catalog, ValueAt(Fields(store), StoreGroupKey)).Success?
    requires IsSet(Fields(store), CategoriesKey)
    ensures var r := ProcessStore(store, groups, env, st);
            var root := GetDefaultCategory(groups, st.catalog, ValueAt(Fields(store), StoreGroupKey)).value;
            IsPrefix(st.log + [UpdatingGroup(ValueAt(Fields(store), StoreGroupKey))], r.log) &&
            |r.saves| >= |st.saves| + |Elements(ValueAt(Fields(store), CategoriesKey))| &&
            Rooted(r.saves, |st.saves|, root.id)
  {
    var values := Fields(store);
    var root := GetDefaultCategory(groups, st.catalog, ValueAt(values, StoreGroupKey)).value;
    assert LookupGroup(values, groups, env, st) == UpdateGroup(root, values, env, st);
    assert StoreGroupStep(values, groups, env, st) == LookupGroup(values, groups, env, st);
    UpdateGroupTree(root, values, env, st);
  }

  lemma UpdateGroupTree(root: Category, values: Record, env: Env, st: State)
    requires IsSet(values, CategoriesKey)
    ensures var r := UpdateGroup(root, values, env, st);
            IsPrefix(st.log + [UpdatingGroup(ValueAt(values, StoreGroupKey))], r.log) &&
            |r.saves| >= |st.saves| + |Elements(ValueAt(values, CategoriesKey))| &&
            Rooted(r.saves, |st.saves|, root.id)
  {
    var st2 := st.(log := st.log + [UpdatingGroup(ValueAt(values, StoreGroupKey))]);
    UpdateListPreOrder(root, ValueAt(values, CategoriesKey), 0, env, st2);
  }

  /** The store-group loop from position `i`; a failed group does not stop the next, and nothing earlier is lost. */
  function ProcessStores(stores: seq<Value>, i: nat, groups: seq<StoreGroup>, env: Env, st: State): (r: State)
    ensures IsPrefix(st.saves, r.saves) && IsPrefix(st.log, r.log) && |r.catalog| >= |st.catalog|
    decreases |stores| - i
  {
    if i >= |stores| then st
    else
      var st1 := ProcessStore(stores[i], groups, env, st);
      var r := ProcessStores(stores, i + 1, groups, env, st1);
      PrefixTransitive(st.saves, st1.saves, r.saves);
      PrefixTransitive(st.log, st1.log, r.log);
      r
  }

  /**
   * `processData`: nothing happens without a `categories` node; with one,
   * every store group under it is processed, and no save or log line is
   * undone.
   */
  function ProcessData(data: Value, groups: seq<StoreGroup>, env: Env, st: State): (r: State)
    ensures !IsSet(Fields(data), CategoriesKey) ==> r == st
    ensures IsPrefix(st.saves, r.saves) && IsPrefix(st.log, r.log) && |r.catalog| >= |st.catalog|
  {
    if IsSet(Fields(data), CategoriesKey) then ProcessStores(Elements(ValueAt(Fields(data), CategoriesKey)), 0, groups, env, st)
    else st
  }

  /** A store without `store_group` is passed over: the loop goes on from the same state. */
  lemma UngroupedStoreSkipped(stores: seq<Value>, i: nat, groups: seq<StoreGroup>, env: Env, st: State)
    requires i < |stores| && !IsSet(Fields(stores[i]), StoreGroupKey)
    ensures ProcessStores(stores, i, groups, env, st) == ProcessStores(stores, i + 1, groups, env, st)
  {
  }

  /**
   * A group whose lookup fails only logs: the groups after it run from the
   * same catalog and saves.
   */
  lemma FailedGroupContinues(stores: seq<Value>, i: nat, groups: seq<StoreGroup>, env: Env, st: State)
    requires i < |stores|
    requires IsSet(Fields(stores[i]), StoreGroupKey) && ValueAt(Fields(stores[i]), NewRootKey) == Null
    requires GetDefaultCategory(groups, st.catalog, ValueAt(Fields(stores[i]), StoreGroupKey)).Failure?
    ensures var m := GetDefaultCategory(groups, st.catalog, ValueAt(Fields(stores[i]), StoreGroupKey)).error;
            ProcessStores(stores, i, groups, env, st) ==
            ProcessStores(stores, i + 1, groups, env, st.(log := st.log + [GroupFailed(m)]))
  {
  }
}
