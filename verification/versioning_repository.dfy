/**
 * The ledger table of applied versions and its repository: `save`, which
 * wraps every storage error, and `getList`, a filter, count, sort, page and
 * convert pipeline over the table's rows.
 */
module VersioningRepository {
  import opened Wrappers
  import opened Values
  import opened Versioning
  import opened Seqs

  /** One row of the ledger table; `version` is its primary key. */
  datatype Row = Row(version: int, updateTime: Value)

  /** The table's rows in insertion order; a listing reads them back in key order (`KeyOrder`). */
  type Table = seq<Row>

  function VersionsOf(table: Table): (vs: seq<int>)
    ensures |vs| == |table|
    ensures forall i :: 0 <= i < |table| ==> vs[i] == table[i].version
  {
    if table == [] then [] else [table[0].version] + VersionsOf(table[1..])
  }

  /** Inserting a row adds its version at the end of the ledger's versions. */
  lemma VersionsOfAppend(table: Table, row: Row)
    ensures VersionsOf(table + [row]) == VersionsOf(table) + [row.version]
  {
    var vs := VersionsOf(table + [row]);
    assert forall i :: 0 <= i < |table| ==> vs[i] == (table + [row])[i].version == table[i].version;
  }

  /** Rows whose versions never decrease: the order of the table's primary-key index. */
  predicate Ascending(rows: Table)
  {
    forall i, j :: 0 <= i < j < |rows| ==> rows[i].version <= rows[j].version
  }

  /** One step of the index scan: `row` goes before the first row of `sorted` whose version is not smaller. */
  function InsertByVersion(row: Row, sorted: Table): (r: Table)
    requires Ascending(sorted)
    ensures |r| == |sorted| + 1
    ensures forall i :: 0 <= i < |r| ==> r[i] == row || r[i] in sorted
    ensures Ascending(r)
  {
    if sorted == [] || row.version <= sorted[0].version then [row] + sorted
    else
      var rest := InsertByVersion(row, sorted[1..]);
      LowerBound(row, sorted, rest);
      [sorted[0]] + rest
  }

  /** Whatever is inserted after the head of an ascending table is at least the head. */
  lemma LowerBound(row: Row, sorted: Table, rest: Table)
    requires Ascending(sorted) && sorted != [] && sorted[0].version < row.version
    requires Ascending(rest)
    requires forall i :: 0 <= i < |rest| ==> rest[i] == row || rest[i] in sorted[1..]
    ensures Ascending([sorted[0]] + rest)
  {
    forall i | 0 <= i < |rest|
      ensures sorted[0].version <= rest[i].version
    {
      if rest[i] != row {
        var j :| 0 <= j < |sorted| - 1 && sorted[1..][j] == rest[i];
        assert sorted[j + 1] == rest[i];
      }
    }
    forall i, j | 0 <= i < j < |rest| + 1
      ensures ([sorted[0]] + rest)[i].version <= ([sorted[0]] + rest)[j].version
    {
      if i > 0 {
        assert ([sorted[0]] + rest)[i] == rest[i - 1];
      }
      assert ([sorted[0]] + rest)[j] == rest[j - 1];
    }
  }

  lemma {:induction false} InsertPermutes(row: Row, sorted: Table)
    requires Ascending(sorted)
    ensures multiset(InsertByVersion(row, sorted)) == multiset(sorted) + multiset{row}
  {
    if sorted != [] && row.version > sorted[0].version {
      InsertPermutes(row, sorted[1..]);
      assert sorted == [sorted[0]] + sorted[1..];
    }
  }

  /**
   * The order in which the table's rows come back from a query without an
   * ORDER BY clause: the scan of the primary-key (`version`) index, that is
   * ascending versions, whatever order the rows were inserted in.
   */
  function KeyOrder(rows: Table): (r: Table)
    ensures Ascending(r)
    ensures |r| == |rows|
  {
    if rows == [] then [] else InsertByVersion(rows[0], KeyOrder(rows[1..]))
  }

  /** Listing in key order loses and invents no row. */
  lemma {:induction false} KeyOrderPermutes(rows: Table)
    ensures multiset(KeyOrder(rows)) == multiset(rows)
  {
    if rows != [] {
      var rest := KeyOrder(rows[1..]);
      KeyOrderPermutes(rows[1..]);
      InsertPermutes(rows[0], rest);
      calc {
        multiset(KeyOrder(rows));
        multiset(InsertByVersion(rows[0], rest));
        multiset(rest) + multiset{rows[0]};
        multiset(rows[1..]) + multiset{rows[0]};
        { assert rows == [rows[0]] + rows[1..]; }
        multiset(rows);
      }
    }
  }

  /** The same versions are listed as are stored, only their order differs. */
  lemma KeyOrderSameVersions(rows: Table)
    ensures forall v :: v in VersionsOf(KeyOrder(rows)) <==> v in VersionsOf(rows)
  {
    var sorted := KeyOrder(rows);
    KeyOrderPermutes(rows);
    forall v | v in VersionsOf(sorted)
      ensures v in VersionsOf(rows)
    {
      var i :| 0 <= i < |sorted| && VersionsOf(sorted)[i] == v;
      assert sorted[i] in multiset(rows);
      var j :| 0 <= j < |rows| && rows[j] == sorted[i];
      assert VersionsOf(rows)[j] == v;
    }
    forall v | v in VersionsOf(rows)
      ensures v in VersionsOf(sorted)
    {
      var j :| 0 <= j < |rows| && VersionsOf(rows)[j] == v;
      assert rows[j] in multiset(sorted);
      var i :| 0 <= i < |sorted| && sorted[i] == rows[j];
      assert VersionsOf(sorted)[i] == v;
    }
  }

  /** The last version of a key-order listing is the greatest version in the table. */
  lemma LastListedIsGreatest(rows: Table)
    requires rows != []
    ensures var vs := VersionsOf(KeyOrder(rows));
            |vs| == |rows| && vs[|vs| - 1] in VersionsOf(rows) &&
            forall v :: v in VersionsOf(rows) ==> v <= vs[|vs| - 1]
  {
    var sorted := KeyOrder(rows);
    KeyOrderSameVersions(rows);
    var vs := VersionsOf(sorted);
    forall v | v in VersionsOf(rows)
      ensures v <= vs[|vs| - 1]
    {
      assert v in vs;
      var i :| 0 <= i < |vs| && vs[i] == v;
      if i < |vs| - 1 {
        assert sorted[i].version <= sorted[|vs| - 1].version;
      }
    }
  }

  /** What the resource model's insert can fail with. */
  datatype StorageError =
    | DuplicateVersion(version: int)
    | MissingVersion
    | StorageFault(message: string)

  /** The repository's exception, carrying the cause's message unchanged. */
  datatype CouldNotSave = CouldNotSave(cause: StorageError)

  /**
   * The resource model inserting a new record. The primary key is not
   * auto-incremented, so the record must carry an integer version, and a
   * version already in the table is rejected. `fault` stands for any other
   * storage failure of this insert.
   */
  function ResourceSave(table: Table, m: Versioning, fault: Option<string>): (r: Result<Table, StorageError>)
    ensures r.Success? <==> GetVersion(m).Int? && GetVersion(m).i !in VersionsOf(table) && fault.None?
    ensures r.Success? ==> r.value == table + [Row(GetVersion(m).i, GetUpdateTime(m))]
  {
    match GetVersion(m)
    case Int(v) =>
      if v in VersionsOf(table) then Failure(DuplicateVersion(v))
      else if fault.Some? then Failure(StorageFault(fault.value))
      else Success(table + [Row(v, GetUpdateTime(m))])
    case _ => Failure(MissingVersion)
  }

  /**
   * `save`: on success the very record it was given comes back; any storage
   * error is rethrown as `CouldNotSave` with the same cause.
   */
  function Save(table: Table, m: Versioning, fault: Option<string>): (r: Result<(Versioning, Table), CouldNotSave>)
    ensures r.Failure? <==> ResourceSave(table, m, fault).Failure?
    ensures r.Success? ==> r.value.0 == m
    ensures r.Success? ==> r.value.1 == table + [Row(GetVersion(m).i, GetUpdateTime(m))]
    ensures r.Failure? ==> r.error.cause == ResourceSave(table, m, fault).error
    ensures GetVersion(m).Int? && GetVersion(m).i in VersionsOf(table) ==>
              r == Failure(CouldNotSave(DuplicateVersion(GetVersion(m).i)))
  {
    match ResourceSave(table, m, fault)
    case Success(table') => Success((m, table'))
    case Failure(e) => Failure(CouldNotSave(e))
  }

  /** A search filter; `conditionType` is PHP-falsy when unset. */
  datatype Filter = Filter(field: string, value: Value, conditionType: Option<string>)

  datatype SortOrder = SortOrder(field: string, direction: Option<string>)

  datatype SearchCriteria = SearchCriteria(
    filterGroups: seq<seq<Filter>>,
    sortOrders: seq<SortOrder>,
    currentPage: Option<int>,
    pageSize: Option<int>)

  datatype Direction = Asc | Desc

  datatype SearchResults = SearchResults(criteria: SearchCriteria, items: seq<Record>, totalCount: nat)

  /** `SortOrder::SORT_ASC`. */
  const SortAsc: string := "ASC"

  const DefaultCondition: string := "eq"

  /** `$filter->getConditionType() ?: 'eq'`: a falsy condition type means equality. */
  function Condition(f: Filter): (c: string)
    ensures f.conditionType.None? ==> c == DefaultCondition
    ensures f.conditionType.Some? && f.conditionType.value !in {"", "0"} ==> c == f.conditionType.value
  {
    match f.conditionType
    case Some(t) => if t == "" || t == "0" then DefaultCondition else t
    case None => DefaultCondition
  }

  /** The direction handed to the collection: ascending exactly for `SORT_ASC`. */
  function DirectionOf(s: SortOrder): (d: Direction)
    ensures d == Asc <==> s.direction == Some(SortAsc)
  {
    if s.direction == Some(SortAsc) then Asc else Desc
  }

  /** The field a filter or sort order names, as stored in a row. */
  function FieldOf(row: Row, field: string): Value
  {
    if field == VersionKey then Int(row.version)
    else if field == UpdateTimeKey then row.updateTime
    else Null
  }

  /** A row passes one filter; `holds` is the database's reading of a condition. */
  predicate Passes(row: Row, f: Filter, holds: (string, Value, Value) -> bool)
  {
    holds(Condition(f), FieldOf(row, f.field), f.value)
  }

  /** Every filter of one group is added to the same collection. */
  predicate PassesGroup(row: Row, group: seq<Filter>, holds: (string, Value, Value) -> bool)
  {
    forall j :: 0 <= j < |group| ==> Passes(row, group[j], holds)
  }

  predicate PassesAll(row: Row, groups: seq<seq<Filter>>, holds: (string, Value, Value) -> bool)
  {
    forall g :: 0 <= g < |groups| ==> PassesGroup(row, groups[g], holds)
  }

  /** The rows the filtered collection holds, in table order. */
  function Filtered(table: Table, groups: seq<seq<Filter>>, holds: (string, Value, Value) -> bool): (rows: Table)
    ensures |rows| <= |table|
    ensures forall row :: row in rows <==> row in table && PassesAll(row, groups, holds)
    ensures IsSubsequence(rows, table)
  {
    if table == [] then []
    else if PassesAll(table[0], groups, holds) then [table[0]] + Filtered(table[1..], groups, holds)
    else Filtered(table[1..], groups, holds)
  }

  /** The ORDER BY clauses the repository adds, one per sort order, in order. */
  function OrderClauses(orders: seq<SortOrder>): (cs: seq<(string, Direction)>)
    ensures |cs| == |orders|
    ensures forall i :: 0 <= i < |orders| ==> cs[i] == (orders[i].field, DirectionOf(orders[i]))
  {
    if orders == [] then [] else [(orders[0].field, DirectionOf(orders[0]))] + OrderClauses(orders[1..])
  }

  /**
   * The rows of the requested page: with a positive page size, the
   * `pageSize` rows starting at `(currentPage - 1) * pageSize`, a missing or
   * non-positive page counting as the first; without one, every row.
   */
  function PageOf(rows: Table, currentPage: Option<int>, pageSize: Option<int>): (page: Table)
    ensures |page| <= |rows|
    ensures pageSize.None? || pageSize.value <= 0 ==> page == rows
    ensures pageSize.Some? && pageSize.value > 0 ==> |page| <= pageSize.value
  {
    match pageSize
    case Some(n) =>
      if n <= 0 then rows
      else
        var p := if currentPage.Some? && currentPage.value > 1 then currentPage.value else 1;
        var from := (p - 1) * n;
        if from >= |rows| then []
        else if from + n >= |rows| then rows[from..]
        else rows[from..from + n]
    case None => rows
  }

  /** The output array built for one collection model. */
  function Output(row: Row): Record
  {
    [(VersionKey, Int(row.version)), (UpdateTimeKey, row.updateTime)]
  }

  function Outputs(rows: Table): (items: seq<Record>)
    ensures |items| == |rows|
    ensures forall i :: 0 <= i < |rows| ==> items[i] == Output(rows[i])
  {
    if rows == [] then [] else [Output(rows[0])] + Outputs(rows[1..])
  }

  /**
   * `getList`. `holds` is the database's reading of a filter condition and
   * `sort` the database applying ORDER BY clauses; both are outside this
   * model. Without sort orders no ORDER BY is issued and the rows come back
   * in primary-key order. The total is counted after filtering and before
   * sorting and paging, and the items are one output array per row of the
   * page, in order.
   */
  function GetList(
    table: Table,
    criteria: SearchCriteria,
    holds: (string, Value, Value) -> bool,
    sort: (Table, seq<(string, Direction)>) -> Table): (r: SearchResults)
    ensures r.criteria == criteria
    ensures r.totalCount == |Filtered(table, criteria.filterGroups, holds)|
    ensures var sorted := if criteria.sortOrders == [] then KeyOrder(Filtered(table, criteria.filterGroups, holds))
                          else sort(Filtered(table, criteria.filterGroups, holds), OrderClauses(criteria.sortOrders));
            var page := PageOf(sorted, criteria.currentPage, criteria.pageSize);
            |r.items| == |page| && forall i :: 0 <= i < |page| ==> r.items[i] == Output(page[i])
  {
    var filtered := Filtered(table, criteria.filterGroups, holds);
    var sorted := if criteria.sortOrders == [] then KeyOrder(filtered) else sort(filtered, OrderClauses(criteria.sortOrders));
    SearchResults(criteria, Outputs(PageOf(sorted, criteria.currentPage, criteria.pageSize)), |filtered|)
  }

  /** The criteria the processor is given: no filters, no sort orders, no paging. */
  const EmptyCriteria: SearchCriteria := SearchCriteria([], [], None, None)

  /**
   * Listing with empty criteria returns every row in primary-key order, so
   * the `version` column of the items is the table's versions, ascending.
   */
  lemma {:induction false} ListAllVersions(
    table: Table,
    holds: (string, Value, Value) -> bool,
    sort: (Table, seq<(string, Direction)>) -> Table)
    ensures GetList(table, EmptyCriteria, holds, sort).totalCount == |table|
    ensures var items := GetList(table, EmptyCriteria, holds, sort).items;
            |items| == |table| &&
            forall i :: 0 <= i < |table| ==> Get(items[i], VersionKey) == Some(Int(KeyOrder(table)[i].version))
  {
    FilterNothing(table, holds);
  }

  lemma {:induction false} FilterNothing(table: Table, holds: (string, Value, Value) -> bool)
    ensures Filtered(table, [], holds) == table
  {
    if table != [] {
      FilterNothing(table[1..], holds);
      assert table == [table[0]] + table[1..];
    }
  }
}
