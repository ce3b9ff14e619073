/**
 * What the customer and customer-group components share: the source file's
 * extension as `pathinfo` reports it, and the CSV reading in which the first
 * row names the columns.
 */
module FileTypes {
  import opened Wrappers
  import opened Values

  const TypeCsv: string := "csv"
  const TypeYaml: string := "yaml"
  const NoExtension: string := "Could not find a valid extension for the source file."

  /** The position of the last `c` in `s`, if any. */
  function LastIndexOf(s: string, c: char): (r: Option<nat>)
    ensures r.None? <==> c !in s
    ensures r.Some? ==> r.value < |s| && s[r.value] == c && c !in s[r.value + 1..]
  {
    if s == [] then None
    else if s[|s| - 1] == c then Some(|s| - 1)
    else
      var r := LastIndexOf(s[..|s| - 1], c);
      assert r.Some? ==> s[r.value + 1..] == s[..|s| - 1][r.value + 1..] + [s[|s| - 1]];
      r
  }

  /** The path without its trailing slashes. */
  function TrimSlashes(s: string): (r: string)
    ensures |r| <= |s| && r == s[..|r|]
    ensures r == [] || r[|r| - 1] != '/'
  {
    if s != [] && s[|s| - 1] == '/' then TrimSlashes(s[..|s| - 1]) else s
  }

  /**
   * `basename`: the last path component, trailing slashes ignored. The
   * result is the end of the trimmed path, holds no slash, and is either
   * the whole trimmed path or preceded in it by a slash.
   */
  function Basename(path: string): (b: string)
    ensures '/' !in b
    ensures var t := TrimSlashes(path);
            |b| <= |t| && b == t[|t| - |b|..] &&
            ('/' !in t ==> b == t) &&
            ('/' in t ==> |b| < |t| && t[|t| - |b| - 1] == '/')
  {
    var t := TrimSlashes(path);
    match LastIndexOf(t, '/')
    case Some(i) => t[i + 1..]
    case None => t
  }

  /**
   * `getFileType`: the text after the last dot of the file's base name. A
   * base name without a dot has no extension and is an error; a trailing dot
   * gives the empty extension, which counts as set.
   */
  function Extension(path: string): (r: Result<string, string>)
    ensures r.Failure? <==> '.' !in Basename(path)
    ensures r.Failure? ==> r.error == NoExtension
    ensures r.Success? ==> '.' !in r.value && '/' !in r.value
    ensures r.Success? ==> |r.value| < |Basename(path)| &&
                           Basename(path) == Basename(path)[..|Basename(path)| - |r.value| - 1] + "." + r.value
  {
    AfterLastDot(Basename(path))
  }

  /** The text after the last dot of a base name `b`, if it has a dot. */
  function AfterLastDot(b: string): (r: Result<string, string>)
    requires '/' !in b
    ensures r.Failure? <==> '.' !in b
    ensures r.Failure? ==> r.error == NoExtension
    ensures r.Success? ==> '.' !in r.value && '/' !in r.value
    ensures r.Success? ==> |r.value| < |b| && b == b[..|b| - |r.value| - 1] + "." + r.value
  {
    match LastIndexOf(b, '.')
    case Some(i) =>
      assert b == b[..i] + "." + b[i + 1..];
      Success(b[i + 1..])
    case None => Failure(NoExtension)
  }

  /** Parsed CSV: rows of cells. */
  type Csv = seq<seq<string>>

  /** `getAttributesFromCsv`: the first row's cells, in order; no first row gives none. */
  method AttributesFromCsv(rows: Csv) returns (attributes: seq<string>)
    ensures |rows| > 0 ==> |attributes| == |rows[0]| && forall j :: 0 <= j < |rows[0]| ==> attributes[j] == rows[0][j]
    ensures |rows| == 0 ==> attributes == []
  {
    attributes := [];
    if |rows| == 0 {
      return;
    }
    var j := 0;
    while j < |rows[0]|
      invariant 0 <= j <= |rows[0]|
      invariant attributes == rows[0][..j]
    {
      attributes := attributes + [rows[0][j]];
      j := j + 1;
    }
  }

  /** `$row[$column]`: a short row reads null past its end. */
  function Cell(row: seq<string>, j: nat): Value
  {
    if j < |row| then Str(row[j]) else Null
  }

  /** The (column name, cell) pairs of one row, in column order. */
  function Columns(keys: seq<string>, row: seq<string>): (c: Record)
    ensures |c| == |keys|
    ensures forall j :: 0 <= j < |keys| ==> c[j] == (keys[j], Cell(row, j))
  {
    ColumnsFrom(keys, row, 0)
  }

  function ColumnsFrom(keys: seq<string>, row: seq<string>, from: nat): (c: Record)
    requires from <= |keys|
    ensures |c| == |keys| - from
    ensures forall j :: from <= j < |keys| ==> c[j - from] == (keys[j], Cell(row, j))
    decreases |keys| - from
  {
    if from == |keys| then [] else [(keys[from], Cell(row, from))] + ColumnsFrom(keys, row, from + 1)
  }

  /** Assigning each pair in order; a repeated column name keeps its first position and its last cell. */
  function PutAll(r: Record, writes: Record): (r': Record)
    decreases |writes|
  {
    if writes == [] then r else PutAll(Put(r, writes[0].0, writes[0].1), writes[1..])
  }

  lemma {:induction false} PutAllValue(r: Record, writes: Record, k: string)
    ensures Get(PutAll(r, writes), k) == match LastValue(writes, k) case Some(v) => Some(v) case None => Get(r, k)
    decreases |writes|
  {
    if writes != [] {
      PutAllValue(Put(r, writes[0].0, writes[0].1), writes[1..], k);
    }
  }

  /** One data row as a record keyed by the header row. */
  function RowRecord(keys: seq<string>, row: seq<string>): Record
  {
    PutAll([], Columns(keys, row))
  }

  /**
   * The record holds a key exactly when the header names it, with the cell
   * of the last column of that name.
   */
  lemma RowRecordValue(keys: seq<string>, row: seq<string>, k: string)
    ensures HasKey(RowRecord(keys, row), k) <==> k in keys
    ensures k in keys ==> Get(RowRecord(keys, row), k) == LastValue(Columns(keys, row), k)
  {
    PutAllValue([], Columns(keys, row), k);
    var c := Columns(keys, row);
    if k in keys {
      var j :| 0 <= j < |keys| && keys[j] == k;
      assert c[j].0 == k;
    }
  }

  /** With distinct column names, column `j`'s name maps to the row's cell `j`. */
  lemma RowRecordColumn(keys: seq<string>, row: seq<string>, j: nat)
    requires j < |keys|
    requires forall a, b :: 0 <= a < b < |keys| ==> keys[a] != keys[b]
    ensures Get(RowRecord(keys, row), keys[j]) == Some(Cell(row, j))
  {
    RowRecordValue(keys, row, keys[j]);
    LastValueAt(Columns(keys, row), j);
  }

  /** The last write to a key whose later entries all have other keys is that write. */
  lemma {:induction false} LastValueAt(writes: Record, j: nat)
    requires j < |writes|
    requires forall b :: j < b < |writes| ==> writes[b].0 != writes[j].0
    ensures LastValue(writes, writes[j].0) == Some(writes[j].1)
    decreases |writes|
  {
    if j > 0 {
      LastValueAt(writes[1..], j - 1);
    } else {
      assert forall b :: 0 <= b < |writes[1..]| ==> writes[1..][b].0 != writes[0].0;
    }
  }

  /** Every data row becomes one record, in order. */
  function Records(keys: seq<string>, rows: Csv): (rs: seq<Record>)
    ensures |rs| == |rows|
    ensures forall i :: 0 <= i < |rows| ==> rs[i] == RowRecord(keys, rows[i])
  {
    if rows == [] then [] else [RowRecord(keys, rows[0])] + Records(keys, rows[1..])
  }
}
