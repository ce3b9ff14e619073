/**
 * Parsed YAML/CSV data as the PHP code sees it: scalars, lists and ordered
 * string-keyed arrays. A `Record` is an ordered association list standing for
 * a PHP array with string keys; `Put` keeps PHP's rule that assigning to an
 * existing key keeps its position and assigning to a new key appends.
 */
module Values {
  import opened Wrappers

  datatype Value =
    | Null
    | Bool(b: bool)
    | Int(i: int)
    | Str(s: string)
    | List(items: seq<Value>)
    | Map(entries: seq<(string, Value)>)

  type Record = seq<(string, Value)>

  /** The value stored under `k` (the first entry with that key). */
  function Get(r: Record, k: string): (v: Option<Value>)
    ensures v.Some? <==> exists i :: 0 <= i < |r| && r[i].0 == k
    ensures v.Some? ==> exists i :: 0 <= i < |r| && r[i] == (k, v.value)
  {
    if r == [] then None
    else if r[0].0 == k then Some(r[0].1)
    else Get(r[1..], k)
  }

  /** `$r[$k]` read without the key check: null when the key is absent. */
  function ValueAt(r: Record, k: string): Value
  {
    Get(r, k).GetOr(Null)
  }

  /** PHP's `array_key_exists($k, $r)`: true even when the value is null. */
  predicate HasKey(r: Record, k: string)
  {
    Get(r, k).Some?
  }

  /** PHP's `isset($r[$k])`: the key exists and its value is not null. */
  predicate IsSet(r: Record, k: string)
  {
    Get(r, k).Some? && Get(r, k).value != Null
  }

  /** No key occurs twice, as in every PHP array. */
  predicate UniqueKeys(r: Record)
  {
    forall i, j :: 0 <= i < j < |r| ==> r[i].0 != r[j].0
  }

  /** `$r[$k] = $v`: overwrite in place when the key exists, append otherwise. */
  function Put(r: Record, k: string, v: Value): (r': Record)
    ensures Get(r', k) == Some(v)
    ensures forall k' :: k' != k ==> Get(r', k') == Get(r, k')
    ensures HasKey(r, k) ==> |r'| == |r| && forall i :: 0 <= i < |r| ==> r'[i].0 == r[i].0
    ensures !HasKey(r, k) ==> r' == r + [(k, v)]
  {
    if r == [] then [(k, v)]
    else if r[0].0 == k then [(k, v)] + r[1..]
    else
      var rest := Put(r[1..], k, v);
      PutConsGet(r, k, v, rest);
      PutConsKeys(r, k, v, rest);
      PutConsAppend(r, k, v, rest);
      [r[0]] + rest
  }

  /** Put's recursive step keeps every other key's value. */
  lemma PutConsGet(r: Record, k: string, v: Value, rest: Record)
    requires r != [] && r[0].0 != k
    requires Get(rest, k) == Some(v)
    requires forall k' :: k' != k ==> Get(rest, k') == Get(r[1..], k')
    ensures Get([r[0]] + rest, k) == Some(v)
    ensures forall k' :: k' != k ==> Get([r[0]] + rest, k') == Get(r, k')
  {
    assert ([r[0]] + rest)[1..] == rest;
  }

  /** Put's recursive step keeps the keys in place when `k` is present. */
  lemma PutConsKeys(r: Record, k: string, v: Value, rest: Record)
    requires r != [] && r[0].0 != k
    requires HasKey(r[1..], k) ==> |rest| == |r[1..]| && forall i :: 0 <= i < |r[1..]| ==> rest[i].0 == r[1..][i].0
    ensures HasKey(r, k) ==> |[r[0]] + rest| == |r| && forall i :: 0 <= i < |r| ==> ([r[0]] + rest)[i].0 == r[i].0
  {
    if HasKey(r, k) {
      assert HasKey(r[1..], k);
      forall i | 0 <= i < |r|
        ensures ([r[0]] + rest)[i].0 == r[i].0
      {
        if i > 0 {
          assert ([r[0]] + rest)[i] == rest[i - 1];
          assert r[i] == r[1..][i - 1];
        }
      }
    }
  }

  /** Put's recursive step appends when `k` is absent. */
  lemma PutConsAppend(r: Record, k: string, v: Value, rest: Record)
    requires r != [] && r[0].0 != k
    requires !HasKey(r[1..], k) ==> rest == r[1..] + [(k, v)]
    ensures !HasKey(r, k) ==> [r[0]] + rest == r + [(k, v)]
  {
    if !HasKey(r, k) {
      assert !HasKey(r[1..], k);
      assert r == [r[0]] + r[1..];
    }
  }

  /** Every default whose key is absent is appended, in order; keys already present are untouched. */
  function WithDefaults(entry: Record, defaults: Record): (r: Record)
    ensures |r| >= |entry| && r[..|entry|] == entry
    ensures forall k :: HasKey(entry, k) ==> Get(r, k) == Get(entry, k)
    ensures forall k :: HasKey(r, k) <==> HasKey(entry, k) || HasKey(defaults, k)
    ensures forall k :: !HasKey(entry, k) ==> Get(r, k) == Get(defaults, k)
    decreases |defaults|
  {
    if defaults == [] then entry
    else
      var next := AddDefault(entry, defaults[0].0, defaults[0].1);
      var r := WithDefaults(next, defaults[1..]);
      assert r[..|entry|] == r[..|next|][..|entry|];
      assert forall k :: HasKey(defaults, k) <==> k == defaults[0].0 || HasKey(defaults[1..], k);
      assert forall k :: k != defaults[0].0 ==> Get(defaults, k) == Get(defaults[1..], k);
      r
  }

  /** One default: `v` under `k` when the entry lacks `k`, appended; otherwise the entry as it is. */
  function AddDefault(entry: Record, k: string, v: Value): (r: Record)
    ensures |r| >= |entry| && r[..|entry|] == entry
    ensures forall k' :: HasKey(r, k') <==> HasKey(entry, k') || k' == k
    ensures forall k' :: HasKey(entry, k') ==> Get(r, k') == Get(entry, k')
    ensures !HasKey(entry, k) ==> Get(r, k) == Some(v)
  {
    if HasKey(entry, k) then entry
    else
      var r := Put(entry, k, v);
      assert r[..|entry|] == entry;
      r
  }

  /** The value the last write to `k` carries, if any write touches `k`. */
  function LastValue(writes: seq<(string, Value)>, k: string): (r: Option<Value>)
    ensures r.None? <==> forall i :: 0 <= i < |writes| ==> writes[i].0 != k
    decreases |writes|
  {
    if writes == [] then None
    else match LastValue(writes[1..], k)
      case Some(v) => Some(v)
      case None => if writes[0].0 == k then Some(writes[0].1) else None
  }

  /** `unset($r[$k])`: every entry under `k` disappears, the others keep their order. */
  function Remove(r: Record, k: string): (r': Record)
    ensures Get(r', k) == None
    ensures forall k' :: k' != k ==> Get(r', k') == Get(r, k')
    ensures |r'| <= |r|
  {
    if r == [] then []
    else if r[0].0 == k then Remove(r[1..], k)
    else [r[0]] + Remove(r[1..], k)
  }

  /** The elements a PHP `foreach` visits: a list's items, a map's values, nothing for a scalar. */
  function Elements(v: Value): seq<Value>
  {
    match v
    case List(items) => items
    case Map(entries) => MapValues(entries)
    case _ => []
  }

  function MapValues(entries: Record): (vs: seq<Value>)
    ensures |vs| == |entries|
    ensures forall i :: 0 <= i < |entries| ==> vs[i] == entries[i].1
  {
    if entries == [] then [] else [entries[0].1] + MapValues(entries[1..])
  }

  /** The entries of a value used as an array; a scalar behaves as an empty array. */
  function Fields(v: Value): Record
  {
    match v
    case Map(entries) => entries
    case _ => []
  }

  /** Decimal digits of a natural number, as PHP prints an integer. */
  function NatText(n: nat): (s: string)
    ensures |s| >= 1
    ensures forall i :: 0 <= i < |s| ==> '0' <= s[i] <= '9'
    decreases n
  {
    var d := [(('0' as int) + n % 10) as char];
    if n < 10 then d else NatText(n / 10) + d
  }

  /** PHP's string conversion of a value (`(string) $v`, string concatenation). */
  function Text(v: Value): string
  {
    match v
    case Null => ""
    case Bool(b) => if b then "1" else ""
    case Int(i) => if i < 0 then "-" + NatText(-i) else NatText(i)
    case Str(s) => s
    case List(_) => "Array"
    case Map(_) => "Array"
  }
}
