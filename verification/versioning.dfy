/**
 * The ledger record: a data object whose fields live in one keyed data array,
 * with `version` as its identifier field.
 */
module Versioning {
  import opened Values

  const CacheTag: string := "magento_configurator_versioning"
  const VersionKey: string := "version"
  const UpdateTimeKey: string := "update_time"

  /** The resource model declares `version` as the identifier field. */
  const IdFieldName: string := VersionKey

  datatype Versioning = Versioning(data: Record)

  /** `getData($key)`: null when the key was never set. */
  function Data(m: Versioning, key: string): Value
  {
    Get(m.data, key).GetOr(Null)
  }

  function GetVersion(m: Versioning): Value
  {
    Data(m, VersionKey)
  }

  function GetUpdateTime(m: Versioning): Value
  {
    Data(m, UpdateTimeKey)
  }

  function GetId(m: Versioning): Value
  {
    Data(m, IdFieldName)
  }

  /** Reading the version back returns what was set; the update time is untouched. */
  function SetVersion(m: Versioning, version: Value): (m': Versioning)
    ensures GetVersion(m') == version
    ensures GetUpdateTime(m') == GetUpdateTime(m)
    ensures forall k :: k != VersionKey ==> Data(m', k) == Data(m, k)
  {
    Versioning(Put(m.data, VersionKey, version))
  }

  /** Reading the update time back returns what was set; the version is untouched. */
  function SetUpdateTime(m: Versioning, time: Value): (m': Versioning)
    ensures GetUpdateTime(m') == time
    ensures GetVersion(m') == GetVersion(m)
    ensures forall k :: k != UpdateTimeKey ==> Data(m', k) == Data(m, k)
  {
    Versioning(Put(m.data, UpdateTimeKey, time))
  }

  /** One cache tag, built from the identifier, which is the version. */
  function GetIdentities(m: Versioning): (tags: seq<string>)
    ensures |tags| == 1
    ensures tags[0] == CacheTag + "_" + Text(GetVersion(m))
  {
    [CacheTag + "_" + Text(GetId(m))]
  }

  lemma {:induction false} NatTextInjective(a: nat, b: nat)
    requires NatText(a) == NatText(b)
    ensures a == b
    decreases a
  {
    var sa, sb := NatText(a), NatText(b);
    assert sa[|sa| - 1] == sb[|sb| - 1];
    if a >= 10 && b >= 10 {
      assert NatText(a / 10) == sa[..|sa| - 1];
      assert NatText(b / 10) == sb[..|sb| - 1];
      NatTextInjective(a / 10, b / 10);
    }
  }

  lemma TextSign(a: int)
    ensures |Text(Int(a))| >= 1
    ensures Text(Int(a))[0] == '-' <==> a < 0
  {
    if a >= 0 {
      assert '0' <= NatText(a)[0] <= '9';
    }
  }

  lemma TextIntInjective(a: int, b: int)
    requires Text(Int(a)) == Text(Int(b))
    ensures a == b
  {
    TextSign(a);
    TextSign(b);
    if a < 0 && b < 0 {
      assert NatText(-a) == Text(Int(a))[1..];
      NatTextInjective(-a, -b);
    } else if a >= 0 && b >= 0 {
      NatTextInjective(a, b);
    }
  }

  /** Records with different integer versions never share a cache tag. */
  lemma IdentitiesDistinguishVersions(m1: Versioning, m2: Versioning, v1: int, v2: int)
    requires GetVersion(m1) == Int(v1) && GetVersion(m2) == Int(v2)
    requires v1 != v2
    ensures GetIdentities(m1) != GetIdentities(m2)
  {
    var p := CacheTag + "_";
    var x, y := Text(Int(v1)), Text(Int(v2));
    if GetIdentities(m1) == GetIdentities(m2) {
      assert (p + x)[|p|..] == x;
      assert (p + y)[|p|..] == y;
      TextIntInjective(v1, v2);
    }
  }
}
