/** Sequence facts the logs and traces of several components share. */
module Seqs {
  import opened Wrappers

  /** `a` is an initial segment of `b`: what was there before an operation is still there after it. */
  predicate IsPrefix<T(==)>(a: seq<T>, b: seq<T>)
  {
    |a| <= |b| && b[..|a|] == a
  }

  lemma PrefixTransitive<T>(a: seq<T>, b: seq<T>, c: seq<T>)
    requires IsPrefix(a, b) && IsPrefix(b, c)
    ensures IsPrefix(a, c)
  {
    assert c[..|a|] == c[..|b|][..|a|];
  }

  /** `true` when `a` can be obtained from `b` by deleting elements: what is kept keeps its order. */
  predicate IsSubsequence<T(==)>(a: seq<T>, b: seq<T>)
    decreases |b|
  {
    a == [] || (b != [] && ((a[0] == b[0] && IsSubsequence(a[1..], b[1..])) || IsSubsequence(a, b[1..])))
  }

  /** The keys of an ordered association list, in order: PHP's `array_keys`. */
  function Keys<K, V>(entries: seq<(K, V)>): (ks: seq<K>)
    ensures |ks| == |entries|
    ensures forall i :: 0 <= i < |entries| ==> ks[i] == entries[i].0
  {
    if entries == [] then [] else [entries[0].0] + Keys(entries[1..])
  }

  /** `$a[$key]` on an ordered association list: the value of the first entry under `key`. */
  function Lookup<K(==), V>(entries: seq<(K, V)>, key: K): (r: Option<V>)
    ensures r.Some? <==> exists i :: 0 <= i < |entries| && entries[i].0 == key
  {
    if entries == [] then None
    else if entries[0].0 == key then Some(entries[0].1)
    else Lookup(entries[1..], key)
  }

  /** The elements whose save reports no fault, in their original order. */
  function Kept<T(==,!new), E>(xs: seq<T>, fault: T -> Option<E>): (r: seq<T>)
    ensures |r| <= |xs|
    ensures forall x :: x in r <==> x in xs && fault(x).None?
    ensures IsSubsequence(r, xs)
  {
    if xs == [] then []
    else if fault(xs[0]).None? then [xs[0]] + Kept(xs[1..], fault)
    else Kept(xs[1..], fault)
  }
}
