/** `java.util.LinkedHashMap` as both harnesses use it: an insertion-ordered
    map whose `put` replaces the value of a present key in its place and
    appends a new key at the end. */
module LinkedMaps {
  import opened Model

  function KeysOf<K, V>(es: seq<(K, V)>): (ks: seq<K>)
    ensures |ks| == |es| && forall i :: 0 <= i < |es| ==> ks[i] == es[i].0
  {
    seq(|es|, i requires 0 <= i < |es| => es[i].0)
  }

  /** `put(k, v)` on the entry list of a map. */
  function PutEntry<K(==), V>(es: seq<(K, V)>, k: K, v: V): (r: seq<(K, V)>)
    requires Distinct(KeysOf(es))
    ensures Distinct(KeysOf(r))
    ensures k !in KeysOf(es) ==> r == es + [(k, v)]
    ensures k in KeysOf(es) ==>
      && |r| == |es|
      && forall i :: 0 <= i < |es| ==> r[i] == if es[i].0 == k then (k, v) else es[i]
  {
    if k in KeysOf(es) then
      var r := seq(|es|, i requires 0 <= i < |es| => if es[i].0 == k then (k, v) else es[i]);
      assert KeysOf(r) == KeysOf(es);
      r
    else
      var r := es + [(k, v)];
      assert KeysOf(r) == KeysOf(es) + [k];
      r
  }

  class LinkedMap<V> {
    var entries: seq<(string, V)>

    ghost predicate Valid()
      reads this
    {
      Distinct(KeysOf(entries))
    }

    /** `new LinkedHashMap<>()` */
    constructor ()
      ensures Valid() && entries == []
    {
      entries := [];
    }

    /** `new LinkedHashMap<>(other)`: same entries, same order, a map of its own. */
    constructor Copy(other: LinkedMap<V>)
      requires other.Valid()
      ensures Valid() && entries == other.entries
    {
      entries := other.entries;
    }

    /** `containsKey(k)`: some entry has key `k`. */
    predicate ContainsKey(k: string): (b: bool)
      reads this
      ensures b <==> exists i :: 0 <= i < |entries| && entries[i].0 == k
    {
      k in KeysOf(entries)
    }

    method Put(k: string, v: V)
      requires Valid()
      modifies this
      ensures Valid() && entries == PutEntry(old(entries), k, v)
    {
      entries := PutEntry(entries, k, v);
    }

    /** `values()`, in iteration order. */
    function Values(): (vs: seq<V>)
      reads this
      ensures |vs| == |entries| && forall i :: 0 <= i < |entries| ==> vs[i] == entries[i].1
    {
      var es := entries;
      seq(|es|, i requires 0 <= i < |es| => es[i].1)
    }
  }
}
