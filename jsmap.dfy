/**
 * A JavaScript `Map` with integer keys: a dictionary that remembers the order in
 * which its keys were first inserted. Overwriting an existing key keeps its
 * place; deleting a key removes it from the order. Iteration (`forEach`,
 * `keys()`) follows that order.
 */
module JsMaps {
  import opened Wrappers

  /** No key occurs twice in `s`. */
  predicate Distinct(s: seq<int>)
  {
    forall i, j :: 0 <= i < j < |s| ==> s[i] != s[j]
  }

  /** `s` with every occurrence of `k` removed, the rest in order. */
  function Without(s: seq<int>, k: int): (r: seq<int>)
    ensures forall x :: x in r <==> x in s && x != k
    ensures |r| <= |s|
    ensures k !in s ==> r == s
  {
    if s == [] then []
    else if s[0] == k then Without(s[1..], k)
    else [s[0]] + Without(s[1..], k)
  }

  /** `s` with every key of `ks` removed, the rest in order: the key order after deleting each of `ks`. */
  function WithoutAll(s: seq<int>, ks: set<int>): (r: seq<int>)
    ensures forall x :: x in r <==> x in s && x !in ks
    ensures |r| <= |s|
    ensures ks == {} ==> r == s
  {
    if s == [] then []
    else if s[0] in ks then WithoutAll(s[1..], ks)
    else assert s == [s[0]] + s[1..]; [s[0]] + WithoutAll(s[1..], ks)
  }

  /** Deleting one more key `k` after the keys `ks` is deleting the keys `ks + {k}`. */
  lemma {:induction false} WithoutAllStep(s: seq<int>, ks: set<int>, k: int)
    ensures Without(WithoutAll(s, ks), k) == WithoutAll(s, ks + {k})
  {
    if s != [] {
      WithoutAllStep(s[1..], ks, k);
    }
  }

  /** Removing a key from a sequence without repetitions leaves one without repetitions. */
  lemma {:induction false} WithoutDistinct(s: seq<int>, k: int)
    requires Distinct(s)
    ensures Distinct(Without(s, k))
  {
    if s != [] {
      assert Distinct(s[1..]) && s[0] !in s[1..];
      WithoutDistinct(s[1..], k);
      var r := Without(s[1..], k);
      if s[0] != k {
        assert forall j :: 0 <= j < |r| ==> ([s[0]] + r)[j + 1] == r[j];
      }
    }
  }

  /** A sequence without repetitions has as many elements as its set of elements. */
  lemma {:induction false} DistinctCard(s: seq<int>)
    requires Distinct(s)
    ensures |set x | x in s| == |s|
  {
    if s != [] {
      DistinctCard(s[1..]);
      assert (set x | x in s) == {s[0]} + (set x | x in s[1..]);
    }
  }

  /** The values of `entries` listed along `keys`. */
  function Listed<V>(keys: seq<int>, entries: map<int, V>): (r: seq<V>)
    requires forall i :: 0 <= i < |keys| ==> keys[i] in entries
    ensures |r| == |keys|
    ensures forall i :: 0 <= i < |keys| ==> r[i] == entries[keys[i]]
  {
    if keys == [] then [] else [entries[keys[0]]] + Listed(keys[1..], entries)
  }

  /** A sequence agreeing element by element with `Listed` is `Listed`. */
  lemma ListedValues<V>(keys: seq<int>, entries: map<int, V>, r: seq<V>)
    requires forall i :: 0 <= i < |keys| ==> keys[i] in entries
    requires |r| == |keys| && forall i :: 0 <= i < |keys| ==> r[i] == entries[keys[i]]
    ensures r == Listed(keys, entries)
  {
  }

  class JsMap<V> {
    /** The keys in insertion order. */
    var keys: seq<int>
    var entries: map<int, V>

    ghost predicate Valid()
      reads this
    {
      && Distinct(keys)
      && (forall i :: 0 <= i < |keys| ==> keys[i] in entries)
      && (forall k :: k in entries ==> k in keys)
    }

    constructor ()
      ensures Valid() && keys == [] && entries == map[]
    {
      keys := [];
      entries := map[];
    }

    /** `has`: whether `k` is stored, which is whether it is in the key order. */
    predicate Has(k: int)
      requires Valid()
      reads this
      ensures Has(k) <==> k in keys
    {
      k in entries
    }

    /** `get`: the value stored under `k`, or nothing (`undefined`). */
    function Get(k: int): (r: Option<V>)
      requires Valid()
      reads this
      ensures r.Some? <==> Has(k)
      ensures r.Some? ==> r.value == entries[k]
    {
      if k in entries then Some(entries[k]) else None
    }

    /** `set`: stores `v` under `k`; a new key goes last in the order, an old one keeps its place. */
    method Set(k: int, v: V)
      requires Valid()
      modifies this
      ensures Valid()
      ensures entries == old(entries)[k := v]
      ensures keys == if k in old(entries) then old(keys) else old(keys) + [k]
    {
      if k !in entries {
        keys := keys + [k];
      }
      entries := entries[k := v];
    }

    /** `delete`: removes `k`, if present, from the entries and from the order. */
    method Delete(k: int)
      requires Valid()
      modifies this
      ensures Valid()
      ensures entries == old(entries) - {k}
      ensures keys == Without(old(keys), k)
    {
      WithoutDistinct(keys, k);
      keys := Without(keys, k);
      entries := entries - {k};
      assert forall i :: 0 <= i < |keys| ==> keys[i] in keys;
    }

    /** `size`: the number of entries, counted along the insertion order. */
    function Size(): (n: nat)
      requires Valid()
      reads this
      ensures n == |entries|
    {
      DistinctCard(keys);
      KeySet();
      |keys|
    }

    /** The keys in the order are exactly the keys of the entries. */
    lemma KeySet()
      requires Valid()
      ensures (set x | x in keys) == entries.Keys
    {
      forall x | x in keys
        ensures x in entries
      {
        var i :| 0 <= i < |keys| && keys[i] == x;
      }
      forall x | x in entries
        ensures x in (set y | y in keys)
      {
      }
    }

    /** The values in insertion order: `Array.from(keys()).map(get)`. */
    method Values() returns (r: seq<V>)
      requires Valid()
      ensures |r| == |keys|
      ensures forall i :: 0 <= i < |keys| ==> r[i] == entries[keys[i]]
    {
      r := [];
      var i := 0;
      while i < |keys|
        invariant 0 <= i <= |keys| && |r| == i
        invariant forall j :: 0 <= j < i ==> r[j] == entries[keys[j]]
      {
        r := r + [entries[keys[i]]];
        i := i + 1;
      }
    }
  }
}
