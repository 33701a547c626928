/**
 * The registry of the second engine (src/ActinManager2.tsx): a JavaScript `Map`
 * from a physics body's id to the subunit that owns the body.
 */
module ActinManager2 {
  import opened Wrappers
  import opened JsMaps
  import opened Actin2

  /** The subunits of `s` that head a filament (single or plus end), in order. */
  ghost function Heads(s: seq<Actin2>): seq<Actin2>
    reads set a | a in s
  {
    if s == [] then []
    else if s[0].IsSingle() || s[0].IsPlusEnd() then [s[0]] + Heads(s[1..])
    else Heads(s[1..])
  }

  /** `Heads` keeps exactly the single subunits and the plus ends of `s`. */
  lemma {:induction false} HeadsMembers(s: seq<Actin2>)
    ensures forall a :: a in Heads(s) <==> a in s && (a.IsSingle() || a.IsPlusEnd())
    ensures |Heads(s)| <= |s|
  {
    if s != [] {
      HeadsMembers(s[1..]);
    }
  }

  /** Of a sequence without repeats, `Heads` keeps each head once. */
  lemma {:induction false} HeadsDistinct(s: seq<Actin2>)
    requires forall i, j :: 0 <= i < j < |s| ==> s[i] != s[j]
    ensures forall i, j :: 0 <= i < j < |Heads(s)| ==> Heads(s)[i] != Heads(s)[j]
  {
    if s != [] {
      assert forall i :: 0 <= i < |s| - 1 ==> s[1..][i] == s[i + 1];
      HeadsDistinct(s[1..]);
      HeadsMembers(s[1..]);
      var h := Heads(s[1..]);
      if s[0].IsSingle() || s[0].IsPlusEnd() {
        assert s[0] !in h;
        assert forall i :: 0 <= i < |h| ==> ([s[0]] + h)[i + 1] == h[i];
      }
    }
  }

  class ActinManager2 {
    const registry: JsMap<Actin2>

    /** The registry is a well-formed map, and each subunit is stored under its own id. */
    ghost predicate Valid()
      reads this, registry
    {
      && registry.Valid()
      && forall k :: k in registry.entries ==> registry.entries[k].id == k
    }

    constructor ()
      ensures Valid() && fresh(registry)
      ensures registry.keys == [] && registry.entries == map[]
    {
      registry := new JsMap();
    }

    /** The registered subunits. */
    ghost function Actins(): set<Actin2>
      reads this, registry
    {
      registry.entries.Values
    }

    /** `register`: adds `actin` under its id unless that id is taken; an existing entry is never replaced. */
    method Register(actin: Actin2)
      requires Valid()
      modifies registry
      ensures Valid()
      ensures actin.id in old(registry.entries) ==>
        registry.entries == old(registry.entries) && registry.keys == old(registry.keys)
      ensures actin.id !in old(registry.entries) ==>
        registry.entries == old(registry.entries)[actin.id := actin] && registry.keys == old(registry.keys) + [actin.id]
    {
      if !registry.Has(actin.id) {
        registry.Set(actin.id, actin);
      }
    }

    /** `retrieve`: the subunit owning the body with id `bodyId`, if it is registered. */
    function Retrieve(bodyId: int): (r: Option<Actin2>)
      requires Valid()
      reads this, registry
      ensures r.Some? <==> bodyId in registry.entries
      ensures r.Some? ==> r.value == registry.entries[bodyId] && r.value.id == bodyId
    {
      registry.Get(bodyId)
    }

    /** `remove`: afterwards the id of `actin` is absent; every other entry is kept, in order. */
    method Remove(actin: Actin2)
      requires Valid()
      modifies registry
      ensures Valid()
      ensures registry.entries == old(registry.entries) - {actin.id}
      ensures registry.keys == Without(old(registry.keys), actin.id)
    {
      if registry.Has(actin.id) {
        registry.Delete(actin.id);
      }
    }

    /** `length`: the number of registered subunits. */
    function Length(): (n: nat)
      requires Valid()
      reads this, registry
      ensures n == |registry.entries|
    {
      registry.Size()
    }

    /** `toArray`: every registered subunit exactly once, in insertion order. */
    method ToArray() returns (r: seq<Actin2>)
      requires Valid()
      ensures r == Listed(registry.keys, registry.entries)
      ensures |r| == Length()
      ensures forall k :: k in registry.entries ==> registry.entries[k] in r
      ensures forall i :: 0 <= i < |r| ==> r[i] in Actins()
      ensures forall i, j :: 0 <= i < j < |r| ==> r[i] != r[j]
    {
      r := registry.Values();
      forall k | k in registry.entries
        ensures registry.entries[k] in r
      {
        var i :| 0 <= i < |registry.keys| && registry.keys[i] == k;
        assert r[i] == registry.entries[k];
      }
      forall i, j | 0 <= i < j < |r|
        ensures r[i] != r[j]
      {
        assert r[i].id == registry.keys[i] && r[j].id == registry.keys[j];
      }
      ListedValues(registry.keys, registry.entries, r);
    }

    /**
     * `forEachFilament` with a visitor that records what it is given: each
     * registered subunit that is single or a plus end, in insertion order.
     */
    method ForEachFilament() returns (visited: seq<Actin2>)
      requires Valid()
      ensures visited == Heads(Listed(registry.keys, registry.entries))
      ensures forall i, j :: 0 <= i < j < |visited| ==> visited[i] != visited[j]
    {
      var all := registry.Values();
      ListedValues(registry.keys, registry.entries, all);
      forall i, j | 0 <= i < j < |all|
        ensures all[i] != all[j]
      {
        assert all[i].id == registry.keys[i] && all[j].id == registry.keys[j];
      }
      HeadsDistinct(all);
      visited := [];
      var i := 0;
      while i < |all|
        invariant 0 <= i <= |all|
        invariant visited + Heads(all[i..]) == Heads(all)
      {
        HeadsStep(all, i);
        var actin := all[i];
        if actin.IsSingle() || actin.IsPlusEnd() {
          visited := visited + [actin];
        }
        i := i + 1;
      }
    }
  }

  /** `Heads` of a suffix, peeled by one element. */
  lemma HeadsStep(s: seq<Actin2>, i: int)
    requires 0 <= i < |s|
    ensures Heads(s[i..]) == (if s[i].IsSingle() || s[i].IsPlusEnd() then [s[i]] else []) + Heads(s[i + 1..])
  {
    assert s[i..][1..] == s[i + 1..];
  }
}
