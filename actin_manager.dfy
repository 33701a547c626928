/**
 * The registry of the first engine (src/ActinManager.tsx): a JavaScript `Map`
 * from a physics body's id to the subunit that owns the body, filled from an
 * initial list and exposed as a live map.
 */
module ActinManager {
  import opened Wrappers
  import opened JsMaps
  import opened Actin

  /** The entries registering every subunit of `s` in turn leaves, starting empty. */
  function Registry(s: seq<Actin>): map<int, Actin>
  {
    if s == [] then map[]
    else
      var m := Registry(s[..|s| - 1]);
      var a := s[|s| - 1];
      if a.id in m then m else m[a.id := a]
  }

  /** The key order registering every subunit of `s` in turn leaves, starting empty. */
  function Order(s: seq<Actin>): seq<int>
  {
    if s == [] then []
    else
      var a := s[|s| - 1];
      if a.id in Registry(s[..|s| - 1]) then Order(s[..|s| - 1]) else Order(s[..|s| - 1]) + [a.id]
  }

  /**
   * Registering a list keeps, for each id, the first subunit of the list that
   * carries it, and no other id.
   */
  lemma {:induction false} FirstWins(s: seq<Actin>)
    ensures forall k :: k in Registry(s) <==> exists i :: 0 <= i < |s| && s[i].id == k
    ensures forall i :: 0 <= i < |s| && (forall j :: 0 <= j < i ==> s[j].id != s[i].id) ==>
      Registry(s)[s[i].id] == s[i]
  {
    if s != [] {
      var t := s[..|s| - 1];
      FirstWins(t);
      assert forall i :: 0 <= i < |t| ==> t[i] == s[i];
    }
  }

  /** The key order lists each registered id once. */
  lemma {:induction false} OrderKeys(s: seq<Actin>)
    ensures Distinct(Order(s)) && (set k | k in Order(s)) == Registry(s).Keys
  {
    if s != [] {
      OrderKeys(s[..|s| - 1]);
    }
  }

  /**
   * The key order follows the list: of two ids in the order, the earlier one
   * has a subunit in the list before any subunit of the later one.
   */
  lemma {:induction false} OrderFollowsList(s: seq<Actin>)
    ensures forall i, j :: 0 <= i < j < |Order(s)| ==>
      exists p :: 0 <= p < |s| && s[p].id == Order(s)[i] && forall q :: 0 <= q <= p ==> s[q].id != Order(s)[j]
  {
    if s != [] {
      var t := s[..|s| - 1];
      var a := s[|s| - 1];
      OrderFollowsList(t);
      OrderKeys(t);
      FirstWins(t);
      var o := Order(s);
      forall i, j | 0 <= i < j < |o|
        ensures exists p :: 0 <= p < |s| && s[p].id == o[i] && forall q :: 0 <= q <= p ==> s[q].id != o[j]
      {
        if j < |Order(t)| {
          var p :| 0 <= p < |t| && t[p].id == Order(t)[i] && forall q :: 0 <= q <= p ==> t[q].id != Order(t)[j];
          assert forall q :: 0 <= q <= p ==> s[q] == t[q];
        } else {
          assert o[i] == Order(t)[i] && o[i] in Registry(t);
          var p :| 0 <= p < |t| && t[p].id == o[i];
          assert o[j] == a.id && a.id !in Registry(t);
          assert forall q :: 0 <= q <= p ==> s[q] == t[q];
        }
      }
    } else {
      assert Order(s) == [];
    }
  }

  class ActinManager {
    /** The private `map` field. */
    const registry: JsMap<Actin>

    /** The registry is a well-formed map, and each subunit is stored under its own id. */
    ghost predicate Valid()
      reads this, registry
    {
      && registry.Valid()
      && forall k :: k in registry.entries ==> registry.entries[k].id == k
    }

    /** Registers every subunit of `actins` in turn: for a repeated id, the first subunit wins. */
    constructor (actins: seq<Actin>)
      ensures Valid() && fresh(registry)
      ensures registry.entries == Registry(actins) && registry.keys == Order(actins)
    {
      registry := new JsMap();
      new;
      var i := 0;
      while i < |actins|
        invariant 0 <= i <= |actins| && Valid()
        invariant registry.entries == Registry(actins[..i]) && registry.keys == Order(actins[..i])
      {
        assert actins[..i + 1][..i] == actins[..i];
        Register(actins[i]);
        i := i + 1;
      }
      assert actins[..i] == actins;
    }

    /** `actinMap`: the registry's own map, not a copy; a change made through it is a change to the registry. */
    function ActinMap(): (r: JsMap<Actin>)
      reads this
      ensures r == registry
    {
      registry
    }

    /** The registered subunits. */
    ghost function Actins(): set<Actin>
      reads this, registry
    {
      registry.entries.Values
    }

    /** `register`: adds `actin` under its id unless that id is taken; an existing entry is never replaced. */
    method Register(actin: Actin)
      requires Valid()
      modifies registry
      ensures Valid()
      ensures actin.id in old(registry.entries) ==>
        registry.entries == old(registry.entries) && registry.keys == old(registry.keys)
      ensures actin.id !in old(registry.entries) ==>
        registry.entries == old(registry.entries)[actin.id := actin] && registry.keys == old(registry.keys) + [actin.id]
    {
      if !registry.Has(actin.id) {
        registry.Set(actin.id, actin);
      }
    }

    /** `retrieve`: the subunit owning the body with id `bodyId`, if it is registered. */
    function Retrieve(bodyId: int): (r: Option<Actin>)
      requires Valid()
      reads this, registry
      ensures r.Some? <==> bodyId in registry.entries
      ensures r.Some? ==> r.value == registry.entries[bodyId] && r.value.id == bodyId
    {
      registry.Get(bodyId)
    }

    /** `remove`: afterwards the id of `actin` is absent; every other entry is kept, in order. */
    method Remove(actin: Actin)
      requires Valid()
      modifies registry
      ensures Valid()
      ensures registry.entries == old(registry.entries) - {actin.id}
      ensures registry.keys == Without(old(registry.keys), actin.id)
    {
      if registry.Has(actin.id) {
        registry.Delete(actin.id);
      }
    }

    /** `length`: the number of registered subunits. */
    function Length(): (n: nat)
      requires Valid()
      reads this, registry
      ensures n == |registry.entries|
    {
      registry.Size()
    }

    /** `toArray`: every registered subunit exactly once, in insertion order. */
    method ToArray() returns (r: seq<Actin>)
      requires Valid()
      ensures r == Listed(registry.keys, registry.entries)
      ensures |r| == Length()
      ensures forall k :: k in registry.entries ==> registry.entries[k] in r
      ensures forall i :: 0 <= i < |r| ==> r[i] in Actins()
      ensures forall i, j :: 0 <= i < j < |r| ==> r[i] != r[j]
    {
      r := registry.Values();
      forall k | k in registry.entries
        ensures registry.entries[k] in r
      {
        var i :| 0 <= i < |registry.keys| && registry.keys[i] == k;
        assert r[i] == registry.entries[k];
      }
      forall i, j | 0 <= i < j < |r|
        ensures r[i] != r[j]
      {
        assert r[i].id == registry.keys[i] && r[j].id == registry.keys[j];
      }
      ListedValues(registry.keys, registry.entries, r);
    }
  }
}
