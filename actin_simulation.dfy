/**
 * The first engine (src/ActinSimulation.tsx): a registry of subunits with the
 * per-tick pass that drops subunits leaving the arena, the dispatch of
 * collision pairs, spawning and the statistics of the current population.
 *
 * The methods this engine calls on a subunit have no definition in the
 * repository (see module `Actin`), so the engine's model returns the calls it
 * makes, in order, instead of their effects. The physics engine is absent: a
 * collision event is a sequence of body-id pairs, the position a body reports
 * is given by `positionOf`, and the id of a new body by the caller.
 */
module ActinSimulation {
  import opened Wrappers
  import opened Geometry
  import opened JsMaps
  import opened Actin
  import opened ActinManager
  import opened Histograms
  import Chains

  /** The radius `getRadius` reports. */
  const ACTIN_RADIUS: real := 3.0
  /** A subunit farther than this from the origin is detached. */
  const OUT_OF_BOUNDS: real := 500.0

  /** A collision pair: the ids of the two bodies that touched. */
  datatype Pair = Pair(bodyA: int, bodyB: int)

  /** A call the engine makes on the subunit `actin`. */
  datatype Call =
    | Update(actin: Actin)
    | Detach(actin: Actin)
    | MakeDimerWith(actin: Actin, other: Actin)
    | AttachToIfPossible(actin: Actin, other: Actin)

  /** A subunit that can start or join a filament: it is single and carries ATP. */
  predicate Eligible(a: Actin)
    reads a
  {
    a.IsSingle() && a.hasAtp
  }

  /**
   * The calls `handleCollision` makes for a pair of registered subunits. Two
   * eligible subunits dimerize. One eligible subunit tries to attach to the
   * other, single or not. A static pair is not skipped.
   */
  function Dispatch(a: Actin, b: Actin): (r: seq<Call>)
    reads a, b
    ensures r == [MakeDimerWith(a, b)] <==> Eligible(a) && Eligible(b)
    ensures r == [AttachToIfPossible(a, b)] <==> Eligible(a) && !Eligible(b)
    ensures r == [AttachToIfPossible(b, a)] <==> !Eligible(a) && Eligible(b)
    ensures r == [] <==> !Eligible(a) && !Eligible(b)
  {
    if Eligible(a) && Eligible(b) then [MakeDimerWith(a, b)]
    else if Eligible(a) then [AttachToIfPossible(a, b)]
    else if Eligible(b) then [AttachToIfPossible(b, a)]
    else []
  }

  /**
   * The dispatch treats both bodies of a pair alike, except that of two
   * eligible subunits the first body's is the one asked to dimerize.
   */
  lemma DispatchMirror(a: Actin, b: Actin)
    ensures Dispatch(b, a) == if Eligible(a) && Eligible(b) then [MakeDimerWith(b, a)] else Dispatch(a, b)
  {
  }

  /** The calls `handleCollision` makes for `pairs`, against the registry `entries`. */
  ghost function DispatchAll(pairs: seq<Pair>, entries: map<int, Actin>): seq<Call>
    reads entries.Values
  {
    if pairs == [] then []
    else
      var p := pairs[|pairs| - 1];
      DispatchAll(pairs[..|pairs| - 1], entries) +
      if p.bodyA in entries && p.bodyB in entries then Dispatch(entries[p.bodyA], entries[p.bodyB]) else []
  }

  /**
   * Every call of a collision event comes from a pair of registered subunits,
   * is made by an eligible one and asks it to dimerize or attach; a pair gives
   * at most one call.
   */
  lemma {:induction false} DispatchAllCalls(pairs: seq<Pair>, entries: map<int, Actin>)
    ensures |DispatchAll(pairs, entries)| <= |pairs|
    ensures forall c :: c in DispatchAll(pairs, entries) ==>
      && (c.MakeDimerWith? || c.AttachToIfPossible?)
      && c.actin in entries.Values && c.other in entries.Values && Eligible(c.actin)
  {
    if pairs != [] {
      DispatchAllCalls(pairs[..|pairs| - 1], entries);
    }
  }

  /**
   * The calls the pass of `precede` makes over `s`: each subunit is updated,
   * which moves it to where its body is, and is detached at once when that is
   * out of bounds.
   */
  function PrecedeLog(s: seq<Actin>, positionOf: int -> Vector): seq<Call>
  {
    if s == [] then []
    else
      var a := s[|s| - 1];
      PrecedeLog(s[..|s| - 1], positionOf) +
      [Update(a)] + if Beyond(positionOf(a.id), OUT_OF_BOUNDS) then [Detach(a)] else []
  }

  /**
   * The pass updates every subunit and detaches exactly those out of bounds,
   * each detach coming right after the update of the same subunit.
   */
  lemma {:induction false} PrecedeLogCalls(s: seq<Actin>, positionOf: int -> Vector)
    ensures forall a :: Update(a) in PrecedeLog(s, positionOf) <==> a in s
    ensures forall a :: Detach(a) in PrecedeLog(s, positionOf) <==> a in s && Beyond(positionOf(a.id), OUT_OF_BOUNDS)
    ensures forall c :: c in PrecedeLog(s, positionOf) ==> c.Update? || c.Detach?
    ensures forall i :: 0 <= i < |PrecedeLog(s, positionOf)| && PrecedeLog(s, positionOf)[i].Detach? ==>
      i > 0 && PrecedeLog(s, positionOf)[i - 1] == Update(PrecedeLog(s, positionOf)[i].actin)
  {
    if s != [] {
      var t := s[..|s| - 1];
      PrecedeLogCalls(t, positionOf);
      assert s == t + [s[|s| - 1]];
    }
  }

  class ActinSimulation {
    const manager: ActinManager
    /** Every subunit this simulation has created, registered or not. */
    ghost var world: set<Actin>

    /** The registry is well formed and its subunits belong to the closed world of subunits. */
    ghost predicate Valid()
      reads this, manager, manager.registry, world
    {
      && manager.Valid()
      && Closed(world)
      && forall k :: k in manager.registry.entries ==> manager.registry.entries[k] in world
    }

    /** An empty simulation. The walls, the initial population and the spawn timer are not modelled. */
    constructor ()
      ensures Valid() && world == {}
      ensures fresh(manager) && fresh(manager.registry) && manager.registry.entries == map[]
    {
      manager := new ActinManager([]);
      world := {};
    }

    /**
     * `precede` without the steering forces a plus end applies and without the
     * physics step: the pass over the registry in insertion order. A subunit
     * out of bounds is detached inside the pass; the registry is not changed.
     */
    method Precede(positionOf: int -> Vector) returns (calls: seq<Call>)
      requires Valid()
      modifies world`pos
      ensures Valid()
      ensures unchanged(manager.registry)
      ensures calls == PrecedeLog(Listed(manager.registry.keys, manager.registry.entries), positionOf)
      ensures forall k :: k in manager.registry.entries ==> manager.registry.entries[k].pos == positionOf(k)
      ensures forall a :: a in world && a !in manager.Actins() ==> a.pos == old(a.pos)
    {
      var all := manager.ToArray();
      forall j | 0 <= j < |all|
        ensures all[j] in world
      {
        assert all[j] == manager.registry.entries[manager.registry.keys[j]];
      }
      calls := Pass(all, positionOf, world);
      assert Closed(world);
    }

    /**
     * `handleCollision`: for each pair whose bodies both belong to registered
     * subunits, the calls `Dispatch` picks. Nothing is changed here; the calls
     * are returned.
     */
    method HandleCollision(pairs: seq<Pair>) returns (calls: seq<Call>)
      requires Valid()
      ensures calls == DispatchAll(pairs, manager.registry.entries)
    {
      calls := [];
      var i := 0;
      while i < |pairs|
        invariant 0 <= i <= |pairs|
        invariant calls == DispatchAll(pairs[..i], manager.registry.entries)
      {
        assert pairs[..i + 1][..i] == pairs[..i];
        var actinA := manager.Retrieve(pairs[i].bodyA);
        var actinB := manager.Retrieve(pairs[i].bodyB);
        if actinA.Some? && actinB.Some? {
          calls := calls + Dispatch(actinA.value, actinB.value);
        }
        i := i + 1;
      }
      assert pairs[..i] == pairs;
    }

    /** `getCurrentState`: the registered subunits in insertion order. */
    method GetCurrentState() returns (r: seq<Actin>)
      requires Valid()
      ensures r == Listed(manager.registry.keys, manager.registry.entries)
      ensures forall k :: k in manager.registry.entries ==> manager.registry.entries[k] in r
      ensures forall i, j :: 0 <= i < j < |r| ==> r[i] != r[j]
      ensures forall i :: 0 <= i < |r| ==> r[i] in world
    {
      r := manager.ToArray();
      forall i | 0 <= i < |r|
        ensures r[i] in world
      {
        assert r[i] == manager.registry.entries[manager.registry.keys[i]];
      }
    }

    /**
     * `getCurrentStatistics`: the ATP and ADP counts over the registry and the
     * histogram of minus-chain lengths from each subunit without a plus
     * neighbour. Every chain walked must end.
     */
    method GetCurrentStatistics() returns (numberByLength: map<int, int>, numberWithAtp: int, numberWithAdp: int)
      requires Valid() && Chains.Acyclic<Actin>(MinusLinks(world))
      ensures var all := Listed(manager.registry.keys, manager.registry.entries);
        && numberWithAtp == AtpCount(all)
        && numberWithAtp + numberWithAdp == manager.Length()
        && numberByLength == Histogram(all, MinusLinks(world))
    {
      var all := manager.ToArray();
      forall j | 0 <= j < |all|
        ensures all[j] in world && Chains.Terminates<Actin>(MinusLinks(world), all[j])
      {
        assert all[j] in manager.Actins();
      }
      numberByLength, numberWithAtp, numberWithAdp := Tally(all, world);
    }

    /**
     * `add`: always registers a new subunit at `pos` under the new body's id
     * `newId`; there is no overlap check. The subunit fails to register only
     * when that id is already taken.
     */
    method Add(pos: Vector, newId: int) returns (ghost added: Actin)
      requires Valid()
      modifies this, manager.registry
      ensures Valid()
      ensures fresh(added) && added.id == newId && added.pos == pos && added.hasAtp && added.IsSingle()
      ensures world == old(world) + {added}
      ensures manager.registry.entries ==
        if newId in old(manager.registry.entries) then old(manager.registry.entries)
        else old(manager.registry.entries)[newId := added]
      ensures manager.registry.keys ==
        if newId in old(manager.registry.entries) then old(manager.registry.keys)
        else old(manager.registry.keys) + [newId]
    {
      var actin := new Actin(newId, pos);
      manager.Register(actin);
      world := world + {actin};
      added := actin;
    }
  }

  /**
   * The pass of `precede` over the subunits `all`: each one takes the
   * position of its body, and the calls made are returned.
   */
  method Pass(all: seq<Actin>, positionOf: int -> Vector, ghost world: set<Actin>) returns (calls: seq<Call>)
    requires forall j :: 0 <= j < |all| ==> all[j] in world
    modifies world`pos
    ensures calls == PrecedeLog(all, positionOf)
    ensures forall a :: a in all ==> a.pos == positionOf(a.id)
    ensures forall a :: a in world && a !in all ==> a.pos == old(a.pos)
  {
    calls := [];
    var i := 0;
    while i < |all|
      invariant 0 <= i <= |all|
      invariant calls == PrecedeLog(all[..i], positionOf)
      invariant forall j :: 0 <= j < i ==> all[j].pos == positionOf(all[j].id)
      invariant forall a :: a in world && a !in all[..i] ==> a.pos == old(a.pos)
    {
      var actin := all[i];
      assert all[..i + 1][..i] == all[..i];
      // `update` takes the position of the subunit's body
      calls := calls + [Update(actin)];
      actin.pos := positionOf(actin.id);
      if Beyond(actin.pos, OUT_OF_BOUNDS) {
        calls := calls + [Detach(actin)];
      }
      i := i + 1;
    }
    assert all[..i] == all;
  }

  /**
   * The loop of `getCurrentStatistics` over the subunits `all`: counts those
   * with ATP and those without, and walks the minus chain from every subunit
   * without a plus neighbour to count its length.
   */
  method Tally(all: seq<Actin>, ghost world: set<Actin>)
    returns (numberByLength: map<int, int>, numberWithAtp: int, numberWithAdp: int)
    requires Closed(world)
    requires forall j :: 0 <= j < |all| ==> all[j] in world && Chains.Terminates<Actin>(MinusLinks(world), all[j])
    ensures numberWithAtp == AtpCount(all) && numberWithAtp + numberWithAdp == |all|
    ensures numberByLength == Histogram(all, MinusLinks(world))
  {
    ghost var m := MinusLinks(world);
    numberByLength := map[];
    numberWithAtp, numberWithAdp := 0, 0;
    var i := 0;
    while i < |all|
      invariant 0 <= i <= |all|
      invariant numberWithAtp == AtpCount(all[..i]) && numberWithAdp == i - numberWithAtp
      invariant numberByLength == Histogram(all[..i], m)
    {
      var actin := all[i];
      CountStep(all, i, m);
      if actin.hasAtp {
        numberWithAtp := numberWithAtp + 1;
      } else {
        numberWithAdp := numberWithAdp + 1;
      }
      if actin.plus == null {
        ghost var c := Chains.Chain<Actin>(m, actin);
        var length := 0;
        var pointer: Actin? := actin;
        while pointer != null
          invariant 0 <= length <= |c|
          invariant pointer != null ==> length < |c| && pointer == c[length] && pointer in world
          invariant pointer == null ==> length == |c|
          decreases |c| - length
        {
          Chains.ChainStep<Actin>(m, actin, length);
          pointer := pointer.minus;
          length := length + 1;
        }
        numberByLength := Bump(numberByLength, length);
      }
      i := i + 1;
    }
    assert all[..i] == all;
  }

  /** How many subunits of `s` carry ATP. */
  ghost function AtpCount(s: seq<Actin>): nat
    reads set a | a in s
  {
    if s == [] then 0 else AtpCount(s[..|s| - 1]) + (if s[|s| - 1].hasAtp then 1 else 0)
  }

  /** How many subunits of `s` have no plus neighbour. */
  ghost function PlusLess(s: seq<Actin>): nat
    reads set a | a in s
  {
    if s == [] then 0 else PlusLess(s[..|s| - 1]) + (if s[|s| - 1].plus == null then 1 else 0)
  }

  /** How many subunits of `s` have no plus neighbour and a minus chain of `length` subunits. */
  ghost function CountLength(s: seq<Actin>, m: Chains.Links<Actin>, length: int): nat
    reads set a | a in s
  {
    if s == [] then 0
    else CountLength(s[..|s| - 1], m, length) +
         (if s[|s| - 1].plus == null && |Chains.Chain<Actin>(m, s[|s| - 1])| == length then 1 else 0)
  }

  /**
   * The histogram the statistics loop builds over `s`: one count under the
   * minus-chain length of each subunit without a plus neighbour.
   */
  ghost function Histogram(s: seq<Actin>, m: Chains.Links<Actin>): map<int, int>
    reads set a | a in s
  {
    if s == [] then map[]
    else
      var h := Histogram(s[..|s| - 1], m);
      var a := s[|s| - 1];
      if a.plus == null then Bump(h, |Chains.Chain<Actin>(m, a)|) else h
  }

  /** The counts over a prefix of `s`, extended by one subunit. */
  lemma CountStep(s: seq<Actin>, i: int, m: Chains.Links<Actin>)
    requires 0 <= i < |s|
    ensures AtpCount(s[..i + 1]) == AtpCount(s[..i]) + (if s[i].hasAtp then 1 else 0)
    ensures Histogram(s[..i + 1], m) ==
      if s[i].plus == null then Bump(Histogram(s[..i], m), |Chains.Chain<Actin>(m, s[i])|) else Histogram(s[..i], m)
  {
    assert s[..i + 1][..i] == s[..i];
  }

  /** Every ATP count is at most the number of subunits counted. */
  lemma {:induction false} AtpCountBound(s: seq<Actin>)
    ensures AtpCount(s) <= |s|
  {
    if s != [] {
      AtpCountBound(s[..|s| - 1]);
    }
  }

  /**
   * The histogram is exact: it holds, under each length, the number of subunits
   * without a plus neighbour whose minus chain has that length, and no key
   * without such a subunit.
   */
  lemma {:induction false} HistogramCounts(s: seq<Actin>, m: Chains.Links<Actin>, length: int)
    ensures length in Histogram(s, m) <==> CountLength(s, m, length) > 0
    ensures length in Histogram(s, m) ==> Histogram(s, m)[length] == CountLength(s, m, length)
  {
    if s != [] {
      HistogramCounts(s[..|s| - 1], m, length);
    }
  }

  /** The histogram counts every subunit without a plus neighbour exactly once. */
  lemma {:induction false} HistogramTotal(s: seq<Actin>, m: Chains.Links<Actin>)
    ensures Total(Histogram(s, m)) == PlusLess(s)
  {
    if s != [] {
      HistogramTotal(s[..|s| - 1], m);
      var a := s[|s| - 1];
      if a.plus == null {
        BumpTotal(Histogram(s[..|s| - 1], m), |Chains.Chain<Actin>(m, a)|);
      }
    }
  }
}
