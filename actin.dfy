/**
 * The subunit of the first engine, as src/ActinSimulation.tsx and
 * src/ActinManager.tsx use it. src/Actin.tsx defines its position,
 * orientation, velocity and ATP flag, and `update`, which copies the body's
 * position; the id, the `plus`/`minus` links and `isSingle` the first engine
 * reads are not defined there and are given here the meaning the second
 * engine gives them (no neighbour on either side). The other methods the
 * first engine calls on a subunit (`detach`, `makeDimerWith`,
 * `attachToIfPossible`) have no definition, so the engine's model records
 * those calls instead of performing them.
 */
module Actin {
  import opened Wrappers
  import opened Geometry
  import Chains

  class Actin {
    /** The id of the subunit's physics body. */
    const id: int
    var pos: Vector
    var hasAtp: bool
    var plus: Actin?
    var minus: Actin?

    /** A new subunit at `pos`: it carries ATP and has no neighbour. */
    constructor (id: int, pos: Vector)
      ensures this.id == id && this.pos == pos
      ensures hasAtp && plus == null && minus == null
    {
      this.id := id;
      this.pos := pos;
      hasAtp := true;
      plus := null;
      minus := null;
    }

    /** Neither a plus nor a minus neighbour. */
    predicate IsSingle()
      reads this
    {
      plus == null && minus == null
    }
  }

  /** Every neighbour of a subunit of `world` is in `world`. */
  ghost predicate Closed(world: set<Actin>)
    reads world
  {
    forall a {:trigger a.plus} {:trigger a.minus} :: a in world ==>
      (a.plus != null ==> a.plus in world) && (a.minus != null ==> a.minus in world)
  }

  /** Where each subunit's `minus` link points. */
  ghost function MinusLinks(world: set<Actin>): Chains.Links<Actin>
    reads world
  {
    map a | a in world :: if a.minus == null then None else Some(a.minus)
  }
}
