/**
 * One actin subunit of the second engine (src/Actin2.tsx): its lifecycle state
 * machine, its two neighbour links and the operations that rewire them.
 *
 * A subunit is an object, as in the source. `plus` and `minus` are references
 * that may be null. A subunit removed from the registry stays reachable through
 * a stale link exactly as a JavaScript object would. The physics body is
 * reduced to what the engine reads or writes: its position and its static
 * flag. A geometric quantity that needs `cos`, `sin` or `exp` is an argument:
 *  - `heading` is `(cos θ, sin θ)` of the body's angle θ;
 *  - `decay(L)` stands for `e^(-L/5)`;
 *  - `now` is the clock reading `Date.now()`.
 */
module Actin2 {
  import opened Wrappers
  import opened Geometry
  import Chains

  datatype ActinState2 = Created | Activated | Attached | Deactivated | Detached

  /** Age in milliseconds after which a Created subunit matures. */
  const MATURATION_AGE: int := 3000
  /** Age in milliseconds after which an Attached subunit settles. */
  const SETTLING_AGE: int := 3000
  /** Base duration of a plus-end bond. */
  const PLUS_END_BASE: real := 5000.0
  /** Base duration of a minus-end bond: minus ends are the less stable ones. */
  const MINUS_END_BASE: real := 2000.0
  /** A free subunit farther than this from the origin has left the arena. */
  const ARENA_RADIUS: real := 500.0
  /** The alignment a dimerizing pair needs, in either direction. */
  const ALIGNMENT: real := 0.9
  /** ACTIN_RADIUS of the second engine. */
  const ACTIN_RADIUS: real := 5.0
  /** Spawn and docking positions closer than this to a subunit overlap it. */
  const OVERLAP_DISTANCE: real := 1.8 * ACTIN_RADIUS

  /**
   * The end-detachment test. The bond has outlived the expected duration
   * `base * (1.2 - e^(-length/5))`, where `decay(length)` stands for `e^(-length/5)`.
   */
  predicate DetachDue(age: int, length: int, base: real, decay: int -> real)
  {
    age as real > base * (1.2 - decay(length))
  }

  /** The four shapes a subunit's links can take. */
  datatype Role = Single | PlusEnd | MinusEnd | Interior

  class Actin2 {
    const id: int
    const radius: real
    var plus: Actin2?
    var minus: Actin2?
    var state: ActinState2
    var stateChangedAt: int
    /** The body's position, owned by the physics substrate. */
    var pos: Vector
    /** Whether the body is pinned (`Body.setStatic`). */
    var isStatic: bool

    constructor (id: int, pos: Vector, radius: real, now: int)
      ensures this.id == id && this.pos == pos && this.radius == radius
      ensures plus == null && minus == null && !isStatic
      ensures state == Created && stateChangedAt == now
    {
      this.id := id;
      this.radius := radius;
      this.pos := pos;
      plus := null;
      minus := null;
      state := Created;
      stateChangedAt := now;
      isStatic := false;
    }

    /** A subunit carries ATP exactly while it is Activated or Attached. */
    predicate HasAtp()
      reads this
      ensures HasAtp() <==> state == Activated || state == Attached
    {
      match state
      case Created => false
      case Activated => true
      case Attached => true
      case Deactivated => false
      case Detached => false
    }

    predicate IsPlusEnd()
      reads this
    {
      plus == null && minus != null
    }

    predicate IsMinusEnd()
      reads this
      ensures IsMinusEnd() ==> !IsPlusEnd()
    {
      plus != null && minus == null
    }

    predicate IsSingle()
      reads this
      ensures IsSingle() ==> !IsPlusEnd() && !IsMinusEnd()
    {
      plus == null && minus == null
    }

    /**
     * The role of a subunit. The three role predicates are exclusive, and a
     * subunit with both links (an interior one) satisfies none of them.
     */
    function Role(): (r: Role)
      reads this
      ensures r == Single <==> IsSingle()
      ensures r == PlusEnd <==> IsPlusEnd()
      ensures r == MinusEnd <==> IsMinusEnd()
      ensures r == Interior <==> !IsSingle() && !IsPlusEnd() && !IsMinusEnd()
      ensures r == Interior <==> plus != null && minus != null
    {
      if plus == null then (if minus == null then Single else PlusEnd)
      else (if minus == null then MinusEnd else Interior)
    }

    /**
     * The number of subunits from this one to the end of its minus chain,
     * itself included.
     */
    method Length(ghost world: set<Actin2>) returns (n: int)
      requires this in world && Closed(world)
      requires Chains.Terminates<Actin2>(MinusLinks(world), this)
      ensures n == |Chains.Chain<Actin2>(MinusLinks(world), this)|
      ensures n >= 1
    {
      ghost var m := MinusLinks(world);
      ghost var c := Chains.Chain<Actin2>(m, this);
      Chains.WalkEnd<Actin2>(m, this, |m| + 1);
      n := 1;
      var pointer := this;
      while pointer.minus != null
        invariant 1 <= n <= |c| && pointer == c[n - 1] && pointer in world
        decreases |c| - n
      {
        assert m[pointer] == Some(pointer.minus);
        Chains.WalkStep<Actin2>(m, this, |m| + 1, n - 1);
        pointer := pointer.minus;
        n := n + 1;
      }
      if n < |c| {
        Chains.WalkStep<Actin2>(m, this, |m| + 1, n - 1);
      }
    }

    /**
     * The number of subunits from this one to the end of its plus chain,
     * itself included.
     */
    method LengthInverse(ghost world: set<Actin2>) returns (n: int)
      requires this in world && Closed(world)
      requires Chains.Terminates<Actin2>(PlusLinks(world), this)
      ensures n == |Chains.Chain<Actin2>(PlusLinks(world), this)|
      ensures n >= 1
    {
      ghost var m := PlusLinks(world);
      ghost var c := Chains.Chain<Actin2>(m, this);
      Chains.WalkEnd<Actin2>(m, this, |m| + 1);
      n := 1;
      var pointer := this;
      while pointer.plus != null
        invariant 1 <= n <= |c| && pointer == c[n - 1] && pointer in world
        decreases |c| - n
      {
        assert m[pointer] == Some(pointer.plus);
        Chains.WalkStep<Actin2>(m, this, |m| + 1, n - 1);
        pointer := pointer.plus;
        n := n + 1;
      }
      if n < |c| {
        Chains.WalkStep<Actin2>(m, this, |m| + 1, n - 1);
      }
    }

    /** The part of this subunit that the state machine reads and writes. */
    function Snap(): Cell
      reads this
    {
      Cell(plus, minus, state, stateChangedAt)
    }

    /** This subunit and its neighbours. */
    function Near(): set<Actin2>
      reads this
    {
      {this} + (if plus == null then {} else {plus}) + (if minus == null then {} else {minus})
    }

    /**
     * One tick of the state machine. Its switch falls through: a Created subunit
     * goes on to the Activated case, an Attached one to the Deactivated case.
     * A Detached subunit does nothing.
     */
    method Update(toDetach: seq<Actin2>, now: int, decay: int -> real, ghost world: set<Actin2>)
      returns (out: seq<Actin2>)
      requires this in world && Closed(world)
      requires Chains.Terminates<Actin2>(MinusLinks(world), this)
      requires Chains.Terminates<Actin2>(PlusLinks(world), this)
      modifies Near()`plus, Near()`minus, Near()`state, Near()`stateChangedAt
      ensures Updated(this, toDetach, out, now, decay, world)
      ensures CellUpdated(old(Snap()), Snap(), now)
      ensures FreeKept(world)
      ensures OnlyCuts(world)
      ensures minus != null ==> MinusKept(world)
      ensures Queued(world, toDetach, out)
    {
      Chains.NoSelfLink<Actin2>(MinusLinks(world), this);
      Chains.NoSelfLink<Actin2>(PlusLinks(world), this);
      if state == Created || state == Activated {
        out := UpdateUnbound(toDetach, now);
      } else if state == Attached || state == Deactivated {
        out := UpdateBound(toDetach, now, decay, world);
        EndTasksStates(this, Timed(old(Snap()), now), old(SnapOf(plus)), old(SnapOf(minus)), now, decay,
                       old(MinusLinks(world)), old(PlusLinks(world)), toDetach, out);
      } else {
        out := toDetach;
      }
      FreeStep(world, this);
    }

    /**
     * The Created and Activated cases of `update`: a Created subunit older than
     * MATURATION_AGE matures, then either is queued when it lies beyond
     * ARENA_RADIUS.
     */
    method UpdateUnbound(toDetach: seq<Actin2>, now: int) returns (out: seq<Actin2>)
      requires state == Created || state == Activated
      modifies this`state, this`stateChangedAt
      ensures Snap() == Timed(old(Snap()), now)
      ensures state == Created || state == Activated
      ensures out == toDetach + (if Beyond(pos, ARENA_RADIUS) then [this] else [])
    {
      if state == Created && now - stateChangedAt > MATURATION_AGE {
        ChangeStateTo(Activated, now);
      }
      // the Created case falls through to the Activated one
      if Beyond(pos, ARENA_RADIUS) {
        out := toDetach + [this];
      } else {
        out := toDetach;
      }
    }

    /**
     * The Attached case of `update`: an Attached subunit older than SETTLING_AGE
     * settles into Deactivated, then the Deactivated case follows.
     */
    method UpdateBound(toDetach: seq<Actin2>, now: int, decay: int -> real, ghost world: set<Actin2>)
      returns (out: seq<Actin2>)
      requires state == Attached || state == Deactivated
      requires this in world && Closed(world)
      requires Chains.Terminates<Actin2>(MinusLinks(world), this)
      requires Chains.Terminates<Actin2>(PlusLinks(world), this)
      modifies Near()`plus, Near()`minus, Near()`state, Near()`stateChangedAt
      ensures EndTasksDone(this, Timed(old(Snap()), now), old(SnapOf(plus)), old(SnapOf(minus)), now, decay,
                           old(MinusLinks(world)), old(PlusLinks(world)), toDetach, out)
      ensures OnlyCuts(world)
      ensures minus != null ==> MinusKept(world)
      ensures Queued(world, toDetach, out)
    {
      Chains.NoSelfLink<Actin2>(MinusLinks(world), this);
      Chains.NoSelfLink<Actin2>(PlusLinks(world), this);
      ghost var a1, p0, m0 := Timed(Snap(), now), SnapOf(plus), SnapOf(minus);
      if state == Attached && now - stateChangedAt > SETTLING_AGE {
        ChangeStateTo(Deactivated, now);
      }
      // the Attached case falls through to the Deactivated one
      MinusLinksKept(world);
      PlusLinksKept(world);
      assert Snap() == a1 && SnapOf(plus) == p0 && SnapOf(minus) == m0;
      out := HandleEnd(toDetach, now, decay, world);
    }

    /**
     * The Deactivated case of `update`: a plus end or a minus end runs its
     * detachment test; an interior or single subunit does nothing.
     */
    method HandleEnd(toDetach: seq<Actin2>, now: int, decay: int -> real, ghost world: set<Actin2>)
      returns (out: seq<Actin2>)
      requires this in world && Closed(world)
      requires Chains.Terminates<Actin2>(MinusLinks(world), this)
      requires Chains.Terminates<Actin2>(PlusLinks(world), this)
      modifies Near()`plus, Near()`minus, Near()`state, Near()`stateChangedAt
      ensures EndTasksDone(this, old(Snap()), old(SnapOf(plus)), old(SnapOf(minus)), now, decay,
                           old(MinusLinks(world)), old(PlusLinks(world)), toDetach, out)
      ensures OnlyCuts(world)
      ensures minus != null ==> MinusKept(world)
      ensures Queued(world, toDetach, out)
    {
      Chains.NoSelfLink<Actin2>(MinusLinks(world), this);
      Chains.NoSelfLink<Actin2>(PlusLinks(world), this);
      if IsPlusEnd() {
        out := HandlePlusEndTasks(toDetach, now, decay, world);
      } else if IsMinusEnd() {
        out := HandleMinusEndTasks(toDetach, now, decay, world);
      } else {
        out := toDetach;
      }
    }

    /**
     * Pairs two free subunits. `heading` is `(cos θ, sin θ)` of this subunit's
     * angle θ. A partner ahead of it along the heading docks at its plus side, one
     * behind it at its minus side, unless the docking position collides with a
     * subunit of `registered`; then nothing changes. A partner that is neither
     * ahead nor behind is not linked, yet both subunits are still pinned and
     * marked Attached.
     */
    method MakeDimerWith(other: Actin2, heading: Vector, registered: set<Actin2>, now: int,
                         ghost world: set<Actin2>)
      requires other != this && this in world && other in world && Closed(world)
      modifies this`plus, this`minus, this`state, this`stateChangedAt, this`isStatic
      modifies other`plus, other`minus, other`state, other`stateChangedAt, other`isStatic, other`pos
      ensures Dimerized(this, other, heading, registered, now)
      ensures Closed(world)
      ensures old(IsSingle() && other.IsSingle()) ==>
        && (old(Mutual(world)) ==> Mutual(world))
        && (old(Chains.Acyclic<Actin2>(MinusLinks(world))) ==> Chains.Acyclic<Actin2>(MinusLinks(world)))
        && (old(Chains.Acyclic<Actin2>(PlusLinks(world))) ==> Chains.Acyclic<Actin2>(PlusLinks(world)))
    {
      var dock := DimerDock(heading, pos, other.pos);
      var target := DockAt(pos, radius, heading, dock);
      if dock != Aside && Collides(registered, target) {
        // the docking position is taken: give up
        LinksUnchanged(world);
        return;
      }
      if dock == Ahead {
        // `this` becomes the minus end of the pair
        other.pos := target;
        plus := other;
        other.minus := this;
      } else if dock == Behind {
        // `this` becomes the plus end of the pair
        other.pos := target;
        other.plus := this;
        minus := other;
      }
      isStatic := true;
      other.isStatic := true;
      ChangeStateTo(Attached, now);
      other.ChangeStateTo(Attached, now);
      if dock == Ahead {
        PairLinked(world, this, other);
      } else if dock == Behind {
        PairLinked(world, other, this);
      } else {
        LinksUnchanged(world);
      }
    }

    /**
     * Docks this free subunit at an end of `other`'s filament. `heading` is
     * `(cos θ, sin θ)` of `other`'s angle θ. When `other` has a minus neighbour,
     * this subunit goes one diameter ahead of it, unless `other` has a plus
     * neighbour as well; otherwise it goes one diameter behind it. A docking
     * position that collides with a subunit of `registered` cancels the move.
     * In both branches the link made is `other.plus == this`, `this.minus == other`:
     * behind an `other` that already had a plus neighbour, that link is overwritten.
     */
    method AttachToIfPossible(other: Actin2, heading: Vector, registered: set<Actin2>, now: int,
                              ghost world: set<Actin2>)
      requires other != this && this in world && other in world && Closed(world)
      modifies this`minus, this`state, this`stateChangedAt, this`isStatic, this`pos, other`plus
      ensures Docked(this, other, heading, registered, now)
      ensures Closed(world)
      ensures old(IsSingle()) ==>
        && (old(Chains.Acyclic<Actin2>(PlusLinks(world))) ==> Chains.Acyclic<Actin2>(PlusLinks(world)))
        && (old(Chains.Acyclic<Actin2>(MinusLinks(world))) && old(other.minus == null || Mutual(world))
            ==> Chains.Acyclic<Actin2>(MinusLinks(world)))
        && (old(Mutual(world)) && old(other.plus == null) ==> Mutual(world))
        && (old(Mutual(world)) && old(other.IsMinusEnd()) && minus == other ==> !Mutual(world))
    {
      ghost var minus0, plus0 := MinusLinks(world), PlusLinks(world);
      ghost var single, mutual := IsSingle(), Mutual(world);
      if single {
        Chains.ChainOfEnd<Actin2>(plus0, this);
        if other.minus == null {
          Chains.ChainOfEnd<Actin2>(minus0, other);
        } else if mutual {
          OffMinusChains(world, this, other);
        }
      }
      var dock := if other.minus != null then Ahead else Behind;
      if other.minus != null {
        // `this` joins at the plus end, which must be free
        if other.plus != null {
          LinksUnchanged(world);
          return;
        }
      }
      // on the minus side the source tests `other.minus` once more, which cannot hold there
      var target := DockAt(other.pos, radius, heading, dock);
      if Collides(registered, target) {
        LinksUnchanged(world);
        return;
      }
      pos := target;
      other.plus := this;
      minus := other;
      isStatic := true;
      ChangeStateTo(Attached, now);
      LinkedClosed(world, other, this);
      if single {
        LinkedAcyclic(world, other, this);
        if mutual {
          if old(other.plus) == null {
            LinkedMutual(world, other, this);
          } else {
            LinkedOverwrites(world, other, this);
          }
        }
      }
    }

    /**
     * `forEach` with a visitor that records what it is given: this subunit,
     * then each one reached by following `minus`.
     */
    method ForEach(ghost world: set<Actin2>) returns (visited: seq<Actin2>)
      requires this in world && Closed(world)
      requires Chains.Terminates<Actin2>(MinusLinks(world), this)
      ensures visited == Chains.Chain<Actin2>(MinusLinks(world), this)
    {
      ghost var m := MinusLinks(world);
      ghost var c := Chains.Chain<Actin2>(m, this);
      Chains.WalkEnd<Actin2>(m, this, |m| + 1);
      var pointer := this;
      visited := [pointer];
      while pointer.minus != null
        invariant 1 <= |visited| <= |c| && visited == c[..|visited|]
        invariant pointer == c[|visited| - 1] && pointer in world
        decreases |c| - |visited|
      {
        assert m[pointer] == Some(pointer.minus);
        Chains.WalkStep<Actin2>(m, this, |m| + 1, |visited| - 1);
        pointer := pointer.minus;
        visited := visited + [pointer];
      }
      if |visited| < |c| {
        Chains.WalkStep<Actin2>(m, this, |m| + 1, |visited| - 1);
      }
    }

    method ChangeStateTo(newState: ActinState2, now: int)
      modifies this`state, this`stateChangedAt
      ensures state == newState && stateChangedAt == now
    {
      state := newState;
      stateChangedAt := now;
    }

    /** Both subunits of a dimer lose all their links and are queued for removal, this one first. */
    method BreakDimer(toDetach: seq<Actin2>, actin: Actin2, now: int) returns (out: seq<Actin2>)
      modifies this`plus, this`minus, this`state, this`stateChangedAt
      modifies actin`plus, actin`minus, actin`state, actin`stateChangedAt
      ensures out == toDetach + [this, actin]
      ensures IsSingle() && actin.IsSingle()
      ensures state == Detached && stateChangedAt == now
      ensures actin.state == Detached && actin.stateChangedAt == now
    {
      actin.plus, actin.minus := null, null;
      plus, minus := null, null;
      out := toDetach + [this, actin];
      ChangeStateTo(Detached, now);
      actin.ChangeStateTo(Detached, now);
    }

    /**
     * The detachment test of a plus end. On firing, a chain of two breaks as a
     * dimer; a longer chain loses only this subunit.
     */
    method HandlePlusEndTasks(toDetach: seq<Actin2>, now: int, decay: int -> real,
                              ghost world: set<Actin2>) returns (out: seq<Actin2>)
      requires this in world && Closed(world) && IsPlusEnd()
      requires Chains.Terminates<Actin2>(MinusLinks(world), this)
      modifies this`plus, this`minus, this`state, this`stateChangedAt
      modifies minus`plus, minus`minus, minus`state, minus`stateChangedAt
      ensures var length := |Chains.Chain<Actin2>(old(MinusLinks(world)), this)|;
              PlusEndDone(this, old(minus), old(Snap()), old(minus.Snap()), length,
                          DetachDue(now - old(stateChangedAt), length, PLUS_END_BASE, decay),
                          toDetach, out, now)
      ensures Queued(world, toDetach, out)
      ensures OnlyCuts(world) && (minus != null ==> MinusKept(world))
    {
      var length := Length(world);
      var m := minus;
      Chains.NoSelfLink<Actin2>(MinusLinks(world), this);
      if DetachDue(now - stateChangedAt, length, PLUS_END_BASE, decay) {
        if length == 2 {
          out := BreakDimer(toDetach, m, now);
        } else {
          out := toDetach + [this];
          minus := null;
          m.plus := null;
          ChangeStateTo(Detached, now);
          if m.state == Deactivated {
            m.ChangeStateTo(Deactivated, now);
          }
        }
      } else {
        out := toDetach;
      }
    }

    /**
     * The detachment test of a minus end, mirroring the plus end with the
     * shorter base duration and the length counted along `plus`.
     */
    method HandleMinusEndTasks(toDetach: seq<Actin2>, now: int, decay: int -> real,
                               ghost world: set<Actin2>) returns (out: seq<Actin2>)
      requires this in world && Closed(world) && IsMinusEnd()
      requires Chains.Terminates<Actin2>(PlusLinks(world), this)
      modifies this`plus, this`minus, this`state, this`stateChangedAt
      modifies plus`plus, plus`minus, plus`state, plus`stateChangedAt
      ensures var length := |Chains.Chain<Actin2>(old(PlusLinks(world)), this)|;
              MinusEndDone(this, old(plus), old(Snap()), old(plus.Snap()), length,
                           DetachDue(now - old(stateChangedAt), length, MINUS_END_BASE, decay),
                           toDetach, out, now)
      ensures Queued(world, toDetach, out)
      ensures OnlyCuts(world) && (minus != null ==> MinusKept(world))
    {
      var length := LengthInverse(world);
      var p := plus;
      Chains.NoSelfLink<Actin2>(PlusLinks(world), this);
      if DetachDue(now - stateChangedAt, length, MINUS_END_BASE, decay) {
        if length == 2 {
          out := BreakDimer(toDetach, p, now);
        } else {
          out := toDetach + [this];
          plus := null;
          p.minus := null;
          ChangeStateTo(Detached, now);
          if p.state == Deactivated {
            p.ChangeStateTo(Deactivated, now);
          }
        }
      } else {
        out := toDetach;
      }
    }
  }

  /** Every neighbour of a subunit of `world` is in `world`. */
  ghost predicate Closed(world: set<Actin2>)
    reads world
  {
    forall a {:trigger a.plus} {:trigger a.minus} :: a in world ==>
      (a.plus != null ==> a.plus in world) && (a.minus != null ==> a.minus in world)
  }

  /** Where each subunit's `minus` link points. */
  ghost function MinusLinks(world: set<Actin2>): Chains.Links<Actin2>
    reads world
  {
    map a | a in world :: if a.minus == null then None else Some(a.minus)
  }

  /** Where each subunit's `plus` link points. */
  ghost function PlusLinks(world: set<Actin2>): Chains.Links<Actin2>
    reads world
  {
    map a | a in world :: if a.plus == null then None else Some(a.plus)
  }

  /** Links are mutual: `a.plus == b` exactly when `b.minus == a`. */
  ghost predicate Mutual(world: set<Actin2>)
    reads world
  {
    && Closed(world)
    && forall a :: a in world ==>
         && (a.plus != null ==> a.plus.minus == a)
         && (a.minus != null ==> a.minus.plus == a)
  }

  /** Where `makeDimerWith` docks its partner, relative to this subunit's heading. */
  datatype Dock = Ahead | Behind | Aside

  /**
   * What `makeDimerWith` does to the pair `a`, `other`, where `heading` is
   * `a`'s: a partner ahead of `a` docks at its plus side, one behind it at its
   * minus side, and one aside stays where it is, unlinked. Unless the docking
   * position collides with a subunit of `registered`, both subunits are then
   * pinned and Attached at `now`; otherwise neither changes.
   */
  twostate predicate Dimerized(a: Actin2, other: Actin2, new heading: Vector, registered: set<Actin2>, now: int)
    reads a, other
  {
    var dock := DimerDock(heading, old(a.pos), old(other.pos));
    var target := DockAt(old(a.pos), a.radius, heading, dock);
    && a.pos == old(a.pos)
    && if dock != Aside && old(Collides(registered, target)) then
         && a.Snap() == old(a.Snap()) && a.isStatic == old(a.isStatic)
         && other.Snap() == old(other.Snap()) && other.isStatic == old(other.isStatic)
         && other.pos == old(other.pos)
       else
         && a.state == Attached && a.stateChangedAt == now && a.isStatic
         && other.state == Attached && other.stateChangedAt == now && other.isStatic
         && other.pos == (if dock == Aside then old(other.pos) else target)
         && a.plus == (if dock == Ahead then other else old(a.plus))
         && a.minus == (if dock == Behind then other else old(a.minus))
         && other.plus == (if dock == Behind then a else old(other.plus))
         && other.minus == (if dock == Ahead then a else old(other.minus))
  }

  /**
   * What `attachToIfPossible` does when `a` docks at `other`, where `heading`
   * is `other`'s: `a` goes one diameter ahead of an `other` with a minus
   * neighbour and one diameter behind any other `other`, and is then linked
   * as `other.plus == a`, `a.minus == other`, pinned and Attached at `now`.
   * Nothing changes when `other` has both neighbours or the docking position
   * collides with a subunit of `registered`. `a.plus`, `other.minus`,
   * `other`'s body, state, timestamp and pin are never touched.
   */
  twostate predicate Docked(a: Actin2, other: Actin2, new heading: Vector, registered: set<Actin2>, now: int)
    reads a, other
  {
    var target := DockAt(old(other.pos), a.radius, heading, if old(other.minus) != null then Ahead else Behind);
    && a.plus == old(a.plus) && other.minus == old(other.minus) && other.pos == old(other.pos)
    && other.state == old(other.state) && other.stateChangedAt == old(other.stateChangedAt)
    && other.isStatic == old(other.isStatic)
    && if (old(other.minus) != null && old(other.plus) != null) || old(Collides(registered, target)) then
         && a.minus == old(a.minus) && a.state == old(a.state) && a.stateChangedAt == old(a.stateChangedAt)
         && a.isStatic == old(a.isStatic) && a.pos == old(a.pos) && other.plus == old(other.plus)
       else
         && a.pos == target && other.plus == a && a.minus == other
         && a.state == Attached && a.stateChangedAt == now && a.isStatic
  }

  /**
   * The partner is ahead when the dot product of the heading with the offset
   * from this subunit to the partner exceeds ALIGNMENT, behind when it is below
   * -ALIGNMENT, and aside otherwise.
   */
  function DimerDock(heading: Vector, self: Vector, partner: Vector): (d: Dock)
    ensures d == Ahead <==> Dot(heading, Diff(partner, self)) > ALIGNMENT
    ensures d == Behind <==> Dot(heading, Diff(partner, self)) < -ALIGNMENT
  {
    var alignment := Dot(heading, Diff(partner, self));
    if alignment > ALIGNMENT then Ahead
    else if alignment < -ALIGNMENT then Behind
    else Aside
  }

  /**
   * The docking position: one diameter `2 * radius` from `self` along the heading
   * when the partner is ahead, against it when the partner is behind. A partner
   * aside stays where it is, so no position is meant; `self` stands in for one.
   */
  function DockAt(self: Vector, radius: real, heading: Vector, dock: Dock): Vector
  {
    match dock
    case Ahead => Sum(self, Mul(2.0 * radius, heading))
    case Behind => Diff(self, Mul(2.0 * radius, heading))
    case Aside => self
  }

  /** `willCollide`: some subunit of `registered` lies within OVERLAP_DISTANCE of `p`. */
  predicate Collides(registered: set<Actin2>, p: Vector)
    reads registered
  {
    exists a :: a in registered && Within(a.pos, p, OVERLAP_DISTANCE)
  }

  /**
   * The links, state and timestamp of a subunit at one moment: what the state
   * machine reads and writes.
   */
  datatype Cell = Cell(plus: Actin2?, minus: Actin2?, state: ActinState2, stamp: int)

  /** The cell of `a`, or an all-null Detached cell when there is no subunit. */
  function SnapOf(a: Actin2?): (c: Cell)
    reads a
    ensures a != null ==> c == a.Snap()
  {
    if a == null then Cell(null, null, Detached, 0) else a.Snap()
  }

  /**
   * The timed transition at the top of `update`: a Created subunit older than
   * MATURATION_AGE matures into Activated and an Attached one older than
   * SETTLING_AGE settles into Deactivated, each with a fresh timestamp; any other
   * cell is kept.
   */
  function Timed(c: Cell, now: int): (r: Cell)
    ensures r.plus == c.plus && r.minus == c.minus
    ensures r.state == c.state || (c.state == Created && r.state == Activated)
                               || (c.state == Attached && r.state == Deactivated)
    ensures r.state != c.state <==> r != c
  {
    if c.state == Created && now - c.stamp > MATURATION_AGE then c.(state := Activated, stamp := now)
    else if c.state == Attached && now - c.stamp > SETTLING_AGE then c.(state := Deactivated, stamp := now)
    else c
  }

  /** Between two states, each link of a subunit of `world` is kept or set to null. */
  twostate predicate OnlyCuts(world: set<Actin2>)
    reads world
  {
    forall a :: a in world ==>
      && (a.minus == old(a.minus) || a.minus == null)
      && (a.plus == old(a.plus) || a.plus == null)
  }

  /**
   * Between two states, `out` extends `toDetach`, a subunit of `world` that was
   * Detached stays Detached, and every subunit of `world` that became Detached
   * was queued in `out`.
   */
  twostate predicate Queued(world: set<Actin2>, new toDetach: seq<Actin2>, new out: seq<Actin2>)
    reads world
  {
    && toDetach <= out
    && forall a :: a in world ==>
         && (old(a.state) == Detached ==> a.state == Detached)
         && (a.state == Detached && old(a.state) != Detached ==> a in out)
  }

  /** Created and Activated are the states of a subunit that is not part of a filament. */
  predicate Free(s: ActinState2)
  {
    s == Created || s == Activated
  }

  /**
   * The outcome of `a.update(toDetach)` returning `out`. A free subunit takes
   * its timed transition and is queued when it lies beyond ARENA_RADIUS; a
   * Detached one does nothing; a bound one takes its timed transition and then
   * runs the Deactivated case. Outside the Deactivated case the neighbours of
   * `a` keep their cells.
   */
  twostate predicate Updated(new a: Actin2, new toDetach: seq<Actin2>, new out: seq<Actin2>, now: int,
                             decay: int -> real, world: set<Actin2>)
    requires a in world && old(Closed(world))
    reads world
  {
    if Free(old(a.state)) then
      && out == toDetach + (if Beyond(a.pos, ARENA_RADIUS) then [a] else [])
      && a.Snap() == Timed(old(a.Snap()), now)
      && SnapOf(old(a.plus)) == old(SnapOf(a.plus)) && SnapOf(old(a.minus)) == old(SnapOf(a.minus))
    else if old(a.state) == Detached then
      && out == toDetach && a.Snap() == old(a.Snap())
      && SnapOf(old(a.plus)) == old(SnapOf(a.plus)) && SnapOf(old(a.minus)) == old(SnapOf(a.minus))
    else
      EndTasksDone(a, Timed(old(a.Snap()), now), old(SnapOf(a.plus)), old(SnapOf(a.minus)), now, decay,
                   old(MinusLinks(world)), old(PlusLinks(world)), toDetach, out)
  }

  /**
   * The change `update` makes to a subunit's own cell, from `before` to
   * `after`: a free subunit takes its timed transition and a Detached one
   * keeps its cell. A bound one takes its timed transition and then, unless
   * it is an end whose detachment test is due, keeps that cell; a due end
   * either breaks off from its dimer with no links, or is cut from its
   * neighbour; either way it is Detached at `now`.
   */
  predicate CellUpdated(before: Cell, after: Cell, now: int)
  {
    var t := Timed(before, now);
    if Free(before.state) then after == t
    else if before.state == Detached then after == before
    else
      || after == t
      || ((t.plus == null) != (t.minus == null) && after == Cell(null, null, Detached, now))
      || (t.plus == null && t.minus != null && after == t.(minus := null, state := Detached, stamp := now))
      || (t.plus != null && t.minus == null && after == t.(plus := null, state := Detached, stamp := now))
  }

  /** Between two states, every free subunit of `world` stayed free or became Detached. */
  twostate predicate FreeKept(world: set<Actin2>)
    reads world
  {
    forall o :: o in world && Free(old(o.state)) ==> Free(o.state) || o.state == Detached
  }

  /**
   * A step that keeps a free `a` free, leaves each old neighbour of `a` in its
   * state or Detached, and changes no other state keeps every free subunit of
   * `world` free or Detached.
   */
  twostate lemma FreeStep(world: set<Actin2>, new a: Actin2)
    requires a in world
    requires Free(old(a.state)) ==> Free(a.state)
    requires old(a.plus) != null && old(a.plus) != a ==>
      old(a.plus).state == old(a.plus.state) || old(a.plus).state == Detached
    requires old(a.minus) != null && old(a.minus) != a ==>
      old(a.minus).state == old(a.minus.state) || old(a.minus).state == Detached
    requires forall o :: o in world && o !in old(a.Near()) ==> o.state == old(o.state)
    ensures FreeKept(world)
  {
  }

  /** The Deactivated case leaves each old neighbour of `a` in its state, or Detached. */
  lemma EndTasksStates(a: Actin2, a0: Cell, p0: Cell, m0: Cell, now: int, decay: int -> real,
                       minus0: Chains.Links<Actin2>, plus0: Chains.Links<Actin2>,
                       toDetach: seq<Actin2>, out: seq<Actin2>)
    requires EndTasksDone(a, a0, p0, m0, now, decay, minus0, plus0, toDetach, out)
    requires a0.plus != a && a0.minus != a
    ensures a0.plus != null ==> a0.plus.state == p0.state || a0.plus.state == Detached
    ensures a0.minus != null ==> a0.minus.state == m0.state || a0.minus.state == Detached
  {
  }

  /** Between two states, no `minus` link of a subunit of `world` changed. */
  twostate predicate MinusKept(world: set<Actin2>)
    reads world
  {
    forall a :: a in world ==> a.minus == old(a.minus)
  }

  /** Links that are only cut keep `world` closed and cut both link snapshots. */
  twostate lemma LinksKeptOrCut(world: set<Actin2>)
    requires old(Closed(world)) && OnlyCuts(world)
    ensures Closed(world)
    ensures Chains.Cuts<Actin2>(old(MinusLinks(world)), MinusLinks(world))
    ensures Chains.Cuts<Actin2>(old(PlusLinks(world)), PlusLinks(world))
  {
  }

  /** With every `minus` link kept, the `minus` snapshot is the same. */
  twostate lemma MinusLinksKept(world: set<Actin2>)
    requires MinusKept(world)
    ensures MinusLinks(world) == old(MinusLinks(world))
  {
  }

  /** With every `plus` link kept, the `plus` snapshot is the same. */
  twostate lemma PlusLinksKept(world: set<Actin2>)
    requires forall a :: a in world ==> a.plus == old(a.plus)
    ensures PlusLinks(world) == old(PlusLinks(world))
  {
  }

  /** A closed world gives closed link snapshots. */
  lemma ClosedLinks(world: set<Actin2>)
    requires Closed(world)
    ensures Chains.Closed<Actin2>(MinusLinks(world)) && Chains.Closed<Actin2>(PlusLinks(world))
  {
  }

  /** Only the `minus` link of `x` changed, and it now points at `y`. */
  twostate lemma LinkedMinus(world: set<Actin2>, new x: Actin2, new y: Actin2)
    requires x in world && x.minus == y
    requires forall a :: a in world && a != x ==> a.minus == old(a.minus)
    ensures MinusLinks(world) == old(MinusLinks(world))[x := Some(y)]
  {
  }

  /** Only the `plus` link of `x` changed, and it now points at `y`. */
  twostate lemma LinkedPlus(world: set<Actin2>, new x: Actin2, new y: Actin2)
    requires x in world && x.plus == y
    requires forall a :: a in world && a != x ==> a.plus == old(a.plus)
    ensures PlusLinks(world) == old(PlusLinks(world))[x := Some(y)]
  {
  }

  /** A world whose links did not change keeps every property of its links. */
  twostate lemma LinksUnchanged(world: set<Actin2>)
    requires old(Closed(world))
    requires forall o :: o in world ==> o.plus == old(o.plus) && o.minus == old(o.minus)
    ensures Closed(world) && (old(Mutual(world)) ==> Mutual(world))
    ensures MinusLinks(world) == old(MinusLinks(world)) && PlusLinks(world) == old(PlusLinks(world))
  {
  }

  /** `a` has just been linked in front of `b` and no other link of `world` changed. */
  twostate predicate JustLinked(world: set<Actin2>, new a: Actin2, new b: Actin2)
    reads world
  {
    && a in world && b in world && a != b
    && a.plus == b && b.minus == a && a.minus == old(a.minus) && b.plus == old(b.plus)
    && forall o :: o in world && o != a && o != b ==> o.plus == old(o.plus) && o.minus == old(o.minus)
  }

  /**
   * Linking `a` in front of `b` keeps the world closed. When both were single,
   * mutual linkage and the absence of cycles are kept too.
   */
  twostate lemma PairLinked(world: set<Actin2>, new a: Actin2, new b: Actin2)
    requires old(Closed(world)) && JustLinked(world, a, b)
    ensures Closed(world)
    ensures old(a.IsSingle() && b.IsSingle()) ==>
      && (old(Mutual(world)) ==> Mutual(world))
      && (old(Chains.Acyclic<Actin2>(MinusLinks(world))) ==> Chains.Acyclic<Actin2>(MinusLinks(world)))
      && (old(Chains.Acyclic<Actin2>(PlusLinks(world))) ==> Chains.Acyclic<Actin2>(PlusLinks(world)))
  {
    LinkedClosed(world, a, b);
    if old(a.IsSingle() && b.IsSingle()) {
      if old(Mutual(world)) {
        LinkedMutual(world, a, b);
      }
      ChainOfEndBefore(world, a, b);
      LinkedAcyclic(world, a, b);
    }
  }

  /** Single subunits are alone on their chains. */
  twostate lemma ChainOfEndBefore(world: set<Actin2>, new a: Actin2, new b: Actin2)
    requires a in world && b in world && old(a.minus == null && b.plus == null)
    ensures Chains.Chain<Actin2>(old(MinusLinks(world)), a) == [a]
    ensures Chains.Chain<Actin2>(old(PlusLinks(world)), b) == [b]
  {
    Chains.ChainOfEnd<Actin2>(old(MinusLinks(world)), a);
    Chains.ChainOfEnd<Actin2>(old(PlusLinks(world)), b);
  }

  /** Linking `a` in front of `b` keeps the world closed. */
  twostate lemma LinkedClosed(world: set<Actin2>, new a: Actin2, new b: Actin2)
    requires old(Closed(world)) && JustLinked(world, a, b)
    ensures Closed(world)
  {
  }

  /**
   * Linking `a`, which had no plus neighbour, in front of `b`, which had no minus
   * neighbour, keeps a mutually linked world mutually linked.
   */
  twostate lemma LinkedMutual(world: set<Actin2>, new a: Actin2, new b: Actin2)
    requires old(Mutual(world)) && JustLinked(world, a, b) && old(a.plus == null && b.minus == null)
    ensures Mutual(world)
  {
    forall o | o in world
      ensures o.plus != null ==> o.plus in world && o.plus.minus == o
      ensures o.minus != null ==> o.minus in world && o.minus.plus == o
    {
      if o != a && o != b {
        assert o.plus == old(o.plus) && o.minus == old(o.minus);
      }
    }
  }

  /**
   * Linking `a` in front of `b` when `a` already had another plus neighbour `p`
   * leaves `p.minus == a` while `a.plus == b`: the world is no longer mutually linked.
   */
  twostate lemma LinkedOverwrites(world: set<Actin2>, new a: Actin2, new b: Actin2)
    requires old(Mutual(world)) && JustLinked(world, a, b) && old(a.plus != null && a.plus != b)
    ensures !Mutual(world)
  {
    var p := old(a.plus);
    assert p in world && old(p.minus) == a;
    if p != a {
      assert p.minus == a && a.plus != p;
    }
  }

  /**
   * Linking `b` behind `a` creates no `minus` cycle when `b` is not on the minus
   * chain from `a`, and no `plus` cycle when `a` is not on the plus chain from `b`.
   */
  twostate lemma LinkedAcyclic(world: set<Actin2>, new a: Actin2, new b: Actin2)
    requires old(Closed(world)) && JustLinked(world, a, b)
    ensures old(b !in Chains.Chain<Actin2>(MinusLinks(world), a) && Chains.Acyclic<Actin2>(MinusLinks(world)))
            ==> Chains.Acyclic<Actin2>(MinusLinks(world))
    ensures old(a !in Chains.Chain<Actin2>(PlusLinks(world), b) && Chains.Acyclic<Actin2>(PlusLinks(world)))
            ==> Chains.Acyclic<Actin2>(PlusLinks(world))
  {
    ghost var minus0, plus0 := old(MinusLinks(world)), old(PlusLinks(world));
    ClosedLinksBefore(world);
    LinkedMinus(world, b, a);
    LinkedPlus(world, a, b);
    if b !in Chains.Chain<Actin2>(minus0, a) && Chains.Acyclic<Actin2>(minus0) {
      Chains.LinkKeepsAcyclic<Actin2>(minus0, b, a);
    }
    if a !in Chains.Chain<Actin2>(plus0, b) && Chains.Acyclic<Actin2>(plus0) {
      Chains.LinkKeepsAcyclic<Actin2>(plus0, a, b);
    }
  }

  /**
   * In a mutually linked world, no `minus` link points at a subunit without a
   * plus neighbour, so such a subunit lies on no other subunit's minus chain.
   */
  lemma OffMinusChains(world: set<Actin2>, t: Actin2, y: Actin2)
    requires Mutual(world) && t in world && t.plus == null && y in world && y != t
    ensures t !in Chains.Chain<Actin2>(MinusLinks(world), y)
  {
    var m := MinusLinks(world);
    var c := Chains.Chain<Actin2>(m, y);
    if t in c {
      var k :| 0 <= k < |c| && c[k] == t;
      assert k > 0;
      Chains.WalkStep<Actin2>(m, y, |m| + 1, k - 1);
      assert false;
    }
  }

  /** `ClosedLinks` in the earlier state of a two-state context. */
  twostate lemma ClosedLinksBefore(world: set<Actin2>)
    requires old(Closed(world))
    ensures Chains.Closed<Actin2>(old(MinusLinks(world))) && Chains.Closed<Actin2>(old(PlusLinks(world)))
  {
  }

  /**
   * The outcome of the Deactivated case of `update` for `a`, whose cell was
   * `a0` and whose neighbours' cells were `p0` and `m0` when the case began, with
   * link snapshots `minus0` and `plus0` then. A plus end or a minus end runs its
   * detachment test; any other subunit and its neighbours are left as they were.
   */
  ghost predicate EndTasksDone(a: Actin2, a0: Cell, p0: Cell, m0: Cell, now: int, decay: int -> real,
                               minus0: Chains.Links<Actin2>, plus0: Chains.Links<Actin2>,
                               toDetach: seq<Actin2>, out: seq<Actin2>)
    reads a, a0.plus, a0.minus
  {
    if a0.plus == null && a0.minus != null then
      var length := |Chains.Chain<Actin2>(minus0, a)|;
      PlusEndDone(a, a0.minus, a0, m0, length, DetachDue(now - a0.stamp, length, PLUS_END_BASE, decay),
                  toDetach, out, now)
    else if a0.plus != null && a0.minus == null then
      var length := |Chains.Chain<Actin2>(plus0, a)|;
      MinusEndDone(a, a0.plus, a0, p0, length, DetachDue(now - a0.stamp, length, MINUS_END_BASE, decay),
                   toDetach, out, now)
    else
      out == toDetach && a.Snap() == a0 && SnapOf(a0.plus) == p0 && SnapOf(a0.minus) == m0
  }

  /**
   * The outcome of the plus-end detachment test of `a`, whose minus neighbour
   * is `m`, with cells `a0` and `m0` when the test ran, `length` the chain length
   * it computed and `due` its verdict. A due dimer breaks up, both subunits
   * Detached and queued; of a longer chain only `a` is cut off, Detached and
   * queued, and a Deactivated `m` gets a fresh timestamp.
   */
  predicate PlusEndDone(a: Actin2, m: Actin2, a0: Cell, m0: Cell, length: int, due: bool,
                        toDetach: seq<Actin2>, out: seq<Actin2>, now: int)
    reads a, m
  {
    if !due then
      out == toDetach && a.Snap() == a0 && m.Snap() == m0
    else if length == 2 then
      && out == toDetach + [a, m]
      && a.Snap() == Cell(null, null, Detached, now) && m.Snap() == Cell(null, null, Detached, now)
    else
      && out == toDetach + [a]
      && a.Snap() == a0.(minus := null, state := Detached, stamp := now)
      && m.Snap() == m0.(plus := null, stamp := if m0.state == Deactivated then now else m0.stamp)
  }

  /** The outcome of the minus-end detachment test of `a`, whose plus neighbour is `p`. */
  predicate MinusEndDone(a: Actin2, p: Actin2, a0: Cell, p0: Cell, length: int, due: bool,
                         toDetach: seq<Actin2>, out: seq<Actin2>, now: int)
    reads a, p
  {
    if !due then
      out == toDetach && a.Snap() == a0 && p.Snap() == p0
    else if length == 2 then
      && out == toDetach + [a, p]
      && a.Snap() == Cell(null, null, Detached, now) && p.Snap() == Cell(null, null, Detached, now)
    else
      && out == toDetach + [a]
      && a.Snap() == a0.(plus := null, state := Detached, stamp := now)
      && p.Snap() == p0.(minus := null, stamp := if p0.state == Deactivated then now else p0.stamp)
  }
}
