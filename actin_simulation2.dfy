/**
 * The second engine (src/ActinSimulation2.tsx): a registry of subunits with the
 * per-tick pass over its filaments, the dispatch of collision pairs, spawning
 * gated by overlap and the statistics of the current population.
 *
 * The physics engine is absent. A collision event is a sequence of body-id
 * pairs, a body's heading is given by `headingOf`, the id of a new body by the
 * caller, and the clock reading by `now`.
 */
module ActinSimulation2 {
  import opened Wrappers
  import opened Geometry
  import opened JsMaps
  import opened Actin2
  import opened ActinManager2
  import opened Histograms
  import Chains

  /** A collision pair: the ids of the two bodies that touched. */
  datatype Pair = Pair(bodyA: int, bodyB: int)

  /** What `handleCollision` does with a pair of registered subunits. */
  datatype Action = Dimerize | AttachAToB | AttachBToA | NoAction

  /** The same action with the two bodies of the pair swapped. */
  function Mirror(act: Action): Action
  {
    match act
    case Dimerize => Dimerize
    case AttachAToB => AttachBToA
    case AttachBToA => AttachAToB
    case NoAction => NoAction
  }

  /** A subunit that can start or join a filament: it is single and carries ATP. */
  predicate Eligible(a: Actin2)
    reads a
  {
    a.IsSingle() && a.HasAtp()
  }

  /**
   * The dispatch of a pair of registered subunits. Nothing happens when both
   * bodies are static. Two eligible subunits dimerize. One eligible subunit
   * attaches to the other only when that one is not single.
   */
  function Decide(a: Actin2, b: Actin2): (r: Action)
    reads a, b
    ensures r == Dimerize <==> !(a.isStatic && b.isStatic) && Eligible(a) && Eligible(b)
    ensures r == AttachAToB <==> !(a.isStatic && b.isStatic) && Eligible(a) && !Eligible(b) && !b.IsSingle()
    ensures r == AttachBToA <==> !(a.isStatic && b.isStatic) && !Eligible(a) && Eligible(b) && !a.IsSingle()
  {
    if a.isStatic && b.isStatic then NoAction
    else if Eligible(a) && Eligible(b) then Dimerize
    else if Eligible(a) then (if !b.IsSingle() then AttachAToB else NoAction)
    else if Eligible(b) then (if !a.IsSingle() then AttachBToA else NoAction)
    else NoAction
  }

  /** The dispatch treats both bodies of a pair alike. */
  lemma DecideMirror(a: Actin2, b: Actin2)
    ensures Decide(b, a) == Mirror(Decide(a, b))
  {
  }

  /** Every action started by the dispatch is started by a single subunit. */
  lemma DecideSingle(a: Actin2, b: Actin2)
    ensures Decide(a, b) == Dimerize ==> a.IsSingle() && b.IsSingle()
    ensures Decide(a, b) == AttachAToB ==> a.IsSingle() && !b.IsSingle()
    ensures Decide(a, b) == AttachBToA ==> b.IsSingle() && !a.IsSingle()
  {
  }

  /** The ids of the subunits of `s`. */
  function Ids(s: seq<Actin2>): set<int>
  {
    set a | a in s :: a.id
  }

  /** The ids of a prefix one longer. */
  lemma IdsStep(s: seq<Actin2>, i: int)
    requires 0 <= i < |s|
    ensures Ids(s[..i + 1]) == Ids(s[..i]) + {s[i].id}
  {
    assert s[..i + 1] == s[..i] + [s[i]];
  }

  /** The state of every subunit of `world`. */
  ghost function States(world: set<Actin2>): map<Actin2, ActinState2>
    reads world
  {
    map a | a in world :: a.state
  }

  /**
   * Since the moment whose states were `st0`, no Detached subunit came back,
   * every subunit that became Detached was queued in `out`, and a free subunit
   * is still free unless it became Detached.
   */
  ghost predicate QueuedSince(world: set<Actin2>, st0: map<Actin2, ActinState2>, out: seq<Actin2>)
    reads world
  {
    forall a :: a in world && a in st0 ==>
      && (st0[a] == Detached ==> a.state == Detached)
      && (a.state == Detached && st0[a] != Detached ==> a in out)
      && (Free(st0[a]) ==> Free(a.state) || a.state == Detached)
  }

  /**
   * Every link of `world` that is still there is the one the link snapshots
   * `m0` and `p0` recorded: since then, links were only cut.
   */
  ghost predicate CutSince(world: set<Actin2>, m0: Chains.Links<Actin2>, p0: Chains.Links<Actin2>)
    reads world
  {
    && m0.Keys == world && p0.Keys == world
    && forall a {:trigger a.minus} {:trigger a.plus} :: a in world ==>
      && (a.minus != null ==> m0[a] == Some(a.minus))
      && (a.plus != null ==> p0[a] == Some(a.plus))
  }

  /** `CutSince` says that the current snapshots are cuts of `m0` and `p0`. */
  lemma CutSinceCuts(world: set<Actin2>, m0: Chains.Links<Actin2>, p0: Chains.Links<Actin2>)
    ensures CutSince(world, m0, p0) <==>
      Chains.Cuts<Actin2>(m0, MinusLinks(world)) && Chains.Cuts<Actin2>(p0, PlusLinks(world))
  {
    if Chains.Cuts<Actin2>(m0, MinusLinks(world)) && Chains.Cuts<Actin2>(p0, PlusLinks(world)) {
      forall a | a in world
        ensures a.minus != null ==> m0[a] == Some(a.minus)
        ensures a.plus != null ==> p0[a] == Some(a.plus)
      {
        assert MinusLinks(world)[a] == m0[a] || MinusLinks(world)[a].None?;
        assert PlusLinks(world)[a] == p0[a] || PlusLinks(world)[a].None?;
      }
    }
  }

  /**
   * The bookkeeping of a pass that began with link snapshots `m0` and `p0`,
   * states `st0` and queue `t0`: links were only cut, so the world is still
   * closed, and the queue `out` extends `t0` with every subunit that became
   * Detached.
   */
  ghost predicate Progress(world: set<Actin2>, m0: Chains.Links<Actin2>, p0: Chains.Links<Actin2>,
                           st0: map<Actin2, ActinState2>, t0: seq<Actin2>, out: seq<Actin2>)
    reads world
  {
    && Closed(world) && CutSince(world, m0, p0)
    && QueuedSince(world, st0, out) && t0 <= out
  }

  /** A pass that has not started has made progress. */
  lemma ProgressStart(world: set<Actin2>, t0: seq<Actin2>)
    requires Closed(world)
    ensures Progress(world, MinusLinks(world), PlusLinks(world), States(world), t0, t0)
  {
  }

  /**
   * `actin.update(toDetach)` inside a pass whose bookkeeping began with `m0`,
   * `p0`, `st0` and `t0`, with acyclic snapshots: the chains from `actin` still
   * end, so `actin` is updated as `Updated` says, and the update only cuts
   * links and queues what it detaches, so it keeps that bookkeeping.
   * `change` is the change the update made to the cell of `actin`.
   */
  method UpdateOne(actin: Actin2, toDetach: seq<Actin2>, now: int, decay: int -> real,
                   ghost world: set<Actin2>, ghost m0: Chains.Links<Actin2>, ghost p0: Chains.Links<Actin2>,
                   ghost st0: map<Actin2, ActinState2>, ghost t0: seq<Actin2>)
    returns (out: seq<Actin2>, ghost change: Change)
    requires actin in world && Progress(world, m0, p0, st0, t0, toDetach)
    requires Chains.Acyclic<Actin2>(m0) && Chains.Acyclic<Actin2>(p0)
    modifies world`plus, world`minus, world`state, world`stateChangedAt
    ensures Updated(actin, toDetach, out, now, decay, world)
    ensures change == Change(old(actin.Snap()), actin.Snap()) && CellUpdated(change.before, change.after, now)
    ensures Progress(world, m0, p0, st0, t0, out)
  {
    assert actin.Near() <= world;
    ghost var m1, p1 := MinusLinks(world), PlusLinks(world);
    CutSinceCuts(world, m0, p0);
    assert Chains.Terminates<Actin2>(m0, actin) && Chains.Terminates<Actin2>(p0, actin);
    Chains.CutTerminates<Actin2>(m0, m1, actin);
    Chains.CutTerminates<Actin2>(p0, p1, actin);
    ghost var before := actin.Snap();
    out := actin.Update(toDetach, now, decay, world);
    change := Change(before, actin.Snap());
    LinksKeptOrCut(world);
    Chains.CutsTrans<Actin2>(m0, m1, MinusLinks(world));
    Chains.CutsTrans<Actin2>(p0, p1, PlusLinks(world));
    CutSinceCuts(world, m0, p0);
    forall o | o in world && o in st0 && Free(st0[o])
      ensures Free(o.state) || o.state == Detached
    {
      assert Free(old(o.state)) || old(o.state) == Detached;
    }
  }

  /** The cell of a subunit just before and just after its `update`. */
  datatype Change = Change(before: Cell, after: Cell)

  /** Each change of `cs` is one `update` at `now`, as `CellUpdated` says. */
  ghost predicate AllUpdated(cs: seq<Change>, now: int)
  {
    forall k :: 0 <= k < |cs| ==> CellUpdated(cs[k].before, cs[k].after, now)
  }

  /**
   * `w` is a walk from `x` along the link snapshot `m0`: a nonempty prefix of
   * the chain from `x` that stops early only at a subunit that had a link in
   * `m0`, meaning that the link was cut before the walk got there.
   */
  ghost predicate Walked(w: seq<Actin2>, x: Actin2, m0: Chains.Links<Actin2>)
  {
    var c := Chains.Chain<Actin2>(m0, x);
    && 1 <= |w| && w <= c && w[0] == x
    && (|w| < |c| ==> w[|w| - 1] in m0 && m0[w[|w| - 1]].Some?)
  }

  /**
   * `filament.forEach((actin) => actin.update(toDetach))` inside a pass whose
   * bookkeeping began with `m0`, `p0`, `st0` and `t0`: updates the head of a
   * filament, then each subunit reached along `minus`, reading each link only
   * after the update of the subunit it leaves. `visited` records the subunits
   * updated, in order: a walk from the head along the links as they were when
   * the pass began, ending at a subunit that now has no minus neighbour;
   * `changes[k]` is the change its update made to the cell of `visited[k]`.
   */
  method UpdateFilament(filament: Actin2, toDetach: seq<Actin2>, now: int, decay: int -> real,
                        ghost world: set<Actin2>, ghost m0: Chains.Links<Actin2>, ghost p0: Chains.Links<Actin2>,
                        ghost st0: map<Actin2, ActinState2>, ghost t0: seq<Actin2>)
    returns (out: seq<Actin2>, ghost visited: seq<Actin2>, ghost changes: seq<Change>)
    requires filament in world && Progress(world, m0, p0, st0, t0, toDetach)
    requires Chains.Acyclic<Actin2>(m0) && Chains.Acyclic<Actin2>(p0)
    modifies world`plus, world`minus, world`state, world`stateChangedAt
    ensures Progress(world, m0, p0, st0, t0, out)
    ensures Walked(visited, filament, m0) && visited[|visited| - 1].minus == null
    ensures |changes| == |visited| && AllUpdated(changes, now)
    ensures changes[0].before == old(filament.Snap()) && changes[|changes| - 1].after == visited[|visited| - 1].Snap()
  {
    ghost var c := Chains.Chain<Actin2>(m0, filament);
    assert Chains.Terminates<Actin2>(m0, filament);
    // the source updates `this` and then follows `minus` while there is one;
    // each link is read after the update of the subunit it leaves, as here
    var pointer: Actin2? := filament;
    out := toDetach;
    ghost var n := 0;
    ghost var head0 := filament.Snap();
    changes := [];
    while pointer != null
      invariant Progress(world, m0, p0, st0, t0, out)
      invariant 0 <= n <= |c|
      invariant |changes| == n && AllUpdated(changes, now)
      invariant n == 0 ==> pointer == filament && filament.Snap() == head0
      invariant n >= 1 ==> changes[0].before == head0 && changes[n - 1].after == c[n - 1].Snap()
      invariant pointer != null ==> pointer in world && n < |c| && pointer == c[n]
      invariant pointer == null ==> 1 <= n && c[n - 1].minus == null
      invariant pointer == null && n < |c| ==> c[n - 1] in m0 && m0[c[n - 1]].Some?
      decreases |c| - n
    {
      ghost var change;
      out, change, pointer := UpdateNext(filament, pointer, n, out, now, decay, world, m0, p0, st0, t0);
      changes := changes + [change];
      n := n + 1;
    }
    visited := c[..n];
    ChainPrefix<Actin2>(m0, filament, n);
  }

  /**
   * The step of `UpdateFilament` at `here`, the subunit at index `n` of the
   * chain from `filament` in `m0`: updates it, then reads its minus link as
   * `next`, a link the pass has not cut and so the next subunit of that chain.
   */
  method UpdateNext(filament: Actin2, here: Actin2, ghost n: int, toDetach: seq<Actin2>, now: int, decay: int -> real,
                    ghost world: set<Actin2>, ghost m0: Chains.Links<Actin2>, ghost p0: Chains.Links<Actin2>,
                    ghost st0: map<Actin2, ActinState2>, ghost t0: seq<Actin2>)
    returns (out: seq<Actin2>, ghost change: Change, next: Actin2?)
    requires here in world && Progress(world, m0, p0, st0, t0, toDetach)
    requires Chains.Acyclic<Actin2>(m0) && Chains.Acyclic<Actin2>(p0) && filament in m0
    requires 0 <= n < |Chains.Chain<Actin2>(m0, filament)| && here == Chains.Chain<Actin2>(m0, filament)[n]
    modifies world`plus, world`minus, world`state, world`stateChangedAt
    ensures Progress(world, m0, p0, st0, t0, out)
    ensures change == Change(old(here.Snap()), here.Snap()) && CellUpdated(change.before, change.after, now)
    ensures next == here.minus
    ensures var c := Chains.Chain<Actin2>(m0, filament);
      && (next != null ==> next in world && n + 1 < |c| && next == c[n + 1])
      && (next == null && n + 1 < |c| ==> c[n] in m0 && m0[c[n]].Some?)
  {
    assert Chains.Terminates<Actin2>(m0, filament);
    out, change := UpdateOne(here, toDetach, now, decay, world, m0, p0, st0, t0);
    next := here.minus;
    if next != null {
      // the link followed is one the pass has not cut
      ChainAhead<Actin2>(m0, filament, n + 1, next);
    } else {
      ChainPrefix<Actin2>(m0, filament, n + 1);
    }
  }

  /** Where the `n`-th subunit of the chain from `x` has a link, it leads to the next subunit of the chain. */
  lemma ChainAhead<T>(m0: Chains.Links<T>, x: T, n: nat, y: T)
    requires Chains.Terminates(m0, x) && 1 <= n <= |Chains.Chain(m0, x)|
    requires Chains.Chain(m0, x)[n - 1] in m0 && m0[Chains.Chain(m0, x)[n - 1]] == Some(y)
    ensures n < |Chains.Chain(m0, x)| && Chains.Chain(m0, x)[n] == y
  {
    Chains.WalkEnd(m0, x, |m0| + 1);
    Chains.WalkStep(m0, x, |m0| + 1, n - 1);
  }

  /**
   * The first `n` subunits of the chain from `x` start at `x`, end at its
   * `n`-th subunit and, when the chain goes on, that subunit has a link.
   */
  lemma ChainPrefix<T>(m0: Chains.Links<T>, x: T, n: nat)
    requires 1 <= n <= |Chains.Chain(m0, x)|
    ensures var c := Chains.Chain(m0, x);
      && c[..n] <= c && |c[..n]| == n && c[..n][0] == x && c[..n][n - 1] == c[n - 1]
      && (n < |c| ==> c[n - 1] in m0 && m0[c[n - 1]].Some?)
  {
    if n < |Chains.Chain(m0, x)| {
      Chains.WalkStep(m0, x, |m0| + 1, n - 1);
    }
  }

  /** A free single subunit beyond ARENA_RADIUS: its next `update` queues it for removal. */
  predicate Escaping(a: Actin2)
    reads a
  {
    a.IsSingle() && Free(a.state) && Beyond(a.pos, ARENA_RADIUS)
  }

  /** `a` was `Escaping` at the moment whose link snapshots were `m0`, `p0` and states `st0`. */
  ghost predicate EscapedFrom(a: Actin2, m0: Chains.Links<Actin2>, p0: Chains.Links<Actin2>,
                              st0: map<Actin2, ActinState2>)
    reads a`pos
  {
    && a in m0 && a in p0 && a in st0
    && m0[a].None? && p0[a].None? && Free(st0[a]) && Beyond(a.pos, ARENA_RADIUS)
  }

  /**
   * One step of the pass for the registered subunit `filament`, inside a pass
   * whose bookkeeping began with `m0`, `p0` and `st0`: the head test of
   * `forEachFilament`, then, when it passes, the visitor of `precede`. `plus`
   * is the plus link the test read. A subunit that fails the test is left
   * alone; a head is updated along `walk`, with `changes` the change each
   * update made. A subunit escaping when the pass began is still single when
   * it is reached, and so is queued.
   */
  method Visit(filament: Actin2, toDetach: seq<Actin2>, now: int, decay: int -> real,
               ghost world: set<Actin2>, ghost m0: Chains.Links<Actin2>, ghost p0: Chains.Links<Actin2>,
               ghost st0: map<Actin2, ActinState2>)
    returns (out: seq<Actin2>, ghost plus: Actin2?, ghost walk: seq<Actin2>, ghost changes: seq<Change>)
    requires filament in world && Progress(world, m0, p0, st0, [], toDetach)
    requires Chains.Acyclic<Actin2>(m0) && Chains.Acyclic<Actin2>(p0)
    modifies world`plus, world`minus, world`state, world`stateChangedAt
    ensures Progress(world, m0, p0, st0, [], out) && toDetach <= out
    ensures plus == old(filament.plus)
    ensures plus != null ==> p0[filament] == Some(plus) && out == toDetach && walk == [] && unchanged(world)
    ensures plus == null ==> Walked(walk, filament, m0) && |changes| == |walk| && AllUpdated(changes, now)
    ensures plus == null ==> changes[0].before == old(filament.Snap())
    ensures plus == null ==> changes[|changes| - 1].after == walk[|walk| - 1].Snap()
    ensures old(EscapedFrom(filament, m0, p0, st0)) ==> filament in out
  {
    plus := filament.plus;
    if filament.IsSingle() || filament.IsPlusEnd() {
      assert Progress(world, m0, p0, st0, toDetach, toDetach);
      if filament.IsSingle() {
        ghost var change;
        out, change := UpdateOne(filament, toDetach, now, decay, world, m0, p0, st0, toDetach);
        ChainPrefix<Actin2>(m0, filament, 1);
        walk, changes := [filament], [change];
      } else {
        out, walk, changes := UpdateFilament(filament, toDetach, now, decay, world, m0, p0, st0, toDetach);
      }
    } else {
      out, walk, changes := toDetach, [], [];
    }
  }

  /**
   * The log of a pass over `all` that has reached index `|plusAt|`, with link
   * snapshots `m0` and `p0` from its start:
   *  - `plusAt[j]` is the plus link `all[j]` had when the pass reached it,
   *    which is its link at the start unless that was cut since;
   *  - `heads` holds, in increasing order, exactly the indices whose link was
   *    then null, the subunits the head test of `forEachFilament` let through;
   *  - `walks[k]` is the walk updated from `all[heads[k]]`: a prefix of its
   *    minus chain at the start that ends where a link is null by then;
   *  - `cells[k][n]` is the change the update at `now` made to the cell of
   *    `walks[k][n]`.
   */
  ghost predicate SweepLog(all: seq<Actin2>, plusAt: seq<Actin2?>, heads: seq<int>,
                           walks: seq<seq<Actin2>>, cells: seq<seq<Change>>, now: int,
                           m0: Chains.Links<Actin2>, p0: Chains.Links<Actin2>)
  {
    && |plusAt| <= |all|
    && PlusLogged(all, plusAt, p0)
    && HeadsLogged(all, plusAt, heads, walks, m0)
    && CellsLogged(walks, cells, now)
  }

  /** A log that has reached index `i`, in which `out` holds every subunit reached whose index is in `esc`. */
  ghost predicate Logged(all: seq<Actin2>, i: int, plusAt: seq<Actin2?>, heads: seq<int>,
                         walks: seq<seq<Actin2>>, cells: seq<seq<Change>>, now: int,
                         m0: Chains.Links<Actin2>, p0: Chains.Links<Actin2>, esc: set<int>, out: seq<Actin2>)
  {
    && 0 <= i <= |all| && |plusAt| == i
    && SweepLog(all, plusAt, heads, walks, cells, now, m0, p0)
    && QueueLogged(all, i, esc, out)
  }

  ghost predicate PlusLogged(all: seq<Actin2>, plusAt: seq<Actin2?>, p0: Chains.Links<Actin2>)
    requires |plusAt| <= |all|
  {
    forall j :: 0 <= j < |plusAt| && plusAt[j] != null ==> all[j] in p0 && p0[all[j]] == Some(plusAt[j])
  }

  ghost predicate HeadsLogged(all: seq<Actin2>, plusAt: seq<Actin2?>, heads: seq<int>,
                              walks: seq<seq<Actin2>>, m0: Chains.Links<Actin2>)
    requires |plusAt| <= |all|
  {
    && |walks| == |heads|
    && (forall k :: 0 <= k < |heads| ==> 0 <= heads[k] < |plusAt|)
    && (forall k, l :: 0 <= k < l < |heads| ==> heads[k] < heads[l])
    && (forall j :: 0 <= j < |plusAt| ==> (j in heads <==> plusAt[j] == null))
    && (forall k :: 0 <= k < |heads| ==> Walked(walks[k], all[heads[k]], m0))
  }

  ghost predicate CellsLogged(walks: seq<seq<Actin2>>, cells: seq<seq<Change>>, now: int)
  {
    && |cells| == |walks|
    && forall k :: 0 <= k < |walks| ==> |cells[k]| == |walks[k]| && AllUpdated(cells[k], now)
  }

  ghost predicate QueueLogged(all: seq<Actin2>, i: int, esc: set<int>, out: seq<Actin2>)
    requires 0 <= i <= |all|
  {
    forall j :: 0 <= j < i && j in esc ==> all[j] in out
  }

  lemma PlusLogStep(all: seq<Actin2>, plusAt: seq<Actin2?>, p0: Chains.Links<Actin2>, plus: Actin2?)
    requires |plusAt| < |all| && PlusLogged(all, plusAt, p0)
    requires plus != null ==> all[|plusAt|] in p0 && p0[all[|plusAt|]] == Some(plus)
    ensures PlusLogged(all, plusAt + [plus], p0)
  {
    var plusAt' := plusAt + [plus];
    forall j | 0 <= j < |plusAt'| && plusAt'[j] != null
      ensures all[j] in p0 && p0[all[j]] == Some(plusAt'[j])
    {
      if j < |plusAt| { assert plusAt'[j] == plusAt[j]; }
    }
  }

  lemma HeadsLogStep(all: seq<Actin2>, i: int, plusAt: seq<Actin2?>, heads: seq<int>, walks: seq<seq<Actin2>>,
                     m0: Chains.Links<Actin2>, plus: Actin2?, walk: seq<Actin2>)
    requires i == |plusAt| < |all| && HeadsLogged(all, plusAt, heads, walks, m0)
    requires plus == null ==> Walked(walk, all[i], m0)
    ensures plus == null ==> HeadsLogged(all, plusAt + [plus], heads + [i], walks + [walk], m0)
    ensures plus != null ==> HeadsLogged(all, plusAt + [plus], heads, walks, m0)
  {
    var plusAt' := plusAt + [plus];
    var heads' := if plus == null then heads + [i] else heads;
    var walks' := if plus == null then walks + [walk] else walks;
    forall j | 0 <= j < i + 1
      ensures j in heads' <==> plusAt'[j] == null
    {
      if j < i { assert plusAt'[j] == plusAt[j]; assert j != i; }
    }
    forall k | 0 <= k < |heads'|
      ensures 0 <= heads'[k] < i + 1 && Walked(walks'[k], all[heads'[k]], m0)
    {
      if k < |heads| { assert heads'[k] == heads[k] && walks'[k] == walks[k]; }
    }
    assert HeadsLogged(all, plusAt', heads', walks', m0);
  }

  lemma CellsLogStep(walks: seq<seq<Actin2>>, cells: seq<seq<Change>>, now: int,
                     walk: seq<Actin2>, changes: seq<Change>)
    requires CellsLogged(walks, cells, now) && |changes| == |walk| && AllUpdated(changes, now)
    ensures CellsLogged(walks + [walk], cells + [changes], now)
  {
    forall k | 0 <= k < |walks| + 1
      ensures |(cells + [changes])[k]| == |(walks + [walk])[k]| && AllUpdated((cells + [changes])[k], now)
    {
      if k < |walks| { assert (cells + [changes])[k] == cells[k] && (walks + [walk])[k] == walks[k]; }
    }
  }

  lemma QueueLogStep(all: seq<Actin2>, i: int, esc: set<int>, out: seq<Actin2>, out': seq<Actin2>)
    requires 0 <= i < |all| && QueueLogged(all, i, esc, out)
    requires out <= out' && (i in esc ==> all[i] in out')
    ensures QueueLogged(all, i + 1, esc, out')
  {
    forall j | 0 <= j < i + 1 && j in esc
      ensures all[j] in out'
    {
      if j < i { assert all[j] in out; }
    }
  }

  /**
   * The pass of `precede` over `all`, the registered subunits in insertion
   * order: `forEachFilament` visits each subunit that is single or a plus end
   * when the pass reaches it, after the updates before it. A single head is
   * updated once, any other head together with its minus chain. The steering
   * forces `moveForwardIfValid` applies to free subunits are not modelled.
   *
   * The ghost results are the log of `SweepLog`, complete. A subunit escaping
   * when the pass began is queued by it.
   */
  method Sweep(all: seq<Actin2>, now: int, decay: int -> real, ghost world: set<Actin2>)
    returns (toDetach: seq<Actin2>, ghost plusAt: seq<Actin2?>, ghost heads: seq<int>,
             ghost walks: seq<seq<Actin2>>, ghost cells: seq<seq<Change>>)
    requires forall j :: 0 <= j < |all| ==> all[j] in world
    requires Closed(world)
    requires Chains.Acyclic<Actin2>(MinusLinks(world)) && Chains.Acyclic<Actin2>(PlusLinks(world))
    modifies world`plus, world`minus, world`state, world`stateChangedAt
    ensures Progress(world, old(MinusLinks(world)), old(PlusLinks(world)), old(States(world)), [], toDetach)
    ensures |plusAt| == |all|
    ensures SweepLog(all, plusAt, heads, walks, cells, now, old(MinusLinks(world)), old(PlusLinks(world)))
    ensures forall j :: 0 <= j < |all| && old(Escaping(all[j])) ==> all[j] in toDetach
  {
    ghost var m0, p0, st0 := MinusLinks(world), PlusLinks(world), States(world);
    ghost var esc := set j | 0 <= j < |all| && EscapedFrom(all[j], m0, p0, st0);
    forall j | 0 <= j < |all| && Escaping(all[j])
      ensures j in esc
    {
      assert EscapedFrom(all[j], m0, p0, st0);
    }
    ProgressStart(world, []);
    toDetach, plusAt, heads, walks, cells := [], [], [], [], [];
    var i := 0;
    while i < |all|
      invariant Progress(world, m0, p0, st0, [], toDetach)
      invariant Logged(all, i, plusAt, heads, walks, cells, now, m0, p0, esc, toDetach)
    {
      assert i in esc ==> EscapedFrom(all[i], m0, p0, st0);
      toDetach, plusAt, heads, walks, cells := Advance(all, i, toDetach, now, decay, world, m0, p0, st0,
                                                       esc, plusAt, heads, walks, cells);
      i := i + 1;
    }
  }

  /** The step of `Sweep` at index `i`: `Visit` on `all[i]`, recorded in the log. */
  method Advance(all: seq<Actin2>, i: int, toDetach: seq<Actin2>, now: int, decay: int -> real,
                 ghost world: set<Actin2>, ghost m0: Chains.Links<Actin2>, ghost p0: Chains.Links<Actin2>,
                 ghost st0: map<Actin2, ActinState2>, ghost esc: set<int>, ghost plusAt: seq<Actin2?>,
                 ghost heads: seq<int>, ghost walks: seq<seq<Actin2>>, ghost cells: seq<seq<Change>>)
    returns (out: seq<Actin2>, ghost plusAt': seq<Actin2?>, ghost heads': seq<int>,
             ghost walks': seq<seq<Actin2>>, ghost cells': seq<seq<Change>>)
    requires 0 <= i < |all| && all[i] in world
    requires Progress(world, m0, p0, st0, [], toDetach)
    requires Chains.Acyclic<Actin2>(m0) && Chains.Acyclic<Actin2>(p0)
    requires Logged(all, i, plusAt, heads, walks, cells, now, m0, p0, esc, toDetach)
    requires i in esc ==> EscapedFrom(all[i], m0, p0, st0)
    modifies world`plus, world`minus, world`state, world`stateChangedAt
    ensures Progress(world, m0, p0, st0, [], out)
    ensures Logged(all, i + 1, plusAt', heads', walks', cells', now, m0, p0, esc, out)
  {
    ghost var plus, walk, changes;
    out, plus, walk, changes := Visit(all[i], toDetach, now, decay, world, m0, p0, st0);
    PlusLogStep(all, plusAt, p0, plus);
    HeadsLogStep(all, i, plusAt, heads, walks, m0, plus, walk);
    QueueLogStep(all, i, esc, toDetach, out);
    plusAt' := plusAt + [plus];
    heads', walks', cells' := heads, walks, cells;
    if plus == null {
      CellsLogStep(walks, cells, now, walk, changes);
      heads', walks', cells' := heads + [i], walks + [walk], cells + [changes];
    }
  }

  /**
   * The action `act` that `Decide` picked for the subunits `a` and `b` of a
   * pair: `makeDimerWith` from `a` with `a`'s heading, or `attachToIfPossible`
   * from the eligible subunit with the heading of the other. Only `a` and `b`
   * change; neither becomes Detached and neither comes loose.
   */
  method Perform(a: Actin2, b: Actin2, act: Action, headingOf: int -> Vector, registered: set<Actin2>,
                 now: int, ghost world: set<Actin2>)
    requires a != b && a in world && b in world && Closed(world) && act == Decide(a, b)
    modifies a`plus, a`minus, a`state, a`stateChangedAt, a`isStatic, a`pos
    modifies b`plus, b`minus, b`state, b`stateChangedAt, b`isStatic, b`pos
    ensures act == Dimerize ==> Dimerized(a, b, headingOf(a.id), registered, now)
    ensures act == AttachAToB ==> Docked(a, b, headingOf(b.id), registered, now)
    ensures act == AttachBToA ==> Docked(b, a, headingOf(a.id), registered, now)
    ensures act == NoAction ==> unchanged(a, b)
    ensures old(a.state) != Detached ==> a.state != Detached
    ensures old(b.state) != Detached ==> b.state != Detached
    ensures (old(a.isStatic) ==> a.isStatic) && (old(b.isStatic) ==> b.isStatic)
    ensures Closed(world)
    ensures old(Chains.Acyclic<Actin2>(PlusLinks(world))) ==> Chains.Acyclic<Actin2>(PlusLinks(world))
  {
    DecideSingle(a, b);
    if act == Dimerize {
      a.MakeDimerWith(b, headingOf(a.id), registered, now, world);
    } else if act == AttachAToB {
      a.AttachToIfPossible(b, headingOf(b.id), registered, now, world);
    } else if act == AttachBToA {
      b.AttachToIfPossible(a, headingOf(a.id), registered, now, world);
    }
  }

  /** Every action of `acts` whose index is in `quiet` is `NoAction`. */
  ghost predicate Quiet(acts: seq<Action>, quiet: set<int>)
  {
    forall j :: 0 <= j < |acts| && j in quiet ==> acts[j] == NoAction
  }

  lemma QuietStep(acts: seq<Action>, quiet: set<int>, act: Action)
    requires Quiet(acts, quiet) && (|acts| in quiet ==> act == NoAction)
    ensures Quiet(acts + [act], quiet)
  {
    forall j | 0 <= j < |acts| + 1 && j in quiet
      ensures (acts + [act])[j] == NoAction
    {
      if j < |acts| { assert (acts + [act])[j] == acts[j]; }
    }
  }

  /** No pinned body of `world` has come loose: `setStatic` is only ever called with `true`. */
  twostate predicate PinsKept(world: set<Actin2>)
    reads world
  {
    forall o :: o in world && old(o.isStatic) ==> o.isStatic
  }

  class ActinSimulation2 {
    const manager: ActinManager2
    /** Every subunit this simulation has created, registered or not. */
    ghost var world: set<Actin2>

    /**
     * The registry is well formed, its subunits belong to the closed world of
     * subunits, and none of them is Detached: a detached subunit leaves the
     * registry at the end of the pass that detached it.
     */
    ghost predicate Valid()
      reads this, manager, manager.registry, world
    {
      && manager.Valid()
      && Closed(world)
      && forall k :: k in manager.registry.entries ==>
           manager.registry.entries[k] in world && manager.registry.entries[k].state != Detached
    }

    /** An empty simulation. The initial population and the spawn timer are not modelled. */
    constructor ()
      ensures Valid() && world == {}
      ensures fresh(manager) && fresh(manager.registry) && manager.registry.entries == map[]
    {
      manager := new ActinManager2();
      world := {};
    }

    /**
     * `precede` without the physics step: a pass over the registered
     * subunits in registration order, then the removal of every queued
     * subunit from the registry. No registry entry changes during the pass; a
     * subunit queued twice is removed once. The pass only cuts links, so by
     * `Chains.CutsKeepAcyclic` no chain gains a cycle. A registered subunit
     * that is single, Created or Activated and outside the arena when the tick
     * starts is no longer registered when it ends.
     */
    method Precede(now: int, decay: int -> real)
      returns (toDetach: seq<Actin2>, ghost all: seq<Actin2>, ghost plusAt: seq<Actin2?>, ghost heads: seq<int>,
               ghost walks: seq<seq<Actin2>>, ghost cells: seq<seq<Change>>)
      requires Valid()
      requires Chains.Acyclic<Actin2>(MinusLinks(world)) && Chains.Acyclic<Actin2>(PlusLinks(world))
      modifies world`plus, world`minus, world`state, world`stateChangedAt, manager.registry
      ensures Valid()
      ensures Progress(world, old(MinusLinks(world)), old(PlusLinks(world)), old(States(world)), [], toDetach)
      ensures manager.registry.entries == old(manager.registry.entries) - Ids(toDetach)
      ensures manager.registry.keys == WithoutAll(old(manager.registry.keys), Ids(toDetach))
      ensures forall k :: k in old(manager.registry.entries) && old(Escaping(manager.registry.entries[k])) ==>
                k !in manager.registry.entries
      ensures all == old(Listed(manager.registry.keys, manager.registry.entries))
      ensures |plusAt| == |all|
      ensures SweepLog(all, plusAt, heads, walks, cells, now, old(MinusLinks(world)), old(PlusLinks(world)))
    {
      toDetach, all, plusAt, heads, walks, cells := Pass(now, decay);
      // only now does the registry forget the queued subunits
      RemoveAll(toDetach);
    }

    /**
     * The pass of `precede`: `Sweep` over the registered subunits in
     * registration order. Every registered subunit escaping when the pass
     * begins is queued.
     */
    method Pass(now: int, decay: int -> real)
      returns (toDetach: seq<Actin2>, ghost all: seq<Actin2>, ghost plusAt: seq<Actin2?>, ghost heads: seq<int>,
               ghost walks: seq<seq<Actin2>>, ghost cells: seq<seq<Change>>)
      requires Valid()
      requires Chains.Acyclic<Actin2>(MinusLinks(world)) && Chains.Acyclic<Actin2>(PlusLinks(world))
      modifies world`plus, world`minus, world`state, world`stateChangedAt
      ensures Progress(world, old(MinusLinks(world)), old(PlusLinks(world)), old(States(world)), [], toDetach)
      ensures all == Listed(manager.registry.keys, manager.registry.entries)
      ensures |plusAt| == |all|
      ensures SweepLog(all, plusAt, heads, walks, cells, now, old(MinusLinks(world)), old(PlusLinks(world)))
      ensures forall k :: k in manager.registry.entries && old(Escaping(manager.registry.entries[k])) ==>
                k in Ids(toDetach)
    {
      var values := manager.registry.Values();
      ListedValues(manager.registry.keys, manager.registry.entries, values);
      all := values;
      forall j | 0 <= j < |all|
        ensures all[j] in world
      {
        var k := manager.registry.keys[j];
        assert k in manager.registry.entries && all[j] == manager.registry.entries[k];
      }
      toDetach, plusAt, heads, walks, cells := Sweep(values, now, decay, world);
      forall k | k in manager.registry.entries && old(Escaping(manager.registry.entries[k]))
        ensures k in Ids(toDetach)
      {
        var j :| 0 <= j < |manager.registry.keys| && manager.registry.keys[j] == k;
        assert all[j] in toDetach && all[j].id == k;
      }
    }

    /** The loop ending `precede`: removes each queued subunit from the registry. */
    method RemoveAll(toDetach: seq<Actin2>)
      requires manager.Valid()
      modifies manager.registry
      ensures manager.Valid()
      ensures manager.registry.entries == old(manager.registry.entries) - Ids(toDetach)
      ensures manager.registry.keys == WithoutAll(old(manager.registry.keys), Ids(toDetach))
    {
      ghost var e0, k0 := manager.registry.entries, manager.registry.keys;
      ghost var gone: set<int> := {};
      var i := 0;
      while i < |toDetach|
        invariant 0 <= i <= |toDetach| && gone == Ids(toDetach[..i])
        invariant manager.Valid()
        invariant manager.registry.entries == e0 - gone
        invariant manager.registry.keys == WithoutAll(k0, gone)
      {
        IdsStep(toDetach, i);
        WithoutAllStep(k0, gone, toDetach[i].id);
        manager.Remove(toDetach[i]);
        gone := gone + {toDetach[i].id};
        i := i + 1;
      }
      assert toDetach[..i] == toDetach;
    }

    /** Both bodies of `pair` belong to registered subunits. */
    predicate Registered(pair: Pair)
      reads this, manager, manager.registry
    {
      pair.bodyA in manager.registry.entries && pair.bodyB in manager.registry.entries
    }

    /** The registered subunits whose bodies are those of `pair`. */
    ghost function Bodies(pair: Pair): set<Actin2>
      reads this, manager, manager.registry
    {
      set k | k in manager.registry.entries && (k == pair.bodyA || k == pair.bodyB) :: manager.registry.entries[k]
    }

    /**
     * `handleCollision` for one pair of distinct bodies. A pair with a body
     * that is not registered does nothing. Otherwise `Decide` picks the action
     * and the subunits of the pair change as `makeDimerWith` or
     * `attachToIfPossible` says, with the heading of the subunit that stays in
     * place; no other subunit changes and no pinned body comes loose. The
     * world stays closed with every registered subunit still undetached, and
     * the filament through an attaching subunit gains no `plus` cycle.
     */
    method HandlePair(pair: Pair, headingOf: int -> Vector, now: int) returns (act: Action)
      requires Valid() && pair.bodyA != pair.bodyB
      modifies world`plus, world`minus, world`state, world`stateChangedAt, world`isStatic, world`pos
      ensures Valid()
      ensures act == (if Registered(pair) then old(Decide(manager.registry.entries[pair.bodyA], manager.registry.entries[pair.bodyB]))
                      else NoAction)
      ensures Registered(pair) ==>
        var a, b := manager.registry.entries[pair.bodyA], manager.registry.entries[pair.bodyB];
        var registered := manager.registry.entries.Values;
        && (act == Dimerize ==> Dimerized(a, b, headingOf(a.id), registered, now))
        && (act == AttachAToB ==> Docked(a, b, headingOf(b.id), registered, now))
        && (act == AttachBToA ==> Docked(b, a, headingOf(a.id), registered, now))
      ensures old(Pinned(pair)) ==> act == NoAction
      ensures act == NoAction ==> unchanged(world)
      ensures forall o :: o in world && o !in Bodies(pair) ==> unchanged(o)
      ensures PinsKept(world)
      ensures old(Chains.Acyclic<Actin2>(PlusLinks(world))) ==> Chains.Acyclic<Actin2>(PlusLinks(world))
    {
      var actinA := manager.Retrieve(pair.bodyA);
      var actinB := manager.Retrieve(pair.bodyB);
      if actinA.None? || actinB.None? {
        return NoAction;
      }
      var a, b := actinA.value, actinB.value;
      assert Bodies(pair) == {a, b};
      act := Decide(a, b);
      Perform(a, b, act, headingOf, manager.registry.entries.Values, now, world);
    }

    /** Both bodies of `pair` belong to registered subunits that are pinned. */
    ghost predicate Pinned(pair: Pair)
      reads this, manager, manager.registry, world
    {
      && Registered(pair)
      && manager.registry.entries[pair.bodyA] in world && manager.registry.entries[pair.bodyB] in world
      && manager.registry.entries[pair.bodyA].isStatic && manager.registry.entries[pair.bodyB].isStatic
    }

    /**
     * `handleCollision`: each pair in turn; the actions taken, one per pair.
     * Only registered pairs act. Because no pinned body ever comes loose, a
     * pair whose two subunits were both pinned before the first pair does
     * nothing, whatever the pairs before it did.
     */
    method HandleCollision(pairs: seq<Pair>, headingOf: int -> Vector, now: int) returns (acts: seq<Action>)
      requires Valid()
      requires forall i :: 0 <= i < |pairs| ==> pairs[i].bodyA != pairs[i].bodyB
      modifies world`plus, world`minus, world`state, world`stateChangedAt, world`isStatic, world`pos
      ensures Valid()
      ensures |acts| == |pairs|
      ensures forall i :: 0 <= i < |pairs| && !Registered(pairs[i]) ==> acts[i] == NoAction
      ensures forall i :: 0 <= i < |pairs| && old(Pinned(pairs[i])) ==> acts[i] == NoAction
      ensures PinsKept(world)
      ensures old(Chains.Acyclic<Actin2>(PlusLinks(world))) ==> Chains.Acyclic<Actin2>(PlusLinks(world))
    {
      ghost var pinned := set o | o in world && o.isStatic;
      ghost var quiet := set j | 0 <= j < |pairs| && (!Registered(pairs[j]) || Pinned(pairs[j]));
      acts := [];
      var i := 0;
      while i < |pairs|
        invariant 0 <= i <= |pairs| && |acts| == i
        invariant Valid()
        invariant Quiet(acts, quiet)
        invariant forall o :: o in pinned ==> o.isStatic
        invariant old(Chains.Acyclic<Actin2>(PlusLinks(world))) ==> Chains.Acyclic<Actin2>(PlusLinks(world))
      {
        assert i in quiet ==> !Registered(pairs[i]) || Pinned(pairs[i]);
        var act := HandlePair(pairs[i], headingOf, now);
        QuietStep(acts, quiet, act);
        acts := acts + [act];
        i := i + 1;
      }
    }

    /**
     * `add`: a new subunit of id `newId` at `pos`, registered unless `pos`
     * overlaps a registered subunit. `added` is the new subunit, or null when none
     * was made.
     */
    method Add(pos: Vector, newId: int, now: int) returns (ghost added: Actin2?)
      requires Valid()
      modifies this, manager.registry
      ensures Valid()
      ensures added == null <==> old(Collides(manager.Actins(), pos))
      ensures added == null ==> world == old(world) && manager.registry.entries == old(manager.registry.entries)
      ensures added != null ==>
        && fresh(added) && added.id == newId && added.pos == pos && added.radius == ACTIN_RADIUS
        && added.IsSingle() && added.state == Created && added.stateChangedAt == now
        && world == old(world) + {added}
        && manager.registry.entries ==
           if newId in old(manager.registry.entries) then old(manager.registry.entries)
           else old(manager.registry.entries)[newId := added]
      ensures manager.registry.keys ==
        if added == null || newId in old(manager.registry.entries) then old(manager.registry.keys)
        else old(manager.registry.keys) + [newId]
    {
      var collides := WillCollide(pos);
      if collides {
        return null;
      }
      var actin := new Actin2(newId, pos, ACTIN_RADIUS, now);
      manager.Register(actin);
      world := world + {actin};
      added := actin;
    }

    /** `willCollide`: whether some registered subunit lies within OVERLAP_DISTANCE of `pos`. */
    method WillCollide(pos: Vector) returns (b: bool)
      requires Valid()
      ensures b == Collides(manager.Actins(), pos)
    {
      var keys := manager.registry.keys;
      var i := 0;
      while i < |keys|
        invariant 0 <= i <= |keys|
        invariant forall j :: 0 <= j < i ==> !Within(manager.registry.entries[keys[j]].pos, pos, OVERLAP_DISTANCE)
      {
        var actin := manager.registry.entries[keys[i]];
        if Within(actin.pos, pos, OVERLAP_DISTANCE) {
          assert actin in manager.Actins();
          return true;
        }
        i := i + 1;
      }
      forall k | k in manager.registry.entries
        ensures !Within(manager.registry.entries[k].pos, pos, OVERLAP_DISTANCE)
      {
        var j :| 0 <= j < |keys| && keys[j] == k;
      }
      return false;
    }

    /**
     * `getCurrentState`: every registered subunit once, in registration order;
     * none of them is Detached.
     */
    method GetCurrentState() returns (r: seq<Actin2>)
      requires Valid()
      ensures r == Listed(manager.registry.keys, manager.registry.entries)
      ensures forall k :: k in manager.registry.entries ==> manager.registry.entries[k] in r
      ensures forall i, j :: 0 <= i < j < |r| ==> r[i] != r[j]
      ensures forall i :: 0 <= i < |r| ==> r[i] in world && r[i].state != Detached
    {
      r := manager.ToArray();
      forall i | 0 <= i < |r|
        ensures r[i] in world && r[i].state != Detached
      {
        var k := manager.registry.keys[i];
        assert k in manager.registry.entries && r[i] == manager.registry.entries[k];
      }
    }

    /**
     * `getCurrentStatistics`: how many registered subunits carry ATP and how many
     * do not, and how many filaments of each length there are, counting every
     * registered subunit without a plus neighbour under the length of its minus
     * chain.
     */
    method GetCurrentStatistics() returns (numberByLength: map<int, int>, numberWithAtp: int, numberWithAdp: int)
      requires Valid() && Chains.Acyclic<Actin2>(MinusLinks(world))
      ensures var all := Listed(manager.registry.keys, manager.registry.entries);
        && numberWithAtp == AtpCount(all)
        && numberWithAtp + numberWithAdp == manager.Length()
        && numberByLength == Histogram(all, MinusLinks(world))
    {
      var all := manager.registry.Values();
      ListedValues(manager.registry.keys, manager.registry.entries, all);
      forall j | 0 <= j < |all|
        ensures all[j] in world && Chains.Terminates<Actin2>(MinusLinks(world), all[j])
      {
        var k := manager.registry.keys[j];
        assert k in manager.registry.entries && all[j] == manager.registry.entries[k];
      }
      numberByLength, numberWithAtp, numberWithAdp := Tally(all, world);
    }
  }

  /**
   * The loop of `getCurrentStatistics` over the subunits `all`: counts those
   * with ATP and those without, and the length of the minus chain from every
   * subunit without a plus neighbour.
   */
  method Tally(all: seq<Actin2>, ghost world: set<Actin2>)
    returns (numberByLength: map<int, int>, numberWithAtp: int, numberWithAdp: int)
    requires Closed(world)
    requires forall j :: 0 <= j < |all| ==> all[j] in world && Chains.Terminates<Actin2>(MinusLinks(world), all[j])
    ensures numberWithAtp == AtpCount(all) && numberWithAtp + numberWithAdp == |all|
    ensures numberByLength == Histogram(all, MinusLinks(world))
  {
    numberByLength := map[];
    numberWithAtp, numberWithAdp := 0, 0;
    var i := 0;
    while i < |all|
      invariant 0 <= i <= |all|
      invariant numberWithAtp == AtpCount(all[..i]) && numberWithAdp == i - numberWithAtp
      invariant numberByLength == Histogram(all[..i], MinusLinks(world))
    {
      var actin := all[i];
      if actin.HasAtp() {
        numberWithAtp := numberWithAtp + 1;
      } else {
        numberWithAdp := numberWithAdp + 1;
      }
      if actin.plus == null {
        var length := actin.Length(world);
        numberByLength := Bump(numberByLength, length);
      }
      CountStep(all, i, MinusLinks(world));
      i := i + 1;
    }
    assert all[..i] == all;
  }

  /** How many subunits of `s` carry ATP. */
  ghost function AtpCount(s: seq<Actin2>): nat
    reads set a | a in s
  {
    if s == [] then 0 else AtpCount(s[..|s| - 1]) + (if s[|s| - 1].HasAtp() then 1 else 0)
  }

  /** How many subunits of `s` have no plus neighbour. */
  ghost function PlusLess(s: seq<Actin2>): nat
    reads set a | a in s
  {
    if s == [] then 0 else PlusLess(s[..|s| - 1]) + (if s[|s| - 1].plus == null then 1 else 0)
  }

  /** How many subunits of `s` have no plus neighbour and a minus chain of `length` subunits. */
  ghost function CountLength(s: seq<Actin2>, m: Chains.Links<Actin2>, length: int): nat
    reads set a | a in s
  {
    if s == [] then 0
    else CountLength(s[..|s| - 1], m, length) +
         (if s[|s| - 1].plus == null && |Chains.Chain<Actin2>(m, s[|s| - 1])| == length then 1 else 0)
  }

  /**
   * The histogram the statistics loop builds over `s`: one count under the
   * minus-chain length of each subunit without a plus neighbour.
   */
  ghost function Histogram(s: seq<Actin2>, m: Chains.Links<Actin2>): map<int, int>
    reads set a | a in s
  {
    if s == [] then map[]
    else
      var h := Histogram(s[..|s| - 1], m);
      var a := s[|s| - 1];
      if a.plus == null then Bump(h, |Chains.Chain<Actin2>(m, a)|) else h
  }

  /** The counts over a prefix of `s`, extended by one subunit. */
  lemma CountStep(s: seq<Actin2>, i: int, m: Chains.Links<Actin2>)
    requires 0 <= i < |s|
    ensures AtpCount(s[..i + 1]) == AtpCount(s[..i]) + (if s[i].HasAtp() then 1 else 0)
    ensures Histogram(s[..i + 1], m) ==
      if s[i].plus == null then Bump(Histogram(s[..i], m), |Chains.Chain<Actin2>(m, s[i])|) else Histogram(s[..i], m)
  {
    assert s[..i + 1][..i] == s[..i];
  }

  /** Every ATP count is at most the number of subunits counted. */
  lemma {:induction false} AtpCountBound(s: seq<Actin2>)
    ensures AtpCount(s) <= |s|
  {
    if s != [] {
      AtpCountBound(s[..|s| - 1]);
    }
  }

  /**
   * The histogram is exact: it holds, under each length, the number of subunits
   * without a plus neighbour whose minus chain has that length, and no key
   * without such a subunit.
   */
  lemma {:induction false} HistogramCounts(s: seq<Actin2>, m: Chains.Links<Actin2>, length: int)
    ensures length in Histogram(s, m) <==> CountLength(s, m, length) > 0
    ensures length in Histogram(s, m) ==> Histogram(s, m)[length] == CountLength(s, m, length)
  {
    if s != [] {
      HistogramCounts(s[..|s| - 1], m, length);
    }
  }

  /** The histogram counts every subunit without a plus neighbour exactly once. */
  lemma {:induction false} HistogramTotal(s: seq<Actin2>, m: Chains.Links<Actin2>)
    ensures Total(Histogram(s, m)) == PlusLess(s)
  {
    if s != [] {
      HistogramTotal(s[..|s| - 1], m);
      var a := s[|s| - 1];
      if a.plus == null {
        BumpTotal(Histogram(s[..|s| - 1], m), |Chains.Chain<Actin2>(m, a)|);
      }
    }
  }
}
