# Actin filament simulation: the filament graph and its per-tick bookkeeping

This project models, in Dafny, the core of the actin-filament simulator. Actin subunits are
free-floating bodies. Each subunit carries ATP for some time after it is created. Colliding
subunits pair up into dimers, and further subunits grow filaments by attaching to them. The ends
of a filament break off again after a while.

There are two engines.

- **The second engine** (`Actin2`, `ActinManager2`, `ActinSimulation2`) is modelled with its
  effects.
  - A subunit is an object with a five-state lifecycle (Created, Activated, Attached,
    Deactivated, Detached).
  - It has two nullable neighbour references, `plus` and `minus`, which form doubly linked
    chains.
  - Each tick, the engine walks every filament from its plus end along the `minus` links. It
    updates each subunit on the way. The update may cut links and queue subunits for removal.
    Only once the walk is over are the queued subunits dropped from the registry.
- **The first engine** (`Actin`, `ActinManager`, `ActinSimulation`) calls subunit methods that its
  own subunit class does not define. So its model returns the calls it makes, in order, instead
  of their effects.

Each registry is a JavaScript `Map`, modelled as the class `JsMaps.JsMap`: an insertion-ordered
key sequence plus an entry map.

Link structure is reasoned about through snapshots. `Chains` defines snapshots of the links,
`map<T, Option<T>>`, and the walk that follows them: a chain, the test for whether a walk ends,
and acyclicity. `MinusLinks(world)` and `PlusLinks(world)` take those snapshots of the live
objects in `world`. `world` is a ghost set holding every subunit the simulation has created, and
it is closed under links.

What the physics engine provides becomes arguments:

- the clock reading `now`;
- the heading `(cos θ, sin θ)` of a body;
- `decay(L)`, standing for `e^(-L/5)`;
- the position a body reports;
- the id of a new body.

Geometry is exact arithmetic on `real` vectors, and distances are compared through their squares.

Properties proved include:

- **The tick only cuts links.** It therefore keeps the world closed and keeps minus and plus chains
  acyclic (`Chains.CutsKeepAcyclic`).
- **Every subunit the tick detaches is queued**, and the registry afterwards is missing exactly the
  queued ids.
- **Each update inside the tick does what `Actin2.Actin2.Update` does** (`Actin2.Updated`). The pass
  returns a log:
  - the heads it let through;
  - the chain prefix it walked from each head;
  - for each subunit walked, its cell (links, state, timestamp) just before and just after its
    update.

  Each logged pair of cells is one update at `now`, as `Actin2.CellUpdated` says. A registered
  subunit that is single, Created or Activated and outside the arena when the tick starts is no
  longer registered when it ends.
- **Collisions carry out their decision.** A pair changes as `makeDimerWith` or
  `attachToIfPossible` says (`Actin2.Dimerized`, `Actin2.Docked`); nothing else changes. Since no
  static body comes loose, a pair that was static before a collision event does nothing in it.
- **The statistics are exact:**
  - ATP and ADP counts add up to the registry size;
  - the histogram counts each plus-less subunit once, under the length of its minus chain;
  - the histogram's values add up to the number of plus-less subunits.
- **The minus-end attach is kept as written.** Attaching at the minus end of a filament sets
  `other.plus = this`, as both branches of `attachToIfPossible` do. When `other` already had a plus
  neighbour, this breaks mutual linkage (`Actin2.LinkedOverwrites`, and the last clause of
  `Actin2.Actin2.AttachToIfPossible`).
- **Collision dispatch is characterised exactly** for both engines.

## Model

| member | source | states |
|---|---|---|
| Actin2.Actin2.constructor | src/Actin2.tsx:70-90 | A new subunit has no neighbours, is not static, and is Created with its timestamp set to `now`. |
| Actin2.Actin2.HasAtp | src/Actin2.tsx:23-36 | A subunit carries ATP exactly when it is Activated or Attached. |
| Actin2.Actin2.IsSingle | src/Actin2.tsx:43-45 | A single subunit is neither a plus end nor a minus end. |
| Actin2.Actin2.IsMinusEnd | src/Actin2.tsx:40-42 | A minus end is not a plus end. |
| Actin2.Actin2.Role | src/Actin2.tsx:37-45 | `isSingle`, `isPlusEnd` and `isMinusEnd` are mutually exclusive. A subunit with both links (interior) satisfies none of them. |
| Actin2.Actin2.Length | src/Actin2.tsx:52-60 | `length` is the number of subunits on the minus chain from this one, itself included. That is at least 1, and the walk ends whenever the chain does. |
| Actin2.Actin2.LengthInverse | src/Actin2.tsx:61-69 | `lengthInverse` is the number of subunits on the plus chain from this one, itself included, so at least 1. |
| Actin2.Actin2.Update | src/Actin2.tsx:92-116 | Created or Activated: the timed transition (Created older than 3000 becomes Activated), then the subunit is queued only when it lies beyond 500, with its links left alone. Detached: nothing changes. Attached or Deactivated: the timed transition (Attached older than 3000 becomes Deactivated) falls through to the end tasks. In every case links are only cut, and every subunit that becomes Detached is queued. Its own cell changes as `Actin2.CellUpdated` says. |
| Actin2.Actin2.UpdateUnbound | src/Actin2.tsx:94-103 | The Created/Activated cases, including the fall-through from Created into Activated. The state remains Created or Activated, and the subunit is queued only when it is out of bounds. |
| Actin2.Actin2.UpdateBound | src/Actin2.tsx:104-114 | The Attached/Deactivated cases, including the fall-through from Attached: the timed transition, then the end tasks. |
| Actin2.Actin2.HandleEnd | src/Actin2.tsx:108-114 | Only a plus end or a minus end runs its detachment test. An interior or single subunit leaves its links, its neighbours and the queue untouched. |
| Actin2.Actin2.HandlePlusEndTasks | src/Actin2.tsx:136-156 | The test uses `length` and base 5000. When due: a chain of two breaks up into two Detached singles, both queued, this one first. In a longer chain, only this end is cut off on both sides, made Detached and queued; its neighbour's timestamp is reset only if that neighbour was Deactivated. When not due, nothing changes. |
| Actin2.Actin2.HandleMinusEndTasks | src/Actin2.tsx:158-178 | The same, with `lengthInverse` and base 2000. |
| Actin2.Actin2.BreakDimer | src/Actin2.tsx:180-186 | All four links are cleared. Both subunits are queued, this one first, and both become Detached at `now`. |
| Actin2.Actin2.ChangeStateTo | src/Actin2.tsx:131-134 | Sets the state and stamps it with `now`. |
| Actin2.Actin2.ForEach | src/Actin2.tsx:188-195 | Visits exactly the minus chain from this subunit, in order, starting with itself. |
| Actin2.DimerDock | src/Actin2.tsx:219-225 | The partner is ahead exactly when the alignment exceeds 0.9, and behind exactly when it is below -0.9. |
| Actin2.Actin2.MakeDimerWith | src/Actin2.tsx:218-255 | Ahead: `this.plus = other`, `other.minus = this`. Behind: `other.plus = this`, `this.minus = other`. A blocked docking target in either linking branch changes nothing. In all other cases, including a partner aside, both subunits become Attached at `now` and static, with or without a link. For two singles it keeps mutual linkage and acyclicity of both chains. |
| Actin2.Actin2.AttachToIfPossible | src/Actin2.tsx:257-293 | An interior `other`, or a blocked target, changes nothing. Otherwise, in both branches, `this.minus = other` and `other.plus = this`, and this subunit becomes Attached and static at the docking position. For a single `this`: the plus chains stay acyclic, and so do the minus chains as long as linkage was mutual. Mutual linkage survives when `other.plus` was null. An attach to a minus end under mutual linkage breaks it: this is the minus-branch overwrite. |
| Actin2.EndTasksStates | src/Actin2.tsx:136-186 | The end tasks change a neighbour's state only by making it Detached. |
| Actin2.LinkedOverwrites | src/Actin2.tsx:274-290 | Writing `other.plus = this` over a different live plus neighbour breaks mutual linkage. |
| Actin2.LinkedMutual | src/Actin2.tsx:287-290 | Linking a plus-less subunit to a minus-less one keeps mutual linkage. |
| Actin2.LinkedAcyclic | src/Actin2.tsx:287-290 | A new link keeps a chain acyclic unless its target already reaches its source. |
| Actin2.OffMinusChains | src/Actin2.tsx:262-273 | Under mutual linkage, a subunit without a plus neighbour lies on no other subunit's minus chain. So the plus-end attach cannot close a minus cycle. |
| Actin2.LinksKeptOrCut | src/Actin2.tsx:136-186 | A step that only cuts links keeps the world closed, and each link snapshot is a cut of the one before. |
| Chains.CutsKeepAcyclic | src/Actin2.tsx:52-69 | Cutting links never creates a cycle, so every chain walk that used to end still ends. |
| Chains.ChainDistinct | src/Actin2.tsx:52-60 | A chain that ends visits no subunit twice. |
| Chains.ChainStep | src/Actin2.tsx:55-58 | Following `minus` from the n-th element of a chain leads to the (n+1)-th; the chain ends exactly where the link is null. |
| Chains.CutTerminates | src/Actin2.tsx:188-195 | A walk that ended before some links were cut still ends. |
| ActinManager2.ActinManager2.constructor | src/ActinManager2.tsx:4-5 | A new manager has an empty, well-formed registry. |
| ActinManager2.ActinManager2.Register | src/ActinManager2.tsx:7-11 | A taken id leaves entries and key order unchanged. A new id is added at the end of the key order. |
| ActinManager2.ActinManager2.Retrieve | src/ActinManager2.tsx:13-15 | Returns the entry stored under the body id, or nothing exactly when the id is absent. |
| ActinManager2.ActinManager2.Remove | src/ActinManager2.tsx:17-21 | Afterwards the id is absent. Every other entry is kept and the key order is otherwise unchanged. |
| ActinManager2.ActinManager2.Length | src/ActinManager2.tsx:23-25 | The number of registered ids. |
| ActinManager2.ActinManager2.ToArray | src/ActinManager2.tsx:27-31 | Every registered subunit exactly once, in insertion order, so its size is `length`. |
| ActinManager2.ActinManager2.ForEachFilament | src/ActinManager2.tsx:33-39 | Visits, in insertion order, every registered subunit that is single or a plus end, each once, and no other. |
| ActinManager2.HeadsMembers | src/ActinManager2.tsx:33-39 | Something is visited exactly when it is registered and is single or a plus end; interior subunits and minus ends never are. |
| ActinManager2.HeadsDistinct | src/ActinManager2.tsx:33-39 | Over a sequence without repeats, each head is visited once. |
| ActinSimulation2.Decide | src/ActinSimulation2.tsx:76-93 | Both registered, not both static, both eligible (single with ATP): A dimerizes with B. Exactly one eligible and the other not single: the eligible one attaches to the other. Otherwise nothing. |
| ActinSimulation2.DecideMirror | src/ActinSimulation2.tsx:81-93 | Swapping the bodies of a pair swaps the roles in the decision. |
| ActinSimulation2.DecideSingle | src/ActinSimulation2.tsx:81-93 | A dimerizing pair consists of two singles. An attaching subunit is single and its target is not. |
| ActinSimulation2.Perform | src/ActinSimulation2.tsx:83-92 | The chosen action only: `makeDimerWith` from A with A's heading, or `attachToIfPossible` from the eligible subunit with the heading of the other. Only the pair changes, neither becomes Detached and neither comes loose. |
| ActinSimulation2.ActinSimulation2.HandlePair | src/ActinSimulation2.tsx:76-93 | Carries out the decision for one pair. An unregistered pair, or one whose bodies are both static, changes nothing. A dimerizing pair changes as `Actin2.Dimerized` says, with the heading of body A. An attaching subunit changes as `Actin2.Docked` says, with the heading of the subunit it attaches to. No other subunit changes, no static body comes loose, and the plus chains stay acyclic. |
| ActinSimulation2.ActinSimulation2.HandleCollision | src/ActinSimulation2.tsx:75-96 | One decision per pair. An unregistered pair takes no action. Because `setStatic` is only ever called with `true`, a pair whose bodies were both static before the first pair takes no action either. The registry stays well formed and the plus chains stay acyclic. |
| ActinSimulation2.UpdateOne | src/ActinSimulation2.tsx:105-106 | One `update` inside the tick does what `Actin2.Actin2.Update` does, stated by the same predicate `Actin2.Updated`: the timed transition, the arena exit of a free subunit and the end tasks of a bound one. The change it returns is the subunit's cell before and after, related by `Actin2.CellUpdated`. The tick's bookkeeping is kept: links only cut, the world closed, every newly Detached subunit queued, and a free subunit free or Detached. |
| ActinSimulation2.UpdateNext | src/Actin2.tsx:188-195 | One step of `forEach` inside the tick. It updates the subunit (its recorded change is its cell before and after, related by `Actin2.CellUpdated`), then reads its minus link. A live link is the next subunit of the chain the tick began with. |
| ActinSimulation2.UpdateFilament | src/ActinSimulation2.tsx:113-115 | A non-single head is updated along its minus chain. The subunits visited form a prefix of the chain the tick began with, starting at the head and ending at the first link that is null by then. Each visited subunit has one recorded change that is an update at `now` (`Actin2.CellUpdated`). The first change starts from the head's cell on entry, and the last ends at the last subunit's current cell. |
| ActinSimulation2.Visit | src/ActinSimulation2.tsx:104-116 | One subunit the pass reaches. If it is not single and not a plus end, nothing changes and its plus link at the start of the pass was not cut. Otherwise it is updated along a walk of its minus chain, with one change per subunit walked, each an update at `now`, and the first starting from its own cell. A subunit escaping when the pass began is queued. |
| ActinSimulation2.Sweep | src/ActinSimulation2.tsx:104-116 | The pass over a sequence of subunits, in order, with its whole log. The heads are exactly the subunits whose plus link is null when they are reached, in increasing order. Each head's walk is a prefix of its minus chain at the start, and each subunit walked has one logged change that is an update at `now`. Every subunit that is escaping at the start is queued. |
| ActinSimulation2.Advance | src/ActinSimulation2.tsx:104-116 | One step of the pass extends its log by the subunit reached, and queues that subunit if it was escaping. |
| ActinSimulation2.HeadsLogStep | src/ActinSimulation2.tsx:104-106 | The head list grows exactly by the index reached when that subunit's plus link is null, and keeps its order. |
| ActinSimulation2.CellsLogStep | src/ActinSimulation2.tsx:104-106 | A head's walk and its changes extend the log; every logged change remains an update at `now`. |
| ActinSimulation2.ActinSimulation2.Pass | src/ActinSimulation2.tsx:103-117 | The pass runs `Sweep` over the registered subunits in insertion order and returns its complete log, including one update at `now` per subunit walked. A registered subunit that is single, free and outside the arena when the pass begins is queued. The registry is outside its frame, so no entry is deleted during the pass. |
| ActinSimulation2.ActinSimulation2.RemoveAll | src/ActinSimulation2.tsx:118-120 | Afterwards the registry lacks exactly the queued ids; a subunit queued twice is removed once. The key order is the old one with the queued ids filtered out (`JsMaps.WithoutAll`), so the survivors keep their order. |
| ActinSimulation2.IdsStep | src/ActinSimulation2.tsx:118-120 | The ids removed after one more queued subunit are those before it plus its id. |
| ActinSimulation2.ActinSimulation2.Precede | src/ActinSimulation2.tsx:102-122 | The pass first, then the removal of the queued subunits. Afterwards the registry lacks exactly the queued ids, the surviving ids keep their insertion order, and none of the remaining subunits is Detached. A registered subunit that was single, Created or Activated and beyond 500 when the tick started is no longer registered. Links were only cut. The pass's log over the registry is returned, including one update at `now` per subunit walked. |
| ActinSimulation2.CutSinceCuts | src/ActinSimulation2.tsx:104-117 | The tick's bookkeeping of links says exactly that the current link snapshots are cuts of those the tick began with. |
| ActinSimulation2.ActinSimulation2.constructor | src/ActinSimulation2.tsx:18-20 | A new simulation has an empty registry and an empty world. The initial population and the spawn timer are left out. |
| ActinSimulation2.ActinSimulation2.WillCollide | src/ActinSimulation2.tsx:130-139 | True exactly when some registered subunit lies within 1.8 * ACTIN_RADIUS of the position. |
| ActinSimulation2.ActinSimulation2.Add | src/ActinSimulation2.tsx:124-128 | A colliding position creates nothing, and the world, entries and key order are unchanged. Otherwise it creates a new Created single subunit. The subunit is registered, with its id appended to the key order, unless its id is already taken; in that case the entries and the key order are unchanged. |
| ActinSimulation2.ActinSimulation2.GetCurrentState | src/ActinSimulation2.tsx:40-42 | Every registered subunit once, in insertion order, none of them Detached. |
| ActinSimulation2.ActinSimulation2.GetCurrentStatistics | src/ActinSimulation2.tsx:44-73 | The ATP count is that of the registry, ATP plus ADP is the registry size, and the histogram is that of the registry. |
| ActinSimulation2.Tally | src/ActinSimulation2.tsx:48-66 | The counting loop, including the chain-walk loop, computes exactly these counts. |
| ActinSimulation2.CountStep | src/ActinSimulation2.tsx:48-66 | One more subunit adds 1 to the ATP count if it carries ATP. If it has no plus neighbour, it adds 1 to the histogram under the length of its minus chain. |
| ActinSimulation2.AtpCountBound | src/ActinSimulation2.tsx:48-53 | The ATP count never exceeds the number of subunits, so the ADP count is never negative. |
| ActinSimulation2.HistogramCounts | src/ActinSimulation2.tsx:54-66 | A length is a key exactly when some plus-less subunit has a chain of that length, and its value is the number of them. |
| ActinSimulation2.HistogramTotal | src/ActinSimulation2.tsx:54-66 | The histogram's values add up to the number of plus-less subunits. |
| Histograms.Bump | src/ActinSimulation2.tsx:61-65 | Adds 1 at the key, starting from 0 when the key is absent; no other key changes. |
| Histograms.BumpTotal | src/ActinSimulation2.tsx:61-65 | A bump adds exactly 1 to the sum of the values. |
| JsMaps.JsMap.Has | src/ActinManager2.tsx:8 | `Map.has` holds exactly for the keys of the insertion order. |
| JsMaps.JsMap.Get | src/ActinManager2.tsx:14 | `Map.get` returns the stored value exactly when `has` holds, and nothing (`undefined`) otherwise. |
| JsMaps.JsMap.Size | src/ActinManager2.tsx:24 | `Map.size` is the number of entries. |
| JsMaps.JsMap.Set | src/ActinManager2.tsx:9 | `Map.set` replaces the value; a new key goes to the end of the key order. |
| JsMaps.JsMap.Delete | src/ActinManager2.tsx:19 | `Map.delete` removes the key from the entries and from the key order and keeps the rest. |
| JsMaps.JsMap.Values | src/ActinManager2.tsx:28-30 | The values in key insertion order. |
| JsMaps.WithoutDistinct | src/ActinManager2.tsx:17-21 | Deleting a key keeps the key order free of repeats. |
| JsMaps.WithoutAllStep | src/ActinSimulation2.tsx:118-120 | Deleting the keys one at a time is filtering the key order by the whole set: one more `Map.delete` is one more key filtered out. |
| Actin.Actin.constructor | src/Actin.tsx:12-16 | A new first-engine subunit sits at the given position, carries ATP and has no neighbours. |
| ActinManager.ActinManager.constructor | src/ActinManager.tsx:11-15 | Registers the given subunits in turn. |
| ActinManager.FirstWins | src/ActinManager.tsx:11-15 | After the constructor, an id is registered exactly when some subunit of the list had it, and it maps to the first such subunit. |
| ActinManager.OrderKeys | src/ActinManager.tsx:11-15 | The key order lists every registered id once. |
| ActinManager.OrderFollowsList | src/ActinManager.tsx:11-15 | Ids are ordered by the first appearance of their subunits in the list. |
| ActinManager.ActinManager.ActinMap | src/ActinManager.tsx:7-9 | Returns the registry's own map object, an alias, so a change through it is a change of the registry. |
| ActinManager.ActinManager.Register | src/ActinManager.tsx:17-21 | A taken id leaves the registry unchanged; a new id is added at the end. |
| ActinManager.ActinManager.Retrieve | src/ActinManager.tsx:23-25 | The entry stored under the body id, or nothing exactly when it is absent. |
| ActinManager.ActinManager.Remove | src/ActinManager.tsx:27-31 | Afterwards the id is absent and every other entry is kept. |
| ActinManager.ActinManager.Length | src/ActinManager.tsx:33-35 | The number of registered ids. |
| ActinManager.ActinManager.ToArray | src/ActinManager.tsx:37-41 | Every registered subunit exactly once, in insertion order. |
| ActinSimulation.Dispatch | src/ActinSimulation.tsx:112-120 | Both eligible: dimerize. Only A eligible: A attaches to B, single or not. Only B eligible: B attaches to A. Neither: no call. There is no static-pair skip. |
| ActinSimulation.DispatchMirror | src/ActinSimulation.tsx:112-120 | Swapping the bodies of a pair changes nothing except which subunit is asked to dimerize. |
| ActinSimulation.DispatchAllCalls | src/ActinSimulation.tsx:106-123 | Pairs without two registered subunits make no call. Each call is a dimerize or an attach made by an eligible registered subunit, with at most one call per pair. |
| ActinSimulation.ActinSimulation.HandleCollision | src/ActinSimulation.tsx:106-123 | The calls are those of the pairs in order, against the registry. |
| ActinSimulation.PrecedeLogCalls | src/ActinSimulation.tsx:74-78 | Every registered subunit is updated. Exactly those beyond 500 are detached, each right after its own update, inside the pass. |
| ActinSimulation.Pass | src/ActinSimulation.tsx:74-78 | Each subunit takes the position of its body, and the calls made are logged. No other subunit moves. |
| ActinSimulation.ActinSimulation.Precede | src/ActinSimulation.tsx:73-104 | The pass over the registry in insertion order. Each registered subunit ends up at its body's position, and the registry is unchanged. |
| ActinSimulation.ActinSimulation.constructor | src/ActinSimulation.tsx:29-31 | A new first-engine simulation has an empty registry and an empty world. The walls and the initial population are left out. |
| ActinSimulation.ActinSimulation.Add | src/ActinSimulation.tsx:160-162 | Always creates a subunit with ATP and no neighbours; there is no overlap check. It is registered, with its id appended to the key order, unless its id is taken; then the entries and the key order are unchanged. |
| ActinSimulation.ActinSimulation.GetCurrentState | src/ActinSimulation.tsx:125-127 | Every registered subunit once, in insertion order. |
| ActinSimulation.ActinSimulation.GetCurrentStatistics | src/ActinSimulation.tsx:129-158 | The ATP count is that of the registry, ATP plus ADP is the registry size, and the histogram is that of the registry. |
| ActinSimulation.Tally | src/ActinSimulation.tsx:133-151 | The counting loop, including the chain-walk loop, computes exactly these counts. |
| ActinSimulation.CountStep | src/ActinSimulation.tsx:133-151 | One more subunit adds 1 to the ATP count if it has ATP, and, if it has no plus neighbour, 1 under its chain length. |
| ActinSimulation.AtpCountBound | src/ActinSimulation.tsx:133-138 | The ATP count never exceeds the number of subunits. |
| ActinSimulation.HistogramCounts | src/ActinSimulation.tsx:139-151 | A length is a key exactly when some plus-less subunit has a chain of that length, and its value is their number. |
| ActinSimulation.HistogramTotal | src/ActinSimulation.tsx:139-151 | The histogram's values add up to the number of plus-less subunits. |

## Left out

- Physics: everything matter-js does is left out. That covers creating and removing bodies, `Engine.update`, forces, `setVelocity` and `setAngle`. Only a body's position and its static flag are kept, as fields.
- Random and steering forces: `applyRandomForce`, `moveForwardIfValid`, and the plus-end steering loop of the first engine (src/ActinSimulation.tsx:78-100). They are floating-point force computations driven by `Math.random`.
- Real-valued geometry: `cos`, `sin` and `exp` are not modelled. A body's heading and `e^(-L/5)` are arguments, and distances are compared as squares of exact `real` values, so floating-point rounding is not captured.
- The clock: `Date.now()` is the argument `now`. Within one operation it reads the same value every time.
- Spawning: the timers, the initial population, the random spawn radius and the walls of the first engine (the two constructors) are not modelled. Both simulations start empty.
- User interface: the interface files and the `IActin`/`IStatistics` shapes are not part of this model.
- src/Actin.tsx is not part of this model beyond what the first engine uses. `update` copies the body's position, and a new subunit carries ATP.
- First engine, undefined members: `id`, `plus`, `minus` and `isSingle()` are not defined in src/Actin.tsx. They take the second engine's meaning.
- ActinSimulation.ActinSimulation.Add: src/ActinSimulation.tsx:161 calls `new Actin(pos, ACTIN_RADIUS, this.engine, this)`, but the constructor at src/Actin.tsx:16 takes `(pos, engine)`. The radius therefore lands in `engine`, and `World.add(engine.world, …)` receives no world. The model creates the subunit at `pos` and reads no argument beyond it. The body and its world are left out.
- Actin.Actin.constructor: does not model the misplaced engine argument described for `ActinSimulation.ActinSimulation.Add`.
- First engine, undefined methods: `detach`, `makeDimerWith` and `attachToIfPossible` have no definition either. The model records these calls and does not perform them, so the effect of one collision pair is not seen by later pairs of the same event.
- Chain walks on a cycle: the source loops forever when a minus chain (or a plus chain) has a cycle. So every operation that walks one requires the chains it walks to end, or the snapshots to be acyclic. That covers `length`, `forEach`, the tick and the statistics.
- Minus acyclicity between ticks: not proved here. `Actin2.Actin2.AttachToIfPossible` keeps minus chains acyclic only when `other.minus` was null or linkage was mutual. A minus-end attach overwrites a live plus link and so breaks mutual linkage. The auxiliary invariant that would close the gap (no live single subunit has an incoming link) is not stated.
- ActinSimulation2.ActinSimulation2.Precede: the tick requires both link snapshots to be acyclic. It does not ensure acyclicity afterwards; that follows from its Progress clause by `Chains.CutsKeepAcyclic`.
- ActinSimulation2.ActinSimulation2.HandleCollision: it states one decision per pair, the pairs that cannot act, and the preservation of plus-chain acyclicity. It does not restate each pair's effect, because a later pair sees the state left by earlier pairs; `HandlePair` states that effect for one pair. It does not establish the minus-chain acyclicity that `Precede` requires, so no contract chains a collision step into a tick.
- ActinSimulation2.Sweep: each logged change states the subunit's own cell by `Actin2.CellUpdated`, which is weaker than `Actin2.Updated`. It leaves out the neighbours' cells and the arena test. For an end subunit, it also leaves out which outcome the detachment test, with its chain length, picked. Only `UpdateOne` states all of that, one update at a time. The log does not chain the changes either. A change's "before" cell is tied to a real cell only for a head, where it is the head's cell when the pass reaches it.
- ActinSimulation2.UpdateFilament: the same gap as `Sweep`. The changes are tied to real cells only at the head, on entry, and at the last subunit visited.
- ActinSimulation2.Visit: the same gap as `Sweep`.
- ActinSimulation2.ActinSimulation2.Pass: the same gap as `Sweep`.
- ActinSimulation2.ActinSimulation2.Precede: the same gap as `Sweep`.
- ActinSimulation2.ActinSimulation2.HandlePair: it requires the two bodies of a pair to differ, which the physics engine guarantees.
- `getRadius` of the first engine returns the constant radius 3. It is kept only as the constant `ActinSimulation.ACTIN_RADIUS`.
- Histogram key order: the histogram is a `map`, so the insertion order of its keys is not kept.
- Statistics: the two engines' statistics are defined separately over their two subunit classes, as the source duplicates them.
