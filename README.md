# proximity-spread, modelled in Dafny

proximity-spread is a three.js demo. It lays out a cubic lattice of cubes ("people"). It then
links every cube to the cubes closer to it than 3 units (its `closeProx` list). Clicking a cube
starts a colour tween. When a tween completes, it starts the tween of every neighbour whose
`tweenDone` flag is not yet set, so the colour change spreads through the lattice.

This project models the logic of `src/index.js` that does not depend on the renderer:

- `Lattice.dfy`: the cells the triple loop of `addItems` visits, in order, and the index
  arithmetic that maps a cell to its place in `people`. It also holds the jittered position of
  each cube and the "closer than 3" relation between positions.
- `Proximity.dfy`: the `closeProx` list that `checkProximity` builds for one entity, stated as a
  function (`Neighbourhood`) with its properties: exact membership, increasing order, no self
  loop and symmetry. It also defines paths along `closeProx` edges and reachability.
- `Cascade.dfy`: the state of one colour tween (`Idle`, `Requested`, `Running`, `Completed`),
  a termination measure (`Pending`), and the neighbours that `onComplete` starts (`Untriggered`,
  `Marked`).
- `World.dfy` (module `Spread`): the module-level state of `index.js` as a class `World`. Its
  fields are the positions, the `closeProx` lists, the `tweenDone` flags, the tween states and
  a log of `colorTween.start()` calls. Its methods are `addItems`, `checkProximity`, the click
  handler and the two tween callbacks, with the loops of the source.

Entities are indices into `people`, and `closeProx` holds indices. Positions are exact reals.
`distanceTo(p, q) < 3` is modelled as "the squared distance is below 9", which is the same test
on exact numbers. The `Math.random()` draws are a parameter (`jitter`) of `AddItems`.

tween.js runs `onStart` on the first update after `start()`, not inside `start()`. So the model
has separate events: `RequestStart` (the `start()` call), `OnStart` and `OnComplete`. The
environment may fire a callback only when the tween library would: `OnStart` on a `Requested`
tween, `OnComplete` on a `Running` one.

The class invariant `World.Valid` says five things:
- the lists line up;
- every `closeProx` entry names an entity;
- `tweenDone` is set exactly when `onStart` has run;
- every logged `colorTween.start()` call was made on an entity whose tween has left `Idle`;
- every tween that was ever started belongs to an entity reachable along `closeProx` edges from
  an entity the user clicked.

Together the last two give `World.StartReachable`: every `start()` call in the log, whether made by
a click or by `onComplete`, targets an entity reachable from a clicked one.

The constructor establishes `Valid`, and `AddItems`, `CheckProximity`, `Click`, `RequestStart`,
`OnStart`, `OnComplete`, `StartNeighbours` and `StartIfUntriggered` require and keep it. The
helpers of the `addItems` loop (`Push`, `PushLine`, `PushSlab`, `PushLattice`) are specified by
the loop state `Grown` instead, and those of the `checkProximity` loop (`CollectNeighbours`,
`AppendIfClose`) by the exact new `closeProx`; `AddItems` and `CheckProximity` re-establish
`Valid` around them.

Termination of the spreading follows from the `Pending` measure. It counts callbacks that can
still run: 2 per idle or requested tween, 1 per running one, 0 per completed one. `OnStart` and
`OnComplete` lower it by exactly one. `Click` and `RequestStart` leave it unchanged.
`PendingBound` shows it never exceeds `2 * |people|`. So at most `2 * |people|` callbacks run
after any number of clicks.

## Model

| member | source | states |
|---|---|---|
| Lattice.GridIndexOf | src/index.js:58-102 | for even n, the cube of cell (x, y, z) is pushed at index ((x+n/2)*n + (y+n/2))*n + (z+n/2), one of the n³ indices |
| Lattice.GridCellAt | src/index.js:58-102 | every index below n³ holds a cell inside the lattice, and the index formula maps that cell back to the index |
| Lattice.ExtentPeople | src/index.js:58-61 | with the source's n = 8 (even) the triple loop creates 512 cubes |
| Lattice.GridDistinct | src/index.js:59-61 | distinct passes of the triple loop visit distinct cells, so each cell gets exactly one cube |
| Lattice.CloseSymmetric | src/index.js:116-117 | the "closer than 3" test gives the same answer in both directions |
| Lattice.CloseCellsAdjacent | src/index.js:62-72 | with jitter below half a cube, two cubes closer than 3 sit in cells at most one step apart on every axis |
| Proximity.SplicedIds | src/index.js:113-114 | the copy of people with position i spliced out has one entry fewer, and its j-th entry is entity j below i and entity j+1 from i on |
| Proximity.NearBelowNext | src/index.js:115-119 | one pass of the inner loop extends the neighbours found so far by the next other entity exactly when it is close |
| Proximity.NeighbourhoodExact | src/index.js:111-121 | closeProx of i holds exactly the entities j ≠ i closer than 3, in increasing index order, so each at most once |
| Proximity.IncreasingUnique | src/index.js:115-119 | two increasing lists with the same members are equal, so membership and order determine closeProx completely |
| Proximity.NeighbourhoodIrreflexive | src/index.js:113-114 | no entity is in its own closeProx |
| Proximity.NeighbourhoodSymmetric | src/index.js:116-117 | j is in closeProx of i exactly when i is in closeProx of j |
| Proximity.NeighboursAdjacent | src/index.js:69-118 | on the lattice built by addItems, every member of closeProx of i is another entity whose cell differs from the cell of i and is at most one step away on every axis, i.e. one of the 26 cells around it |
| Proximity.ReachableSelf | src/index.js:164-165 | a clicked entity is reachable from itself |
| Proximity.ReachableStep | src/index.js:89-91 | following one closeProx edge from a reachable entity reaches the neighbour |
| Proximity.ReachableGrows | src/index.js:118 | appending to closeProx lists keeps every reachable entity reachable |
| Cascade.PendingBound | src/index.js:78-97 | at most two callbacks per entity can still run |
| Cascade.PendingUpdate | src/index.js:81-97 | changing one tween's state changes the measure by the difference of the two weights |
| Cascade.UntriggeredMembers | src/index.js:89-95 | onComplete starts an entity exactly when it is in closeProx and its tweenDone is unset |
| Cascade.MarkedAt | src/index.js:89-95 | after onComplete's loop, exactly the listed entities with tweenDone unset are requested, and every other tween is unchanged |
| Cascade.PendingMarked | src/index.js:89-95 | requesting tweens that were idle or already requested leaves the measure unchanged |
| Cascade.UntriggeredStep | src/index.js:89-91 | one pass of onComplete's loop adds the next entry to the start log exactly when its tweenDone is unset |
| Cascade.MarkedStep | src/index.js:89-91 | one pass of onComplete's loop requests the next entry exactly when its tweenDone is unset |
| Spread.TracedEvery | src/index.js:89-95 | the entity-by-entity reachability invariant holds exactly when every started entity is reachable from a clicked one |
| Spread.TracedGrows | src/index.js:118 | adding edges, clicked entities or idle entities keeps every started entity reachable from a clicked one |
| Spread.TracedStart | src/index.js:91 | starting the tween of an entity that is reachable from a clicked one keeps the reachability invariant |
| Spread.AppendBounded | src/index.js:118 | appending entity indices to one closeProx list keeps every entry a valid index |
| Cascade.LoggedEvery | src/index.js:91 | the entry-by-entry start-log invariant holds exactly when every logged start() names an entity whose tween has left Idle |
| Cascade.LoggedAppend | src/index.js:91 | logging start() on an entity whose tween has left Idle keeps the log invariant |
| Cascade.LoggedGrows | src/index.js:81-97 | tweens never return to Idle, so the log invariant survives onStart, onComplete and further starts |
| Spread.World.StartReachable | src/index.js:89-95 | every start() call in the log, from a click or from onComplete, targets an entity reachable along closeProx edges from a clicked entity |
| Spread.World.constructor | src/index.js:9 | people starts empty, with nothing started and nothing clicked |
| Spread.World.Push | src/index.js:61-102 | one pass of the triple loop pushes the cube of the next cell at its position, with an empty closeProx, tweenDone unset and an idle tween |
| Spread.World.PushLine | src/index.js:61-104 | the z loop pushes the n cubes of one (x, y) line in order |
| Spread.World.PushLattice | src/index.js:59-106 | the x loop pushes all n³ cubes in loop order |
| Spread.World.PushSlab | src/index.js:60-105 | the y loop pushes the n² cubes of one x slab in order |
| Spread.World.AddItems | src/index.js:56-109 | people holds one cube per lattice cell in loop order, each at its jittered position, with tweenDone unset and an idle tween, and closeProx of every entity is its Neighbourhood |
| Spread.World.CheckProximity | src/index.js:111-122 | every closeProx list gets its Neighbourhood appended and nothing else changes (positions, people and tweens are outside its frame) |
| Spread.World.CollectNeighbours | src/index.js:113-120 | the inner loop appends exactly the Neighbourhood of i to closeProx of i and leaves the other lists alone |
| Spread.World.AppendIfClose | src/index.js:116-119 | closeProx of i gains the other entity exactly when the two are closer than 3 |
| Spread.World.RequestStart | src/index.js:91 | colorTween.start() on an entity whose tweenDone is unset requests its tween and logs the start, without changing the measure |
| Spread.World.Click | src/index.js:161-166 | a hit on a person whose tweenDone is unset starts its tween; a miss, a hit on another object or on a person already done changes nothing |
| Spread.World.OnStart | src/index.js:81-83 | tweenDone goes from unset to set, the tween runs, and the measure drops by one |
| Spread.World.OnComplete | src/index.js:84-97 | the start log grows by the closeProx members with tweenDone unset, in list order; exactly those are requested; the measure drops by one |
| Spread.World.StartNeighbours | src/index.js:85-96 | the loop of onComplete leaves the start log and the tween states described by Untriggered and Marked |
| Spread.World.StartIfUntriggered | src/index.js:90-94 | one pass of that loop starts the m-th neighbour exactly when its tweenDone is unset |

## Left out

- The renderer, scene, fog, camera, orbit controls, stats overlay and lights (src/index.js:11-53, 124-148) are rendering on top of three.js.
- The animation frame loop and window resizing (src/index.js:173-188) are browser event handling. `TWEEN.update` is the environment that fires `OnStart` and `OnComplete`.
- The mouse-to-screen conversion and raycasting (src/index.js:150-159) are left to three.js. Only their result is modelled, as a `Pick`: a miss, a person, or another object without a colour tween.
- `Math.random()` (src/index.js:69-71) is the `jitter` parameter of `AddItems`. `Lattice.JitterInRange` states the range of the draws.
- Floating point: positions and distances are exact reals, so rounding near a distance of exactly 3 is not modelled.
- Cube geometry, materials, colours, shadows, easing and the 1000 ms duration (src/index.js:62-80) are drawing details. Only the start, onStart and onComplete events of a tween are modelled.
- `console.log` (src/index.js:163) is output.
- Spread.World.AddItems: takes the lattice size n as a parameter and requires it to be even. The source fixes n = 8 (`Lattice.Extent`), which gives 512 cubes. With odd n the loop variables would be half-integers.
- Spread.World.AddItems: requires people to be empty (with `Valid`, this also means no start() has been logged). In the source, init calls addItems once, on the empty array.
- `scene.add` (src/index.js:103): the scene is only used by rendering and raycasting.
- `World.tweens` records the state of each tween inside tween.js, which the source does not store. A repeated `start()` can only reach a tween whose onStart has not run yet (the guards test tweenDone). Its state stays `Requested` whether tween.js restarts it or ignores the call, so both library behaviours give the same model.
