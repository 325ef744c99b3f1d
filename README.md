# Behavior trees, scene-graph propagation and a render queue, in Dafny

This project models the logic at the centre of a set of small game-engine
exercises and proves what that logic promises.

- **Behavior-tree engine** (`aux6/behavior_tree.cpp`).
  - Model: `behavior_tree.dfy`, `behavior_tree_laws.dfy`, `agents.dfy`.
  - A tree is a value of the `Node` datatype. It has two composites (`Sequence`, `Fallback`) and five leaves: `Move`, `CheckInput`, `MoveFromInput`, `IsNear`, `MoveTowards`.
  - `Evaluate` gives the meaning of one tick as a function of the transform store. The `Tick` methods tick a tree against the registry in place, and each is proved equal to `Evaluate`.
  - Each tick returns the tree with the velocities of its embedded moves overwritten, the way the source overwrites `bt_move.velocity`.
  - The laws module proves:
    - both composites short-circuit;
    - a tick moves only the entity it runs for;
    - the stale embedded velocities never matter.
  - `agents.dfy` builds the three cubes and their trees, as `init` does, and models `update`, which ticks every tree's owner.
- **Scene-graph propagation** (`updateTransforms` in `aux6/engine.cpp`).
  - Model: `scene_graph.dfy`, `matrices.dfy`, `frame_loop.dfy`.
  - A depth-first walk stores `parent * local` into the cached matrix of every node bound to a transform.
  - Matrices are words of elementary factors (translate, rotate about one axis, scale). The product is concatenation, so every equation between products proved here also holds for the real 4x4 product; facts about which words are pure translations are about the words. Pure translations are read back with `Displacement`.
  - The laws proved:
    - the walk writes only `matrix` fields, and only inside the subtree;
    - each node's matrix is the product of the local matrices on its root path;
    - the result depends only on local fields, so the walk is idempotent;
    - with no rotation and unit scale, the world translation is the sum of the positions on the path.
  - `FrameLoop.Frame` is the main loop's body: update, then propagate from the root with the identity matrix.
- **Data model** (`aux5/engine.hpp`), in `engine.dfy`.
  - Datatypes: `Transform`, `Visual`, `Camera`, `SceneNode`, each with its default value.
  - The entity-component registry is a class with one map per component kind. `TryGet` gives `try_get`, and `get` becomes a precondition or the `MissingTransform` abort.
  - `Scene` is a class whose constructor creates the player entity.
- **Containers** (`aux2/containers.hpp`, `aux2/test.cpp`), in `containers.dfy`.
  - `invertir` is `Reverse`.
  - `RenderQueue` is a class over a sequence of draw calls. `Sort` is an insertion sort proved to order by shader and to permute the calls.
  - The unit test's grouping loop is `CheckGrouped`. The test itself is `RenderQueueTest`.

Shared support: `geometry.dfy` (vectors over the reals) and `wrappers.dfy` (`Option`).

Two choices follow the code's own behaviour:

- A `Sequence` with no children returns Success, since its loop never runs. The model does the same (`EmptySequenceSucceeds`).
- Only an empty `Fallback` reads an unassigned status, so only Fallbacks must have children (`WellFormed`).

## Model

| member | source | states |
|---|---|---|
| Geometry.NearMatchesLength | aux6/behavior_tree.cpp:108 | the squared-distance test `Near` holds exactly when the length of the difference, for any non-negative root of the squared distance, is strictly below the threshold |
| Matrices.DisplacementOfProduct | aux6/engine.cpp:172-176 | composing two translation-only words of factors translates by the sum of their offsets; conversely a word is translation-only only if both halves are (a fact about the factor words, not the 4x4 products, where two rotations can cancel) |
| Engine.TryGet | aux6/engine.cpp:167 | `try_get`: its contract states it finds a component exactly for a non-null entity that has one, and then returns that component |
| Engine.NodeFor | aux5/engine.hpp:34 | `SceneGraphNode(e)`: defined by its body (entity `e`, no children, empty name); `SceneGraph.NodeForWritesOnlyItsEntity` proves it binds exactly `e` and that the walk over it writes only `e`'s matrix |
| Engine.Registry.constructor | aux5/engine.hpp:49 | a new registry has no entities and no components |
| Engine.Registry.Create | aux6/behavior_tree.cpp:144 | `create` hands out an entity that is not null and not already alive, adds only it, and attaches no component |
| Engine.Registry.EmplaceTransform | aux6/behavior_tree.cpp:147 | attaching a transform to a live entity that has none adds exactly that entry |
| Engine.Registry.SetPosition | aux6/behavior_tree.cpp:152 | assigning a position through `get` changes only that entity's position |
| Engine.Registry.EmplaceVisual | aux6/behavior_tree.cpp:146 | attaching a visual adds exactly that entry |
| Engine.Registry.EmplaceTree | aux6/behavior_tree.cpp:168 | attaching a behavior tree adds exactly that entry |
| Engine.Scene.constructor | aux5/engine.hpp:48-53 | a new scene's registry holds only the freshly created player, with no components; the root is unbound with no children; the camera is the default (eye (1,1,1), at the origin, up (0,1,0)) |
| BehaviorTree.InputAxes | aux6/behavior_tree.cpp:70-73 | the input vector has zero depth; its horizontal axis is zero iff D and A are pressed alike, its vertical iff W and S are |
| BehaviorTree.MoveBy | aux6/behavior_tree.cpp:57-62 | `BTMove` succeeds iff the entity has a transform, then moves it by velocity times delta; it changes nothing but that position, and without a transform it aborts on that entity and changes nothing |
| BehaviorTree.InputOutcome | aux6/behavior_tree.cpp:69-76 | `BTCheckInput` succeeds iff the input vector is non-zero and fails otherwise |
| BehaviorTree.NearOutcome | aux6/behavior_tree.cpp:104-109 | `BTIsNear` yields a status iff both transforms exist (aborting on its own entity first, then the target); it succeeds iff strictly within distance, and never runs |
| BehaviorTree.Evaluate | aux6/behavior_tree.cpp:11-126 | `BTNode::tick` for every node kind, as a function of the store; defined by its body, with its promises proved by `BehaviorTreeLaws.TickMovesOnlyOwner`, `TickKeepsShape`, `StaleVelocitiesAreIgnored`, `IsNearMeansWithinDistance`, `MoveTowardsDelegates`, `MoveTowardsNeedsBothTransforms`, `MoveFromInputDelegates`, `ConditionsChangeNothing` and `CheckInputMeansSomeAxis` |
| BehaviorTree.SequenceFrom | aux6/behavior_tree.cpp:20-27 | `BTSequence::tick` from one child on; defined by its body, with its promises proved by `BehaviorTreeLaws.SequenceFromStopsAtFirstNonSuccess`, `SequenceSemantics` and `SequenceSucceedsIffAll` against the independent trace `RunChildren` |
| BehaviorTree.FallbackFrom | aux6/behavior_tree.cpp:38-46 | `BTFallback::tick` from one child on; defined by its body, with its promises proved by `BehaviorTreeLaws.FallbackFromStopsAtFirstNonFailure`, `FallbackSemantics` and `FallbackFailsIffAll` |
| BehaviorTree.MoveEntity | aux6/behavior_tree.cpp:57-62 | the in-place move of the registry's transform is what `MoveBy` gives |
| BehaviorTree.Tick | aux6/behavior_tree.cpp:11-126 | ticking any tree against the registry leaves the outcome, the ticked tree and the store that `Evaluate` gives |
| BehaviorTree.TickSequence | aux6/behavior_tree.cpp:20-27 | the early-return loop of `BTSequence::tick` computes what `Evaluate` gives for the sequence |
| BehaviorTree.TickFallback | aux6/behavior_tree.cpp:38-46 | the loop of `BTFallback::tick`, which keeps the last status, computes what `Evaluate` gives for the fallback |
| BehaviorTreeLaws.TickMovesOnlyOwner | aux6/behavior_tree.cpp:58-59 | a tick of any tree on behalf of `e` changes no transform but `e`'s, and of `e`'s only the position |
| BehaviorTreeLaws.TickKeepsShape | aux6/behavior_tree.cpp:124 | a tick changes a tree only in the velocities of its embedded moves |
| BehaviorTreeLaws.SequenceFromStopsAtFirstNonSuccess | aux6/behavior_tree.cpp:21-24 | from any child on, a sequence agrees with the full trace of its children up to the first non-success, which decides the outcome and store, and ticks no later child |
| BehaviorTreeLaws.FallbackFromStopsAtFirstNonFailure | aux6/behavior_tree.cpp:40-45 | the same for a fallback and the first non-failure |
| BehaviorTreeLaws.SequenceSemantics | aux6/behavior_tree.cpp:20-27 | a sequence returns the outcome of its first child that does not succeed (Success if none), with that child's store; children up to it are ticked and later ones are unchanged |
| BehaviorTreeLaws.FallbackSemantics | aux6/behavior_tree.cpp:38-46 | a fallback returns the outcome of its first child that does not fail (the last failure if all fail); children up to it are ticked and later ones are unchanged |
| BehaviorTreeLaws.SequenceSucceedsIffAll | aux6/behavior_tree.cpp:20-27 | a sequence succeeds iff every child, ticked in turn, succeeds |
| BehaviorTreeLaws.FallbackFailsIffAll | aux6/behavior_tree.cpp:38-46 | a non-empty fallback fails iff every child, ticked in turn, fails |
| BehaviorTreeLaws.EmptySequenceSucceeds | aux6/behavior_tree.cpp:26 | a sequence without children succeeds and changes nothing |
| BehaviorTreeLaws.ShapePreservesWellFormed | aux6/behavior_tree.cpp:39-45 | a ticked tree is still tickable: every fallback keeps a child |
| BehaviorTreeLaws.StaleVelocitiesAreIgnored | aux6/behavior_tree.cpp:83-91 | the outcome and store of a tick do not depend on the velocities earlier ticks left in the embedded moves |
| BehaviorTreeLaws.MoveComposes | aux6/behavior_tree.cpp:59 | two moves with the same velocity in a row equal one move over the summed time step |
| BehaviorTreeLaws.IsNearMeansWithinDistance | aux6/behavior_tree.cpp:104-109 | with both transforms present, `IsNear` succeeds iff the length is strictly below the distance, fails otherwise, and changes neither tree nor store |
| BehaviorTreeLaws.MoveTowardsDelegates | aux6/behavior_tree.cpp:120-126 | `MoveTowards` is a move along the normalised direction to the target times the speed; it returns that move's Success and keeps the velocity it used |
| BehaviorTreeLaws.MoveTowardsNeedsBothTransforms | aux6/behavior_tree.cpp:121-122 | without either transform, `MoveTowards` aborts on the first missing one (its own entity first) and changes neither the store nor its embedded velocity |
| BehaviorTreeLaws.MoveFromInputDelegates | aux6/behavior_tree.cpp:83-91 | `MoveFromInput` is a move along the normalised input times the speed, returning what that move returns and keeping its velocity |
| BehaviorTreeLaws.ConditionsChangeNothing | aux6/behavior_tree.cpp:67-113 | `CheckInput` and `IsNear` never return Running and change neither the tree nor the store |
| BehaviorTreeLaws.CheckInputMeansSomeAxis | aux6/behavior_tree.cpp:70-75 | `CheckInput` succeeds iff D and A, or W and S, are not pressed alike |
| Agents.RedTree | aux6/behavior_tree.cpp:161-168 | red's tree, a sequence of the input check and a move from input at speed 2, is tickable |
| Agents.GreenTree | aux6/behavior_tree.cpp:179-187 | green's fallback of IsNear(red, 1.5) and MoveTowards(red, 1.5) is tickable |
| Agents.BlueTree | aux6/behavior_tree.cpp:199-207 | blue's sequence of IsNear(red, 1.25) and MoveTowards(red, -2.5) is tickable |
| Agents.SpawnCube | aux6/behavior_tree.cpp:143-149 | `spawnCube` creates a fresh entity, puts its node at the front of the root's children, and gives it the opaque cube visual and a default transform; no tree changes |
| Agents.SpawnAgent | aux6/behavior_tree.cpp:151-168 | one block of `init`: a spawned cube, moved to its position when one is given, owning its tree |
| Agents.Init | aux6/behavior_tree.cpp:139-212 | `init` adds three distinct fresh entities, red at (-1,0,0), green at the origin and blue at (1,0,0), each with its colour and tree; the root's children gain blue, green, red in that order; the camera looks from (0,0,10) at the origin; the player is unchanged |
| Agents.TickEntity | aux6/behavior_tree.cpp:219 | one visit ticks one owner's tree; the tree set and the store's entities stay the same, trees stay tickable, and no other entity's tree or transform changes |
| Agents.UpdateAll | aux6/behavior_tree.cpp:214-222 | visiting owners in a given order keeps trees tickable and the store's entities fixed, and leaves unvisited entities' trees and transforms alone |
| Agents.TickOwner | aux6/behavior_tree.cpp:219 | the in-place visit of one owner stores the ticked tree and leaves the store `Evaluate` gives |
| Agents.Update | aux6/behavior_tree.cpp:214-222 | `update` visits each owner of a tree at most once; all of them when no tick aborts; the new trees and store are what `UpdateAll` gives for the order taken |
| Agents.RedFollowsInput | aux6/behavior_tree.cpp:151-168 | red fails and stays put without movement input; with input it moves by the normalised input times 2 times delta and succeeds |
| Agents.GreenChasesRed | aux6/behavior_tree.cpp:171-187 | green always succeeds; it stays put while strictly within 1.5 of red and otherwise steps towards red at speed 1.5 |
| Agents.BlueFleesRed | aux6/behavior_tree.cpp:190-207 | blue moves away from red at speed 2.5 and succeeds while strictly within 1.25 of red, and otherwise fails and stays put |
| Agents.GreenStepExample | aux6/behavior_tree.cpp:179-187 | green at the origin with red at (0,0,5) and a time step of 1 ends the tick at (0,0,1.5) |
| SceneGraph.LocalMatrix | aux6/engine.cpp:172-176 | the chain translate(position), rotate about y, x, z, scale(scale), in that order; defined by its body, and `SceneGraph.LocalDisplacement` proves it is the translation by the position when unrotated and unscaled |
| SceneGraph.NodeMatrix | aux6/engine.cpp:167-176 | the matrix computed at a node: parent times local when `try_get` finds a transform, the parent unchanged otherwise; defined by its body, and `SceneGraph.NodeMatrixIsProduct`, `WorldAtNode` and `PropagateComputesWorld` prove what it hands to the subtree |
| SceneGraph.WriteMatrix | aux6/engine.cpp:171-179 | caching a matrix changes only the `matrix` of the node's own transform, and nothing when the node has none |
| SceneGraph.Propagate | aux6/engine.cpp:165-184 | the walk keeps every entity and every position, rotation and scale |
| SceneGraph.PropagateChildren | aux6/engine.cpp:181-183 | walking the children in order keeps every local field |
| SceneGraph.UpdateTransforms | aux6/engine.cpp:165-184 | the recursive in-place walk leaves the registry's transforms as `Propagate` gives them |
| SceneGraph.PropagateFrame | aux6/engine.cpp:165-184 | a transform whose entity is not bound in the subtree is not touched |
| SceneGraph.PropagateAgree | aux6/engine.cpp:165-184 | two stores with the same local fields give the same matrices on the subtree, whatever matrices they held before |
| SceneGraph.PropagateIdempotent | aux6/engine.cpp:165-184 | running the walk twice gives the same store as running it once |
| SceneGraph.PropagateComputesWorld | aux6/engine.cpp:169-183 | in a tree with no entity bound twice, the matrix cached at any node with a transform is the parent matrix times the local matrices of the transform-bearing nodes on its path, in root-to-node order |
| SceneGraph.WorldAtNode | aux6/engine.cpp:169-178 | the node itself caches the parent matrix times its own local matrix |
| SceneGraph.WorldBelowNode | aux6/engine.cpp:181-183 | a descendant caches the matrix computed at its parent times its own path below |
| SceneGraph.LocalDisplacement | aux6/engine.cpp:172-176 | with zero rotation and unit scale, the local matrix is the translation by the position |
| SceneGraph.ChainIsTranslation | aux6/engine.cpp:172-176 | along an unrotated, unscaled path, the chained matrix translates by the sum of the positions on the path |
| SceneGraph.WorldTranslation | aux6/engine.cpp:172-176 | from the root with the identity, such a node's world translation is the sum of its own and its transform-bearing ancestors' positions |
| SceneGraph.TwoLevelChain | aux6/engine.cpp:165-184 | a parent at p ends up translated by p and its child at (3,0,0) by p + (3,0,0) |
| SceneGraph.DefaultTransformIsNeutral | aux5/engine.hpp:88-93 | a default transform's local matrix moves nothing and its cached matrix is the identity |
| SceneGraph.DefaultNodeWritesNothing | aux5/engine.hpp:32-39 | a default node binds no entity, so the walk over it changes nothing |
| SceneGraph.NodeForWritesOnlyItsEntity | aux5/engine.hpp:34 | a node built for `e` binds exactly `e`, and the walk over it writes only `e`'s matrix |
| FrameLoop.Frame | aux6/engine.cpp:258-260 | a frame is `update` followed by propagation from the root with the identity, so the cached matrices come from the positions the trees just produced |
| Containers.Reverse | aux2/containers.hpp:8-13 | the result has the same length and holds at each index the element mirrored from the end |
| Containers.ReverseInvolution | aux2/containers.hpp:8-13 | reversing twice gives the list back |
| Containers.ReverseConcat | aux2/containers.hpp:8-13 | reversing a concatenation concatenates the reversals the other way round |
| Containers.ReverseExample | aux2/test.cpp:6-10 | {1,5,3,8} reverses to {8,3,5,1} |
| Containers.SortedIsContiguous | aux2/containers.hpp:19 | in a queue ordered by shader, calls sharing a shader are contiguous |
| Containers.RenderQueue.constructor | aux2/containers.hpp:31-41 | a new queue is empty |
| Containers.RenderQueue.Enqueue | aux2/containers.hpp:17 | `enqueue` appends exactly one draw call |
| Containers.RenderQueue.Clear | aux2/containers.hpp:20 | `clear` empties the queue |
| Containers.RenderQueue.Sort | aux2/containers.hpp:19 | `sort` leaves the calls ordered by shader and contiguous per shader, and is a permutation of the calls it had |
| Containers.Sink | aux2/containers.hpp:19 | one insertion pass extends the ordered prefix by one call and permutes the calls |
| Containers.CheckGrouped | aux2/test.cpp:35-47 | the test's loop accepts exactly the queues in which, after the first call with a shader different from the first, every call has that second shader |
| Containers.SortedTwoShadersPass | aux2/test.cpp:31-47 | any sorted queue over two shaders passes that check |
| Containers.RenderQueueTest | aux2/test.cpp:12-51 | the unit test's seven calls, sorted, are still seven and pass the grouping check; after `clear` there are none |

## Left out

- Window, OpenGL and GLFW plumbing are not modelled: shader and mesh loading, `drawScene`, the window callbacks, and the polling and clock of the main loop. They are I/O. A frame's time step and key states are parameters (`FrameInput`), and meshes and programs are opaque handles.
- Audio, JSON serialisation and the other exercises are outside this model.
- Floating-point arithmetic is not modelled; vectors are over the reals.
  - `glm::normalize` is a function supplied with the frame input, so its NaN on a zero vector is not modelled either.
  - Rotations stay abstract factors, because sine and cosine are not available.
  - `glm::length` is replaced by the squared comparison, which `NearMatchesLength` ties to it.
- Agents.Update: the registry's view iterates in an order it does not fix. The model picks any order and returns it as a ghost result. Components added or removed during the iteration are not modelled, since no tick does so.
- Agents.GreenChasesRed: states one tick. Convergence to within 1.5 of red over many ticks depends on the normalised vector's length, which the oracle does not fix, so it is not proved.
- `registry.get<CTransform>` on an entity without a transform is an assertion failure in the registry library. The model turns it into the outcome `MissingTransform(entity)`. The outcome passes out of composites, because it is neither Success nor Failure. `Frame` does not propagate after it, since the program would have stopped.
- A `Fallback` without children returns an unassigned status. The model requires every fallback to have a child (`WellFormed`).
- The one-argument constructors of `BTIsNear` and `BTMoveTowards` (default distance and speed 1) and the default constructor of `BTMove` are not modelled, because `init` never uses them. The embedded move's initial velocity is taken as zero; `StaleVelocitiesAreIgnored` shows it is never read.
- Containers.RenderQueue.Sort: the header fixes only the result, not the algorithm. The model sorts with an insertion sort on the sequence of calls and does not fix the order of calls that share a shader.
- Containers.RenderQueue.DrawCalls is the plain accessor of the calls and carries no contract of its own.
- Containers.CheckGrouped: requires shaders other than 0, since the test uses 0 to mean "no second shader yet" and its shaders are 1 and 2. It loops over the whole queue, where the test loops over a fixed 7.
- The camera's `lookAt` and projection, the visuals and the player entity are data only. Nothing in the core computes with them.
