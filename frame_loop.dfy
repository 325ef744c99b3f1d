/** One pass of the main loop: behavior trees first, then world matrices. The
    draw call that follows reads the registry only and is outside the model. */
module FrameLoop {
  import opened Wrappers
  import opened Matrices
  import opened Engine
  import opened BehaviorTree
  import opened SceneGraph
  import opened Agents

  /** The body of the main loop: `update`, then `updateTransforms` from the
      root with the identity matrix. An aborted update ends the program, so
      propagation only follows an update that completed. The matrices cached
      are therefore computed from the positions the trees just produced. */
  method Frame(scene: Scene<Node>, f: FrameInput) returns (ghost order: seq<Entity>, fault: Option<Entity>)
    requires scene.Valid() && Tickable(scene.registry.trees)
    modifies scene.registry`transforms, scene.registry`trees
    ensures scene.Valid() && Tickable(scene.registry.trees)
    ensures multiset(order) <= multiset(old(scene.registry.trees).Keys)
    ensures fault.None? ==> multiset(order) == multiset(old(scene.registry.trees).Keys)
    ensures var tally := UpdateAll(order, old(scene.registry.trees), old(scene.registry.transforms), f);
      && fault == tally.fault
      && scene.registry.trees == tally.trees
      && scene.registry.transforms == if fault.None? then Propagate(scene.root, Identity, tally.world) else tally.world
  {
    order, fault := Update(scene, f);
    if fault.None? {
      UpdateTransforms(scene.registry, scene.root, Identity);
    }
  }
}
