/** The behavior-tree program: the three cubes `init` spawns with their trees,
    and `update`, which ticks the tree of every entity that owns one. */
module Agents {
  import opened Wrappers
  import opened Geometry
  import opened Engine
  import opened BehaviorTree
  import opened BehaviorTreeLaws

  /** Red: moves with the keyboard at speed 2 while some movement key is held. */
  function RedTree(): (t: Node)
    ensures WellFormed(t)
  {
    Sequence([CheckInput, MoveFromInput(2.0, Zero)])
  }

  /** Green: unless already within 1.5 of red, moves towards red at speed 1.5. */
  function GreenTree(red: Entity): (t: Node)
    ensures WellFormed(t)
  {
    Fallback([IsNear(red, 1.5), MoveTowards(red, 1.5, Zero)])
  }

  /** Blue: when within 1.25 of red, moves away from red at speed 2.5. */
  function BlueTree(red: Entity): (t: Node)
    ensures WellFormed(t)
  {
    Sequence([IsNear(red, 1.25), MoveTowards(red, -2.5, Zero)])
  }

  /** A default transform moved to `p`. */
  function PlacedAt(p: Vec3): Transform {
    DefaultTransform.(position := p)
  }

  /** The visual of a spawned cube: opaque `color`, the shared mesh and program. */
  function CubeVisual(color: Vec3, mesh: Handle, program: Handle): Visual {
    Visual(Color(color.x, color.y, color.z, 1.0), Some(mesh), Some(program))
  }

  /** `spawnCube` in `init`: creates an entity, binds it to a new node at the
      front of the root's children, gives it the cube's visual and a default
      transform. */
  method SpawnCube(scene: Scene<Node>, color: Vec3, mesh: Handle, program: Handle) returns (e: Entity)
    requires scene.Valid()
    modifies scene`root, scene.registry
    ensures scene.Valid()
    ensures e != Null && e !in old(scene.registry.alive) && scene.registry.alive == old(scene.registry.alive) + {e}
    ensures scene.root == old(scene.root).(children := [NodeFor(e)] + old(scene.root.children))
    ensures scene.registry.visuals == old(scene.registry.visuals)[e := CubeVisual(color, mesh, program)]
    ensures scene.registry.transforms == old(scene.registry.transforms)[e := DefaultTransform]
    ensures scene.registry.trees == old(scene.registry.trees)
  {
    e := scene.registry.Create();
    scene.root := scene.root.(children := [NodeFor(e)] + scene.root.children);
    scene.registry.EmplaceVisual(e, CubeVisual(color, mesh, program));
    scene.registry.EmplaceTransform(e, DefaultTransform);
  }

  /** One block of `init`: spawns a cube of the given colour, moves it to
      `position` when one is given, and gives it `tree`. */
  method SpawnAgent(scene: Scene<Node>, color: Vec3, position: Option<Vec3>, tree: Node, mesh: Handle, program: Handle)
    returns (e: Entity)
    requires scene.Valid()
    modifies scene`root, scene.registry
    ensures scene.Valid()
    ensures e != Null && e !in old(scene.registry.alive) && scene.registry.alive == old(scene.registry.alive) + {e}
    ensures scene.root == old(scene.root).(children := [NodeFor(e)] + old(scene.root.children))
    ensures scene.registry.visuals == old(scene.registry.visuals)[e := CubeVisual(color, mesh, program)]
    ensures scene.registry.transforms == old(scene.registry.transforms)
      [e := if position.Some? then PlacedAt(position.value) else DefaultTransform]
    ensures scene.registry.trees == old(scene.registry.trees)[e := tree]
  {
    e := SpawnCube(scene, color, mesh, program);
    if position.Some? {
      scene.registry.SetPosition(e, position.value);
    }
    scene.registry.EmplaceTree(e, tree);
  }

  /** `init`: spawns red at (-1,0,0), green at the origin and blue at (1,0,0)
      with their trees, and points the camera from (0,0,10) at the origin.
      The shared mesh and shader program are loaded outside the model; the
      identifiers of the three cubes are returned so the contract can name
      them. */
  method Init(scene: Scene<Node>, mesh: Handle, program: Handle) returns (red: Entity, green: Entity, blue: Entity)
    requires scene.Valid()
    modifies scene, scene.registry
    ensures scene.Valid()
    ensures red != green && green != blue && red != blue
    ensures red !in old(scene.registry.alive) && green !in old(scene.registry.alive) && blue !in old(scene.registry.alive)
    ensures scene.registry.alive == old(scene.registry.alive) + {red, green, blue}
    ensures scene.root == old(scene.root).(children := [NodeFor(blue), NodeFor(green), NodeFor(red)] + old(scene.root.children))
    ensures scene.registry.transforms == old(scene.registry.transforms)
      [red := PlacedAt(Vec3(-1.0, 0.0, 0.0))][green := DefaultTransform][blue := PlacedAt(Vec3(1.0, 0.0, 0.0))]
    ensures scene.registry.visuals == old(scene.registry.visuals)
      [red := CubeVisual(Vec3(1.0, 0.0, 0.0), mesh, program)]
      [green := CubeVisual(Vec3(0.0, 1.0, 0.0), mesh, program)]
      [blue := CubeVisual(Vec3(0.0, 0.0, 1.0), mesh, program)]
    ensures scene.registry.trees == old(scene.registry.trees)[red := RedTree()][green := GreenTree(red)][blue := BlueTree(red)]
    ensures scene.camera == old(scene.camera).(eye := Vec3(0.0, 0.0, 10.0), at := Zero)
    ensures scene.player == old(scene.player)
  {
    red := SpawnAgent(scene, Vec3(1.0, 0.0, 0.0), Some(Vec3(-1.0, 0.0, 0.0)), RedTree(), mesh, program);
    green := SpawnAgent(scene, Vec3(0.0, 1.0, 0.0), None, GreenTree(red), mesh, program);
    blue := SpawnAgent(scene, Vec3(0.0, 0.0, 1.0), Some(Vec3(1.0, 0.0, 0.0)), BlueTree(red), mesh, program);
    assert [NodeFor(blue)] + ([NodeFor(green)] + ([NodeFor(red)] + old(scene.root.children)))
      == [NodeFor(blue), NodeFor(green), NodeFor(red)] + old(scene.root.children);
    scene.camera := scene.camera.(eye := Vec3(0.0, 0.0, 10.0), at := Zero);
  }

  /** Every stored tree can be ticked. */
  predicate Tickable(trees: map<Entity, Node>) {
    forall e | e in trees :: WellFormed(trees[e])
  }

  /** A witness helper for `Update`: a non-empty set of entities has a member,
      which is what the choice of the next entity to visit needs. */
  lemma HasMember(s: set<Entity>)
    requires s != {}
    ensures exists e :: e in s
  {
    if forall e :: e !in s {
      assert false;
    }
  }

  /** What an update has done so far: the abort it hit, if any, the trees and
      the transform store. */
  datatype Tally = Tally(fault: Option<Entity>, trees: map<Entity, Node>, world: Store)

  /** One visit of `update`: the tree `e` owns is ticked on behalf of `e`
      against the current store, and the ticked tree is stored back; a missing
      transform is reported as the fault. Only `e`'s tree and `e`'s transform
      can change. */
  function TickEntity(e: Entity, prev: Tally, f: FrameInput): (r: Tally)
    requires Tickable(prev.trees) && e in prev.trees
    ensures r.trees.Keys == prev.trees.Keys && Tickable(r.trees)
    ensures r.world.Keys == prev.world.Keys
    ensures forall k | k in prev.world && k != e :: r.world[k] == prev.world[k]
    ensures forall k | k in prev.trees && k != e :: r.trees[k] == prev.trees[k]
  {
    var s := Evaluate(prev.trees[e], e, f, prev.world);
    TickKeepsShape(prev.trees[e], e, f, prev.world);
    TickMovesOnlyOwner(prev.trees[e], e, f, prev.world);
    ShapePreservesWellFormed(prev.trees[e], s.node);
    Tally(if s.outcome.MissingTransform? then Some(s.outcome.entity) else None, prev.trees[e := s.node], s.world)
  }

  /** `update` visiting the owners of trees in the given order: each tick is on
      behalf of the tree's owner and sees the store the previous tick left; an
      abort ends the update. */
  function UpdateAll(order: seq<Entity>, trees: map<Entity, Node>, w: Store, f: FrameInput): (r: Tally)
    requires Tickable(trees) && multiset(order) <= multiset(trees.Keys)
    ensures r.trees.Keys == trees.Keys && Tickable(r.trees)
    ensures r.world.Keys == w.Keys
    ensures forall k | k in w && k !in order :: r.world[k] == w[k]
    ensures forall k | k in trees && k !in order :: r.trees[k] == trees[k]
    decreases |order|
  {
    if order == [] then Tally(None, trees, w)
    else
      var previous, e := order[..|order| - 1], order[|order| - 1];
      assert order == previous + [e];
      assert e in multiset(order);
      var prev := UpdateAll(previous, trees, w, f);
      if prev.fault.Some? then prev else TickEntity(e, prev, f)
  }

  /** The body of the loop in `update`: ticks the tree `e` owns on behalf of
      `e` and stores the ticked tree back. */
  method TickOwner(registry: Registry<Node>, e: Entity, f: FrameInput) returns (outcome: Outcome)
    requires registry.Valid() && Tickable(registry.trees) && e in registry.trees
    modifies registry`transforms, registry`trees
    ensures registry.Valid() && Tickable(registry.trees)
    ensures var s := Evaluate(old(registry.trees[e]), e, f, old(registry.transforms));
      && outcome == s.outcome
      && registry.trees == old(registry.trees)[e := s.node]
      && registry.transforms == s.world
  {
    TickKeepsShape(registry.trees[e], e, f, registry.transforms);
    TickMovesOnlyOwner(registry.trees[e], e, f, registry.transforms);
    var ticked;
    outcome, ticked := Tick(registry.trees[e], registry, e, f);
    ShapePreservesWellFormed(registry.trees[e], ticked);
    registry.trees := registry.trees[e := ticked];
  }

  /** One more visit extends an update that has not aborted by one tick. */
  lemma UpdateAllExtends(order: seq<Entity>, e: Entity, trees: map<Entity, Node>, w: Store, f: FrameInput)
    requires Tickable(trees) && multiset(order + [e]) <= multiset(trees.Keys)
    ensures var prev := UpdateAll(order, trees, w, f);
      UpdateAll(order + [e], trees, w, f) == if prev.fault.Some? then prev else TickEntity(e, prev, f)
  {
    assert e in multiset(order + [e]);
    assert (order + [e])[..|order|] == order;
  }

  /** `update`: ticks the tree of every entity that owns one, once each, in an
      order the registry does not fix. The order taken is reported (as a ghost
      result), and the new state is what `UpdateAll` gives for it; when no tick
      aborts, every owner was visited. */
  method Update(scene: Scene<Node>, f: FrameInput) returns (ghost order: seq<Entity>, fault: Option<Entity>)
    requires scene.Valid() && Tickable(scene.registry.trees)
    modifies scene.registry`transforms, scene.registry`trees
    ensures scene.Valid() && Tickable(scene.registry.trees)
    ensures multiset(order) <= multiset(old(scene.registry.trees).Keys)
    ensures fault.None? ==> multiset(order) == multiset(old(scene.registry.trees).Keys)
    ensures UpdateAll(order, old(scene.registry.trees), old(scene.registry.transforms), f)
      == Tally(fault, scene.registry.trees, scene.registry.transforms)
  {
    var registry := scene.registry;
    ghost var trees0, world0 := registry.trees, registry.transforms;
    var pending := registry.trees.Keys;
    order, fault := [], None;
    while pending != {} && fault.None?
      invariant registry.Valid()
      invariant pending <= trees0.Keys
      invariant multiset(order) + multiset(pending) == multiset(trees0.Keys)
      invariant UpdateAll(order, trees0, world0, f) == Tally(fault, registry.trees, registry.transforms)
      decreases pending
    {
      HasMember(pending);
      var e :| e in pending;
      UpdateAllExtends(order, e, trees0, world0, f);
      var outcome := TickOwner(registry, e, f);
      fault := if outcome.MissingTransform? then Some(outcome.entity) else None;
      order := order + [e];
      pending := pending - {e};
    }
  }

  /** Red stands still and fails without movement input; with it, red moves by
      the normalised input times 2 per unit time and succeeds. */
  lemma RedFollowsInput(red: Entity, f: FrameInput, w: Store)
    requires TryGet(w, red).Some?
    ensures var r := Evaluate(RedTree(), red, f, w);
      var v := f.normalize(InputAxes(f.keys)).Times(2.0);
      if InputAxes(f.keys) == Zero then r.outcome == Ticked(Failure) && r.world == w
      else r.outcome == Ticked(Success) && r.world == w[red := w[red].(position := w[red].position.Plus(v.Times(f.delta)))]
  {
    var n := RedTree();
    SequenceSemantics(n, red, f, w);
    var steps := RunChildren(n, 0, red, f, w);
    assert steps[0] == Evaluate(CheckInput, red, f, w);
    if InputAxes(f.keys) != Zero {
      assert steps[1] == Evaluate(MoveFromInput(2.0, Zero), red, f, w);
    }
  }

  /** Green succeeds every tick: it stands still while strictly within 1.5 of
      red, and otherwise steps towards red at speed 1.5. */
  lemma GreenChasesRed(red: Entity, green: Entity, f: FrameInput, w: Store)
    requires TryGet(w, red).Some? && TryGet(w, green).Some?
    ensures var r := Evaluate(GreenTree(red), green, f, w);
      var v := f.normalize(w[red].position.Minus(w[green].position)).Times(1.5);
      && r.outcome == Ticked(Success)
      && r.world == if Near(w[green].position, w[red].position, 1.5) then w
                    else w[green := w[green].(position := w[green].position.Plus(v.Times(f.delta)))]
  {
    var n := GreenTree(red);
    FallbackSemantics(n, green, f, w);
    var steps := RunChildren(n, 0, green, f, w);
    assert steps[0] == Evaluate(IsNear(red, 1.5), green, f, w);
    if !Near(w[green].position, w[red].position, 1.5) {
      assert steps[1] == Evaluate(MoveTowards(red, 1.5, Zero), green, f, w);
    }
  }

  /** Blue fails and stands still unless strictly within 1.25 of red; then it
      steps directly away from red at speed 2.5 and succeeds. */
  lemma BlueFleesRed(red: Entity, blue: Entity, f: FrameInput, w: Store)
    requires TryGet(w, red).Some? && TryGet(w, blue).Some?
    ensures var r := Evaluate(BlueTree(red), blue, f, w);
      var v := f.normalize(w[red].position.Minus(w[blue].position)).Times(-2.5);
      if Near(w[blue].position, w[red].position, 1.25) then
        r.outcome == Ticked(Success) && r.world == w[blue := w[blue].(position := w[blue].position.Plus(v.Times(f.delta)))]
      else r.outcome == Ticked(Failure) && r.world == w
  {
    var n := BlueTree(red);
    SequenceSemantics(n, blue, f, w);
    var steps := RunChildren(n, 0, blue, f, w);
    assert steps[0] == Evaluate(IsNear(red, 1.25), blue, f, w);
    if Near(w[blue].position, w[red].position, 1.25) {
      assert steps[1] == Evaluate(MoveTowards(red, -2.5, Zero), blue, f, w);
    }
  }

  /** Red at (0,0,5) is not within 1.5 of the origin. */
  lemma FiveIsFar()
    ensures !Near(Zero, Vec3(0.0, 0.0, 5.0), 1.5)
  {
    assert Zero.Minus(Vec3(0.0, 0.0, 5.0)).SqLength() == 25.0;
  }

  /** A step from the origin at speed 1.5 along (0,0,1) for a time step of 1
      lands at (0,0,1.5). */
  lemma LandsAt(v: Vec3)
    requires v == Vec3(0.0, 0.0, 1.0).Times(1.5)
    ensures Zero.Plus(v.Times(1.0)) == Vec3(0.0, 0.0, 1.5)
  {
  }

  /** Green at the origin, red at (0,0,5), a time step of 1: green ends the
      tick at (0,0,1.5), given that the direction to red normalises to
      (0,0,1). */
  lemma GreenStepExample(red: Entity, green: Entity, f: FrameInput, w: Store)
    requires TryGet(w, red).Some? && TryGet(w, green).Some?
    requires w[green].position == Zero && w[red].position == Vec3(0.0, 0.0, 5.0)
    requires f.delta == 1.0 && f.normalize(Vec3(0.0, 0.0, 5.0)) == Vec3(0.0, 0.0, 1.0)
    ensures Evaluate(GreenTree(red), green, f, w).world == w[green := w[green].(position := Vec3(0.0, 0.0, 1.5))]
  {
    var gp, rp := w[green].position, w[red].position;
    assert rp.Minus(gp) == Vec3(0.0, 0.0, 5.0);
    var v := f.normalize(rp.Minus(gp)).Times(1.5);
    FiveIsFar();
    LandsAt(v);
    GreenChasesRed(red, green, f, w);
  }
}
