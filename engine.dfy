/** The data model shared by the engine exercises: entities, the components
    attached to them, the entity-component registry, the scene-graph node and
    the scene that owns all of these. */
module Engine {
  import opened Wrappers
  import opened Geometry
  import opened Matrices

  /** An entity identifier. Identifiers handed out by the registry are
      non-negative; `Null` (`entt::null`) is never handed out. */
  type Entity = int

  const Null: Entity := -1

  /** `CTransform`: local position, Euler rotation (radians), scale, and the
      world matrix cached by the scene-graph pass. */
  datatype Transform = Transform(position: Vec3, rotation: Vec3, scale: Vec3, matrix: Mat)

  /** The registry's store of transforms. */
  type Store = map<Entity, Transform>

  /** A default `CTransform`: at the origin, unrotated, unit scale, identity matrix. */
  const DefaultTransform: Transform := Transform(Zero, Zero, One, Identity)

  datatype Color = Color(r: real, g: real, b: real, a: real)

  /** Identifies a GPU resource (mesh or shader program) loaded outside the model. */
  type Handle = nat

  /** `CVisual`: colour and shared (possibly null) mesh and program resources. */
  datatype Visual = Visual(color: Color, mesh: Option<Handle>, program: Option<Handle>)

  /** A default `CVisual`: opaque white, no mesh, no program. */
  const DefaultVisual: Visual := Visual(Color(1.0, 1.0, 1.0, 1.0), None, None)

  datatype Camera = Camera(eye: Vec3, at: Vec3, up: Vec3)

  const DefaultCamera: Camera := Camera(One, Zero, Vec3(0.0, 1.0, 0.0))

  /** `SceneGraphNode`: an optional entity, an ordered list of owned children
      and a name. */
  datatype SceneNode = SceneNode(entity: Entity, children: seq<SceneNode>, name: string)

  /** `SceneGraphNode()`: bound to no entity, no children, empty name. */
  const DefaultNode: SceneNode := SceneNode(Null, [], "")

  /** `SceneGraphNode(e)`: bound to `e`, no children, empty name. */
  function NodeFor(e: Entity): SceneNode {
    SceneNode(e, [], "")
  }

  /** `registry.try_get<C>(e)`: the component of entity `e` in the store `m` of one
      component kind, or `None`; the null entity never has a component. */
  function TryGet<C>(m: map<Entity, C>, e: Entity): (r: Option<C>)
    ensures r.Some? <==> e != Null && e in m
    ensures r.Some? ==> e in m && r.value == m[e]
  {
    if e != Null && e in m then Some(m[e]) else None
  }

  /** The entity-component registry, restricted to the component kinds this
      program uses: one map per kind. The behavior-tree component type is a
      parameter, since it is declared by the behavior-tree program. */
  class Registry<Tree> {
    var alive: set<Entity>
    var next: nat
    var transforms: map<Entity, Transform>
    var visuals: map<Entity, Visual>
    var trees: map<Entity, Tree>

    /** Identifiers below `next` have been handed out; components hang off live
        entities only. */
    ghost predicate Valid()
      reads this
    {
      && (forall e | e in alive :: 0 <= e < next)
      && transforms.Keys <= alive
      && visuals.Keys <= alive
      && trees.Keys <= alive
    }

    constructor ()
      ensures Valid()
      ensures alive == {} && transforms == map[] && visuals == map[] && trees == map[]
    {
      alive, next := {}, 0;
      transforms, visuals, trees := map[], map[], map[];
    }

    /** `registry.create()`: a new entity, distinct from every live one and from
        `Null`, with no components. */
    method Create() returns (e: Entity)
      requires Valid()
      modifies this
      ensures Valid()
      ensures e != Null && e !in old(alive) && alive == old(alive) + {e}
      ensures transforms == old(transforms) && visuals == old(visuals) && trees == old(trees)
    {
      e := next;
      alive := alive + {e};
      next := next + 1;
    }

    /** `registry.emplace<CTransform>(e, t)`; the library asserts that `e` is live
        and has no transform yet. */
    method EmplaceTransform(e: Entity, t: Transform)
      requires Valid() && e in alive && e !in transforms
      modifies this`transforms
      ensures Valid() && transforms == old(transforms)[e := t]
    {
      transforms := transforms[e := t];
    }

    /** `registry.get<CTransform>(e).position = p`; the library asserts that `e`
        has a transform. */
    method SetPosition(e: Entity, p: Vec3)
      requires Valid() && e in transforms
      modifies this`transforms
      ensures Valid() && transforms == old(transforms)[e := old(transforms)[e].(position := p)]
    {
      transforms := transforms[e := transforms[e].(position := p)];
    }

    /** `registry.emplace<CVisual>(e, v)`, with the same demands. */
    method EmplaceVisual(e: Entity, v: Visual)
      requires Valid() && e in alive && e !in visuals
      modifies this`visuals
      ensures Valid() && visuals == old(visuals)[e := v]
    {
      visuals := visuals[e := v];
    }

    /** `registry.emplace<CBehaviorTree>(e).root = t`, with the same demands. */
    method EmplaceTree(e: Entity, t: Tree)
      requires Valid() && e in alive && e !in trees
      modifies this`trees
      ensures Valid() && trees == old(trees)[e := t]
    {
      trees := trees[e := t];
    }
  }

  /** `Scene`: a registry, a player entity created with it, the scene-graph root
      and the camera. */
  class Scene<Tree> {
    const registry: Registry<Tree>
    var player: Entity
    var root: SceneNode
    var camera: Camera

    ghost predicate Valid()
      reads this, registry
    {
      registry.Valid() && player in registry.alive
    }

    /** A new scene: a fresh registry whose only entity is the player, an unbound
        root with no children, the default camera. */
    constructor ()
      ensures Valid() && fresh(registry)
      ensures registry.alive == {player} && player != Null
      ensures registry.transforms == map[] && registry.visuals == map[] && registry.trees == map[]
      ensures root == DefaultNode && camera == DefaultCamera
    {
      var r := new Registry<Tree>();
      var p := r.Create();
      registry := r;
      player := p;
      root := DefaultNode;
      camera := DefaultCamera;
    }
  }
}
