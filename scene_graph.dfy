/** World-matrix propagation over the scene graph (`updateTransforms`): a
    depth-first walk that stores `parent * local` into the cached matrix of
    every node bound to a transform, and hands each child the matrix computed
    at its parent (the parent's own matrix when the node has no transform). */
module SceneGraph {
  import opened Wrappers
  import opened Geometry
  import opened Matrices
  import opened Engine

  /** translate(position) * rotate_y * rotate_x * rotate_z * scale(scale). */
  function LocalMatrix(t: Transform): Mat {
    [Translate(t.position), RotateY(t.rotation.y), RotateX(t.rotation.x), RotateZ(t.rotation.z), ScaleBy(t.scale)]
  }

  /** Two transforms with the same local fields (they may differ in `matrix`). */
  predicate SameLocal(t: Transform, u: Transform) {
    t.position == u.position && t.rotation == u.rotation && t.scale == u.scale
  }

  /** Two stores over the same entities whose transforms differ at most in `matrix`. */
  predicate SameLocals(a: Store, b: Store) {
    a.Keys == b.Keys && forall k | k in a :: SameLocal(a[k], b[k])
  }

  /** The matrix computed at `node` and handed to its children. */
  function NodeMatrix(node: SceneNode, parent: Mat, ts: Store): Mat {
    match TryGet(ts, node.entity)
    case Some(t) => Mul(parent, LocalMatrix(t))
    case None => parent
  }

  /** The store with `matrix` cached in the transform of `node`'s entity, if it has one. */
  function WriteMatrix(ts: Store, node: SceneNode, matrix: Mat): (r: Store)
    ensures SameLocals(ts, r)
    ensures forall k | k in ts && k != node.entity :: r[k] == ts[k]
    ensures TryGet(ts, node.entity).Some? ==> r[node.entity].matrix == matrix
    ensures TryGet(ts, node.entity).None? ==> r == ts
  {
    if TryGet(ts, node.entity).Some? then ts[node.entity := ts[node.entity].(matrix := matrix)] else ts
  }

  /** The store after `updateTransforms(registry, node, parent)`. Only `matrix`
      fields are ever written. */
  function Propagate(node: SceneNode, parent: Mat, ts: Store): (r: Store)
    ensures SameLocals(ts, r)
    decreases node, |node.children| + 1
  {
    var matrix := NodeMatrix(node, parent, ts);
    PropagateChildren(node, 0, matrix, WriteMatrix(ts, node, matrix))
  }

  /** The children of `node` from index `i` on, visited in order, each given `matrix`. */
  function PropagateChildren(node: SceneNode, i: nat, matrix: Mat, ts: Store): (r: Store)
    requires i <= |node.children|
    ensures SameLocals(ts, r)
    decreases node, |node.children| - i
  {
    if i == |node.children| then ts
    else PropagateChildren(node, i + 1, matrix, Propagate(node.children[i], matrix, ts))
  }

  /** `updateTransforms`, walking the tree recursively and writing the registry in place. */
  method UpdateTransforms<T>(registry: Registry<T>, node: SceneNode, parentMatrix: Mat)
    modifies registry`transforms
    ensures registry.transforms == Propagate(node, parentMatrix, old(registry.transforms))
    decreases node
  {
    var transform := TryGet(registry.transforms, node.entity);
    var matrix := parentMatrix;
    if transform.Some? {
      var t := transform.value;
      matrix := Mul(matrix, [Translate(t.position)]);
      matrix := Mul(matrix, [RotateY(t.rotation.y)]);
      matrix := Mul(matrix, [RotateX(t.rotation.x)]);
      matrix := Mul(matrix, [RotateZ(t.rotation.z)]);
      matrix := Mul(matrix, [ScaleBy(t.scale)]);
      assert matrix == Mul(parentMatrix, LocalMatrix(t));
      registry.transforms := registry.transforms[node.entity := t.(matrix := matrix)];
    }
    ghost var written := registry.transforms;
    assert Propagate(node, parentMatrix, old(registry.transforms)) == PropagateChildren(node, 0, matrix, written);
    for i := 0 to |node.children|
      invariant PropagateChildren(node, 0, matrix, written) == PropagateChildren(node, i, matrix, registry.transforms)
    {
      ChildrenStep(node, i, matrix, registry.transforms);
      UpdateTransforms(registry, node.children[i], matrix);
    }
  }

  // ---------------------------------------------------------------------------
  // Which entities a subtree touches

  /** The entities bound in the subtree rooted at `node`. */
  function Ents(node: SceneNode): set<Entity>
    decreases node, |node.children| + 1
  {
    (if node.entity == Null then {} else {node.entity}) + EntsFrom(node, 0)
  }

  function EntsFrom(node: SceneNode, i: nat): set<Entity>
    requires i <= |node.children|
    decreases node, |node.children| - i
  {
    if i == |node.children| then {} else Ents(node.children[i]) + EntsFrom(node, i + 1)
  }

  /** No entity is bound at two nodes of the tree. */
  predicate Distinct(node: SceneNode)
    decreases node, |node.children| + 1
  {
    node.entity !in EntsFrom(node, 0) && DistinctFrom(node, 0)
  }

  /** The children from index `i` on are distinct trees binding disjoint entities. */
  predicate DistinctFrom(node: SceneNode, i: nat)
    requires i <= |node.children|
    decreases node, |node.children| - i
  {
    i == |node.children| ||
    (Distinct(node.children[i]) && Ents(node.children[i]) !! EntsFrom(node, i + 1) && DistinctFrom(node, i + 1))
  }

  lemma {:induction false} EntsFromHas(node: SceneNode, i: nat, k: nat, x: Entity)
    requires i <= k < |node.children| && x in Ents(node.children[k])
    ensures x in EntsFrom(node, i)
    decreases |node.children| - i
  {
    if i < k {
      EntsFromHas(node, i + 1, k, x);
    }
  }

  // ---------------------------------------------------------------------------
  // Frame and determinacy

  /** An entity bound nowhere in the subtree keeps its transform, matrix included. */
  lemma {:induction false} PropagateFrame(node: SceneNode, parent: Mat, ts: Store, k: Entity)
    requires k in ts && k !in Ents(node)
    ensures Propagate(node, parent, ts)[k] == ts[k]
    decreases node, |node.children| + 1
  {
    var matrix := NodeMatrix(node, parent, ts);
    var written := WriteMatrix(ts, node, matrix);
    PropagateChildrenFrame(node, 0, matrix, written, k);
  }

  lemma {:induction false} PropagateChildrenFrame(node: SceneNode, i: nat, matrix: Mat, ts: Store, k: Entity)
    requires i <= |node.children| && k in ts && k !in EntsFrom(node, i)
    ensures PropagateChildren(node, i, matrix, ts)[k] == ts[k]
    decreases node, |node.children| - i
  {
    if i < |node.children| {
      var next := Propagate(node.children[i], matrix, ts);
      PropagateFrame(node.children[i], matrix, ts, k);
      PropagateChildrenFrame(node, i + 1, matrix, next, k);
    }
  }

  lemma SameLocalsAcross(a: Store, b: Store, a1: Store, b1: Store)
    requires SameLocals(a, b) && SameLocals(a, a1) && SameLocals(b, b1)
    ensures SameLocals(a1, b1)
  {
    forall k | k in a1
      ensures SameLocal(a1[k], b1[k])
    {
      assert k in a && k in b;
    }
  }

  predicate AgreeOn(a: Store, b: Store, s: set<Entity>) {
    forall k | k in s && k in a && k in b :: a[k] == b[k]
  }

  /** What the walk writes depends only on the local fields and the parent matrix,
      never on the matrices cached before. */
  lemma {:induction false} PropagateAgree(node: SceneNode, parent: Mat, a: Store, b: Store, s: set<Entity>)
    requires SameLocals(a, b) && AgreeOn(a, b, s)
    ensures AgreeOn(Propagate(node, parent, a), Propagate(node, parent, b), s + Ents(node))
    decreases node, |node.children| + 1
  {
    var e := node.entity;
    var ma := NodeMatrix(node, parent, a);
    var mb := NodeMatrix(node, parent, b);
    if TryGet(a, e).Some? {
      assert LocalMatrix(a[e]) == LocalMatrix(b[e]);
    }
    assert ma == mb;
    var wa := WriteMatrix(a, node, ma);
    var wb := WriteMatrix(b, node, mb);
    var s' := s + (if e == Null then {} else {e});
    assert SameLocals(wa, wb);
    assert AgreeOn(wa, wb, s');
    PropagateChildrenAgree(node, 0, ma, wa, wb, s');
    assert s' + EntsFrom(node, 0) == s + Ents(node);
  }

  lemma {:induction false} PropagateChildrenAgree(node: SceneNode, i: nat, matrix: Mat, a: Store, b: Store, s: set<Entity>)
    requires i <= |node.children| && SameLocals(a, b) && AgreeOn(a, b, s)
    ensures AgreeOn(PropagateChildren(node, i, matrix, a), PropagateChildren(node, i, matrix, b), s + EntsFrom(node, i))
    decreases node, |node.children| - i
  {
    if i < |node.children| {
      var child := node.children[i];
      var a1, b1 := Propagate(child, matrix, a), Propagate(child, matrix, b);
      PropagateAgree(child, matrix, a, b, s);
      SameLocalsAcross(a, b, a1, b1);
      var s1 := s + Ents(child);
      PropagateChildrenAgree(node, i + 1, matrix, a1, b1, s1);
      assert s1 + EntsFrom(node, i + 1) == s + EntsFrom(node, i);
    }
  }

  /** Running the walk twice without touching the local fields in between gives
      the same store as running it once. */
  lemma PropagateIdempotent(node: SceneNode, parent: Mat, ts: Store)
    ensures Propagate(node, parent, Propagate(node, parent, ts)) == Propagate(node, parent, ts)
  {
    var once := Propagate(node, parent, ts);
    var twice := Propagate(node, parent, once);
    PropagateAgree(node, parent, ts, once, {});
    forall k | k in once
      ensures twice[k] == once[k]
    {
      if k !in Ents(node) {
        PropagateFrame(node, parent, once, k);
      }
    }
    assert twice.Keys == once.Keys;
  }

  // ---------------------------------------------------------------------------
  // World matrices along root-to-node paths

  /** `path` lists child indices leading down from `node`. */
  predicate ValidPath(node: SceneNode, path: seq<nat>)
    decreases path
  {
    path == [] || (path[0] < |node.children| && ValidPath(node.children[path[0]], path[1..]))
  }

  function At(node: SceneNode, path: seq<nat>): SceneNode
    requires ValidPath(node, path)
    decreases path
  {
    if path == [] then node else At(node.children[path[0]], path[1..])
  }

  /** The local matrix of `node`'s transform, or the identity when it has none. */
  function OwnMatrix(node: SceneNode, ts: Store): Mat {
    match TryGet(ts, node.entity)
    case Some(t) => LocalMatrix(t)
    case None => Identity
  }

  /** The product of the local matrices of the transform-bearing nodes on the path,
      from `node` down to and including the last node. */
  function Chain(node: SceneNode, path: seq<nat>, ts: Store): Mat
    requires ValidPath(node, path)
    decreases path
  {
    if path == [] then OwnMatrix(node, ts)
    else Mul(OwnMatrix(node, ts), Chain(node.children[path[0]], path[1..], ts))
  }

  lemma {:induction false} ChainLocals(node: SceneNode, path: seq<nat>, a: Store, b: Store)
    requires ValidPath(node, path) && SameLocals(a, b)
    ensures Chain(node, path, a) == Chain(node, path, b)
    decreases path
  {
    if TryGet(a, node.entity).Some? {
      assert LocalMatrix(a[node.entity]) == LocalMatrix(b[node.entity]);
    }
    assert OwnMatrix(node, a) == OwnMatrix(node, b);
    if path != [] {
      ChainLocals(node.children[path[0]], path[1..], a, b);
    }
  }

  lemma {:induction false} AtInEnts(node: SceneNode, path: seq<nat>)
    requires ValidPath(node, path) && At(node, path).entity != Null
    ensures At(node, path).entity in Ents(node)
    decreases path
  {
    if path != [] {
      AtInEnts(node.children[path[0]], path[1..]);
      EntsFromHas(node, 0, path[0], At(node, path).entity);
    }
  }

  /** In a tree where no entity is bound twice, the walk from `parent` stores, for
      the node at the end of `path`, `parent` times the local matrices of the
      transform-bearing nodes on the way down; nodes without a transform add
      nothing. */
  lemma {:induction false} PropagateComputesWorld(node: SceneNode, path: seq<nat>, parent: Mat, ts: Store)
    requires Distinct(node) && ValidPath(node, path) && TryGet(ts, At(node, path).entity).Some?
    ensures At(node, path).entity in Propagate(node, parent, ts)
    ensures Propagate(node, parent, ts)[At(node, path).entity].matrix == Mul(parent, Chain(node, path, ts))
    decreases node, |node.children| + 2
  {
    if path == [] {
      WorldAtNode(node, parent, ts);
    } else {
      WorldBelowNode(node, path, parent, ts);
    }
  }

  lemma WorldAtNode(node: SceneNode, parent: Mat, ts: Store)
    requires Distinct(node) && TryGet(ts, node.entity).Some?
    ensures node.entity in Propagate(node, parent, ts)
    ensures Propagate(node, parent, ts)[node.entity].matrix == Mul(parent, LocalMatrix(ts[node.entity]))
  {
    var matrix := NodeMatrix(node, parent, ts);
    var written := WriteMatrix(ts, node, matrix);
    PropagateChildrenFrame(node, 0, matrix, written, node.entity);
  }

  lemma {:induction false} WorldBelowNode(node: SceneNode, path: seq<nat>, parent: Mat, ts: Store)
    requires Distinct(node) && ValidPath(node, path) && path != [] && TryGet(ts, At(node, path).entity).Some?
    ensures At(node, path).entity in Propagate(node, parent, ts)
    ensures Propagate(node, parent, ts)[At(node, path).entity].matrix == Mul(parent, Chain(node, path, ts))
    decreases node, |node.children| + 1
  {
    var matrix := NodeMatrix(node, parent, ts);
    var written := WriteMatrix(ts, node, matrix);
    var child, rest := node.children[path[0]], path[1..];
    PathStep(node, path, ts);
    ChildrenComputeWorld(node, 0, path[0], rest, matrix, written);
    ChainLocals(child, rest, written, ts);
    NodeMatrixIsProduct(node, parent, ts, Chain(child, rest, ts));
  }

  lemma PathStep(node: SceneNode, path: seq<nat>, ts: Store)
    requires ValidPath(node, path) && path != []
    ensures ValidPath(node.children[path[0]], path[1..])
    ensures At(node, path) == At(node.children[path[0]], path[1..])
    ensures Chain(node, path, ts) == Mul(OwnMatrix(node, ts), Chain(node.children[path[0]], path[1..], ts))
  {
  }

  lemma NodeMatrixIsProduct(node: SceneNode, parent: Mat, ts: Store, below: Mat)
    ensures NodeMatrix(node, parent, ts) == Mul(parent, OwnMatrix(node, ts))
    ensures Mul(NodeMatrix(node, parent, ts), below) == Mul(parent, Mul(OwnMatrix(node, ts), below))
  {
  }

  /** Visiting the children from `i` is visiting child `i`, then the rest; a
      tree without repeated entities has such subtrees too. */
  lemma ChildrenStep(node: SceneNode, i: nat, matrix: Mat, ts: Store)
    requires i < |node.children|
    ensures PropagateChildren(node, i, matrix, ts)
      == PropagateChildren(node, i + 1, matrix, Propagate(node.children[i], matrix, ts))
    ensures SameLocals(ts, Propagate(node.children[i], matrix, ts))
    ensures DistinctFrom(node, i) ==>
      (Distinct(node.children[i]) && DistinctFrom(node, i + 1) && Ents(node.children[i]) !! EntsFrom(node, i + 1))
  {
  }

  lemma {:induction false} ChildrenComputeWorld(node: SceneNode, i: nat, j: nat, rest: seq<nat>, matrix: Mat, ts: Store)
    requires i <= j < |node.children| && DistinctFrom(node, i)
    requires ValidPath(node.children[j], rest) && TryGet(ts, At(node.children[j], rest).entity).Some?
    ensures At(node.children[j], rest).entity in PropagateChildren(node, i, matrix, ts)
    ensures PropagateChildren(node, i, matrix, ts)[At(node.children[j], rest).entity].matrix
            == Mul(matrix, Chain(node.children[j], rest, ts))
    decreases node, |node.children| - i
  {
    var child := node.children[i];
    var next := Propagate(child, matrix, ts);
    ChildrenStep(node, i, matrix, ts);
    if i == j {
      var e := At(child, rest).entity;
      PropagateComputesWorld(child, rest, matrix, ts);
      AtInEnts(child, rest);
      PropagateChildrenFrame(node, j + 1, matrix, next, e);
    } else {
      ChildrenComputeWorld(node, i + 1, j, rest, matrix, next);
      ChainLocals(node.children[j], rest, next, ts);
    }
  }

  // ---------------------------------------------------------------------------
  // Translation-only transforms

  /** Every transform on the path is unrotated and has unit scale. */
  predicate Unturned(node: SceneNode, path: seq<nat>, ts: Store)
    requires ValidPath(node, path)
    decreases path
  {
    && (match TryGet(ts, node.entity)
        case Some(t) => t.rotation == Zero && t.scale == One
        case None => true)
    && (path != [] ==> Unturned(node.children[path[0]], path[1..], ts))
  }

  /** The sum of the positions of the transform-bearing nodes on the path. */
  function PathOffset(node: SceneNode, path: seq<nat>, ts: Store): Vec3
    requires ValidPath(node, path)
    decreases path
  {
    var own := match TryGet(ts, node.entity) case Some(t) => t.position case None => Zero;
    if path == [] then own else own.Plus(PathOffset(node.children[path[0]], path[1..], ts))
  }

  /** An unrotated, unit-scale transform's local matrix translates by its position. */
  lemma LocalDisplacement(t: Transform)
    requires t.rotation == Zero && t.scale == One
    ensures Displacement(LocalMatrix(t)) == Some(t.position)
  {
    var m := LocalMatrix(t);
    assert SumOfShifts(m[5..]) == Zero;
    assert m[4..][1..] == m[5..];
    assert SumOfShifts(m[4..]) == Zero;
    assert m[3..][1..] == m[4..];
    assert SumOfShifts(m[3..]) == Zero;
    assert m[2..][1..] == m[3..];
    assert SumOfShifts(m[2..]) == Zero;
    assert m[1..][1..] == m[2..];
    assert SumOfShifts(m[1..]) == Zero;
  }

  lemma {:induction false} ChainIsTranslation(node: SceneNode, path: seq<nat>, ts: Store)
    requires ValidPath(node, path) && Unturned(node, path, ts)
    ensures Displacement(Chain(node, path, ts)) == Some(PathOffset(node, path, ts))
    decreases path
  {
    var own := OwnMatrix(node, ts);
    match TryGet(ts, node.entity) {
      case Some(t) => LocalDisplacement(t);
      case None => assert Displacement(own) == Some(Zero);
    }
    if path != [] {
      ChainIsTranslation(node.children[path[0]], path[1..], ts);
      DisplacementOfProduct(own, Chain(node.children[path[0]], path[1..], ts));
    }
  }

  /** With no rotation and unit scale on the way down, a node's world matrix,
      propagated from the identity, translates by the sum of the positions of its
      transform-bearing ancestors and its own. */
  lemma WorldTranslation(root: SceneNode, path: seq<nat>, ts: Store)
    requires Distinct(root) && ValidPath(root, path) && Unturned(root, path, ts)
    requires TryGet(ts, At(root, path).entity).Some?
    ensures At(root, path).entity in Propagate(root, Identity, ts)
    ensures Displacement(Propagate(root, Identity, ts)[At(root, path).entity].matrix) == Some(PathOffset(root, path, ts))
  {
    PropagateComputesWorld(root, path, Identity, ts);
    assert Mul(Identity, Chain(root, path, ts)) == Chain(root, path, ts);
    ChainIsTranslation(root, path, ts);
  }

  /** An unbound root with child A at position `p`, whose child B sits at (3, 0, 0),
      neither rotated nor scaled: A ends up translated by `p`, and B by
      `p + (3, 0, 0)`, so (3, 0, 3) for `p = (0, 0, 3)`; moving A moves B by the
      same amount. */
  lemma TwoLevelChain(a: Entity, b: Entity, p: Vec3, ts: Store)
    requires a != Null && b != Null && a != b
    requires a in ts && ts[a].position == p && ts[a].rotation == Zero && ts[a].scale == One
    requires b in ts && ts[b].position == Vec3(3.0, 0.0, 0.0) && ts[b].rotation == Zero && ts[b].scale == One
    ensures var root := SceneNode(Null, [SceneNode(a, [NodeFor(b)], "A")], "root");
            && Displacement(Propagate(root, Identity, ts)[a].matrix) == Some(p)
            && Displacement(Propagate(root, Identity, ts)[b].matrix) == Some(p.Plus(Vec3(3.0, 0.0, 0.0)))
  {
    var nb := NodeFor(b);
    var na := SceneNode(a, [nb], "A");
    var root := SceneNode(Null, [na], "root");
    assert EntsFrom(nb, 0) == {};
    assert Ents(nb) == {b};
    assert EntsFrom(na, 0) == {b};
    assert Ents(na) == {a, b};
    assert EntsFrom(root, 0) == {a, b};
    assert Distinct(nb) && Distinct(na) && Distinct(root);
    var path := [0, 0];
    assert path[1..] == [0] && [0][1..] == [];
    assert At(root, path) == nb;
    WorldTranslation(root, path, ts);
    assert At(root, [0]) == na;
    WorldTranslation(root, [0], ts);
  }

  // ---------------------------------------------------------------------------
  // Default values

  /** A default transform is neutral: its local matrix moves nothing and its cached
      matrix is the identity. */
  lemma DefaultTransformIsNeutral()
    ensures Displacement(LocalMatrix(DefaultTransform)) == Some(Zero)
    ensures DefaultTransform.matrix == Identity
  {
    LocalDisplacement(DefaultTransform);
  }

  /** A default node binds nothing, so the walk over it writes nothing. */
  lemma DefaultNodeWritesNothing(parent: Mat, ts: Store)
    ensures Ents(DefaultNode) == {}
    ensures Propagate(DefaultNode, parent, ts) == ts
  {
  }

  /** `SceneGraphNode(e)` binds exactly `e`, and the walk over it writes only `e`'s matrix. */
  lemma NodeForWritesOnlyItsEntity(e: Entity, parent: Mat, ts: Store)
    requires e != Null
    ensures Ents(NodeFor(e)) == {e}
    ensures e in ts ==> Propagate(NodeFor(e), parent, ts) == ts[e := ts[e].(matrix := Mul(parent, LocalMatrix(ts[e])))]
    ensures e !in ts ==> Propagate(NodeFor(e), parent, ts) == ts
  {
  }
}
