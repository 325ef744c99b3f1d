/** The behavior-tree engine: node kinds, the status a tick yields, the
    meaning of one tick as a function of the transform store, and the tick
    methods that update the registry in place. */
module BehaviorTree {
  import opened Wrappers
  import opened Geometry
  import opened Engine

  /** `BTNode::Status`. */
  datatype Status = Failure | Success | Running

  /** What a tick yields: a status, or the abort raised when
      `registry.get<CTransform>` is asked for an entity without a transform. */
  datatype Outcome = Ticked(status: Status) | MissingTransform(entity: Entity)

  /** A behavior tree. Composites own their children in order; the two leaves
      that delegate to an embedded `BTMove` carry that move's velocity, which
      each tick overwrites before use. */
  datatype Node =
    | Sequence(children: seq<Node>)
    | Fallback(children: seq<Node>)
    | Move(velocity: Vec3)
    | CheckInput
    | MoveFromInput(speed: real, moveVelocity: Vec3)
    | IsNear(target: Entity, distance: real)
    | MoveTowards(target: Entity, speed: real, moveVelocity: Vec3)

  /** The state of the D, A, W and S keys (`glfwGetKey` is 1 when pressed). */
  datatype Keys = Keys(d: bool, a: bool, w: bool, s: bool)

  /** Everything a tick reads besides the registry: the frame's time step, the
      keyboard, and the vector normalisation of the maths library (taken as
      given, since it works on floating point). */
  datatype FrameInput = FrameInput(delta: real, keys: Keys, normalize: Vec3 -> Vec3)

  /** What ticking a tree yields: the outcome, the tree with its embedded
      velocities updated, and the new transform store. */
  datatype Step = Step(outcome: Outcome, node: Node, world: Store)

  /** What ticking the children of a composite from some index on yields: the
      outcome, those children after the tick, and the new store. */
  datatype Run = Run(outcome: Outcome, rest: seq<Node>, world: Store)

  function KeyValue(pressed: bool): int {
    if pressed then 1 else 0
  }

  /** The keyboard axes: right minus left, up minus down, each in -1..1. */
  function InputAxes(k: Keys): (r: Vec3)
    ensures r.z == 0.0
    ensures r.x == 0.0 <==> k.d == k.a
    ensures r.y == 0.0 <==> k.w == k.s
  {
    Vec3((KeyValue(k.d) - KeyValue(k.a)) as real, (KeyValue(k.w) - KeyValue(k.s)) as real, 0.0)
  }

  /** A tree the engine can tick: a fallback with no children would return a
      status that was never assigned, so every fallback has a child. */
  predicate WellFormed(n: Node) {
    match n
    case Sequence(cs) => forall i | 0 <= i < |cs| :: WellFormed(cs[i])
    case Fallback(cs) => |cs| > 0 && forall i | 0 <= i < |cs| :: WellFormed(cs[i])
    case _ => true
  }

  /** Two trees that differ at most in the velocities embedded in their
      delegating leaves. */
  predicate SameShape(a: Node, b: Node) {
    match a
    case Sequence(cs) =>
      b.Sequence? && |b.children| == |cs| && forall i | 0 <= i < |cs| :: SameShape(cs[i], b.children[i])
    case Fallback(cs) =>
      b.Fallback? && |b.children| == |cs| && forall i | 0 <= i < |cs| :: SameShape(cs[i], b.children[i])
    case MoveFromInput(speed, _) => b.MoveFromInput? && b.speed == speed
    case MoveTowards(target, speed, _) => b.MoveTowards? && b.target == target && b.speed == speed
    case _ => b == a
  }

  /** The store `after` differs from `before` at most in the position of `e`. */
  predicate MovesAtMost(before: Store, after: Store, e: Entity) {
    && after.Keys == before.Keys
    && (forall k | k in before && k != e :: after[k] == before[k])
    && (e in before ==> after[e] == before[e].(position := after[e].position))
  }

  function Arity(n: Node): nat {
    if n.Sequence? || n.Fallback? then |n.children| else 0
  }

  /** `BTMove::tick`: moves `e` by `velocity * delta` and succeeds. */
  function MoveBy(velocity: Vec3, e: Entity, delta: real, w: Store): (r: (Outcome, Store))
    ensures MovesAtMost(w, r.1, e)
    ensures r.0 == Ticked(Success) <==> e != Null && e in w
    ensures r.0 == Ticked(Success) ==> r.1[e].position == w[e].position.Plus(velocity.Times(delta))
    ensures r.0 != Ticked(Success) ==> r.0 == MissingTransform(e) && r.1 == w
  {
    match TryGet(w, e)
    case None => (MissingTransform(e), w)
    case Some(t) => (Ticked(Success), w[e := t.(position := t.position.Plus(velocity.Times(delta)))])
  }

  /** `BTCheckInput::tick`: succeeds when some movement key axis is non-zero. */
  function InputOutcome(k: Keys): (r: Outcome)
    ensures r == Ticked(Success) <==> InputAxes(k) != Zero
    ensures r != Ticked(Success) ==> r == Ticked(Failure)
  {
    var input := InputAxes(k);
    Ticked(if input.x != 0.0 || input.y != 0.0 then Success else Failure)
  }

  /** `BTIsNear::tick`: whether `e` lies strictly within `distance` of `target`. */
  function NearOutcome(e: Entity, target: Entity, distance: real, w: Store): (r: Outcome)
    ensures r.Ticked? <==> TryGet(w, e).Some? && TryGet(w, target).Some?
    ensures r.Ticked? ==> (r.status == Success <==> Near(w[e].position, w[target].position, distance))
    ensures r.Ticked? ==> r.status != Running
    ensures r.MissingTransform? ==> r.entity == (if TryGet(w, e).None? then e else target)
  {
    match TryGet(w, e)
    case None => MissingTransform(e)
    case Some(own) =>
      match TryGet(w, target)
      case None => MissingTransform(target)
      case Some(other) => Ticked(if Near(own.position, other.position, distance) then Success else Failure)
  }

  /** The meaning of one tick of `n` on behalf of entity `e`. */
  function Evaluate(n: Node, e: Entity, f: FrameInput, w: Store): Step
    requires WellFormed(n)
    decreases n, Arity(n) + 1
  {
    match n
    case Sequence(_) =>
      var run := SequenceFrom(n, 0, e, f, w);
      Step(run.outcome, Sequence(run.rest), run.world)
    case Fallback(_) =>
      var run := FallbackFrom(n, 0, e, f, w);
      Step(run.outcome, Fallback(run.rest), run.world)
    case Move(velocity) =>
      var (o, w') := MoveBy(velocity, e, f.delta, w);
      Step(o, n, w')
    case CheckInput =>
      Step(InputOutcome(f.keys), n, w)
    case MoveFromInput(speed, _) =>
      var velocity := f.normalize(InputAxes(f.keys)).Times(speed);
      var (o, w') := MoveBy(velocity, e, f.delta, w);
      Step(o, MoveFromInput(speed, velocity), w')
    case IsNear(target, distance) =>
      Step(NearOutcome(e, target, distance, w), n, w)
    case MoveTowards(target, speed, _) =>
      match TryGet(w, e)
      case None => Step(MissingTransform(e), n, w)
      case Some(own) =>
        match TryGet(w, target)
        case None => Step(MissingTransform(target), n, w)
        case Some(goal) =>
          var velocity := f.normalize(goal.position.Minus(own.position)).Times(speed);
          var (o, w') := MoveBy(velocity, e, f.delta, w);
          Step(o, MoveTowards(target, speed, velocity), w')
  }

  /** `BTSequence::tick` from child `i` on: tick children in order, stop at the
      first one that does not succeed and return what it returned. */
  function SequenceFrom(n: Node, i: nat, e: Entity, f: FrameInput, w: Store): Run
    requires n.Sequence? && WellFormed(n) && i <= |n.children|
    decreases n, |n.children| - i
  {
    if i == |n.children| then Run(Ticked(Success), [], w)
    else
      var s := Evaluate(n.children[i], e, f, w);
      if s.outcome != Ticked(Success) then
        Run(s.outcome, [s.node] + n.children[i + 1..], s.world)
      else
        var tail := SequenceFrom(n, i + 1, e, f, s.world);
        Run(tail.outcome, [s.node] + tail.rest, tail.world)
  }

  /** `BTFallback::tick` from child `i` on: tick children in order, stop at the
      first one that does not fail and return what it returned; when all fail,
      return the last one's status. */
  function FallbackFrom(n: Node, i: nat, e: Entity, f: FrameInput, w: Store): Run
    requires n.Fallback? && WellFormed(n) && i < |n.children|
    decreases n, |n.children| - i
  {
    var s := Evaluate(n.children[i], e, f, w);
    if s.outcome != Ticked(Failure) || i + 1 == |n.children| then
      Run(s.outcome, [s.node] + n.children[i + 1..], s.world)
    else
      var tail := FallbackFrom(n, i + 1, e, f, s.world);
      Run(tail.outcome, [s.node] + tail.rest, tail.world)
  }

  /** The run of children `i..` whose ticked prefix is `done`. */
  function After(done: seq<Node>, r: Run): Run {
    Run(r.outcome, done + r.rest, r.world)
  }

  /** `BTMove::tick` on the registry. */
  method MoveEntity<T>(registry: Registry<T>, velocity: Vec3, e: Entity, delta: real) returns (outcome: Outcome)
    modifies registry`transforms
    ensures (outcome, registry.transforms) == MoveBy(velocity, e, delta, old(registry.transforms))
  {
    var transform := TryGet(registry.transforms, e);
    if transform.None? {
      return MissingTransform(e);
    }
    var t := transform.value;
    registry.transforms := registry.transforms[e := t.(position := t.position.Plus(velocity.Times(delta)))];
    outcome := Ticked(Success);
  }

  /** `BTNode::tick`: ticks `node` on behalf of `e`, updating the registry's
      transforms in place; also returns the tree with its embedded velocities
      as the tick left them. */
  method Tick<T>(node: Node, registry: Registry<T>, e: Entity, f: FrameInput) returns (outcome: Outcome, ticked: Node)
    requires WellFormed(node)
    modifies registry`transforms
    ensures Step(outcome, ticked, registry.transforms) == Evaluate(node, e, f, old(registry.transforms))
    decreases node, Arity(node) + 1
  {
    match node
    case Sequence(_) =>
      outcome, ticked := TickSequence(node, registry, e, f);
    case Fallback(_) =>
      outcome, ticked := TickFallback(node, registry, e, f);
    case Move(velocity) =>
      outcome := MoveEntity(registry, velocity, e, f.delta);
      ticked := node;
    case CheckInput =>
      outcome, ticked := InputOutcome(f.keys), node;
    case MoveFromInput(speed, _) =>
      var velocity := f.normalize(InputAxes(f.keys)).Times(speed);
      outcome := MoveEntity(registry, velocity, e, f.delta);
      ticked := MoveFromInput(speed, velocity);
    case IsNear(target, distance) =>
      outcome, ticked := NearOutcome(e, target, distance, registry.transforms), node;
    case MoveTowards(target, speed, _) =>
      var own := TryGet(registry.transforms, e);
      if own.None? {
        return MissingTransform(e), node;
      }
      var goal := TryGet(registry.transforms, target);
      if goal.None? {
        return MissingTransform(target), node;
      }
      var velocity := f.normalize(goal.value.position.Minus(own.value.position)).Times(speed);
      outcome := MoveEntity(registry, velocity, e, f.delta);
      ticked := MoveTowards(target, speed, velocity);
  }

  /** One step of a sequence: the child at `i` runs, and either ends the tick
      or hands over to the children after it. */
  lemma SequenceFromUnfolds(n: Node, i: nat, e: Entity, f: FrameInput, w: Store)
    requires n.Sequence? && WellFormed(n) && i < |n.children|
    ensures var s := Evaluate(n.children[i], e, f, w);
      SequenceFrom(n, i, e, f, w)
        == if s.outcome != Ticked(Success) then Run(s.outcome, [s.node] + n.children[i + 1..], s.world)
           else After([s.node], SequenceFrom(n, i + 1, e, f, s.world))
  {
  }

  /** One step of a fallback, likewise. */
  lemma FallbackFromUnfolds(n: Node, i: nat, e: Entity, f: FrameInput, w: Store)
    requires n.Fallback? && WellFormed(n) && i < |n.children|
    ensures var s := Evaluate(n.children[i], e, f, w);
      FallbackFrom(n, i, e, f, w)
        == if s.outcome != Ticked(Failure) || i + 1 == |n.children| then Run(s.outcome, [s.node] + n.children[i + 1..], s.world)
           else After([s.node], FallbackFrom(n, i + 1, e, f, s.world))
  {
  }

  lemma AfterOneMore(done: seq<Node>, child: Node, r: Run)
    ensures After(done, After([child], r)) == After(done + [child], r)
  {
    assert done + ([child] + r.rest) == done + [child] + r.rest;
  }

  /** `BTSequence::tick`. */
  method TickSequence<T>(node: Node, registry: Registry<T>, e: Entity, f: FrameInput) returns (outcome: Outcome, ticked: Node)
    requires node.Sequence? && WellFormed(node)
    modifies registry`transforms
    ensures Step(outcome, ticked, registry.transforms) == Evaluate(node, e, f, old(registry.transforms))
    decreases node, Arity(node)
  {
    var cs := node.children;
    var done: seq<Node> := [];
    ghost var whole := SequenceFrom(node, 0, e, f, registry.transforms);
    for i := 0 to |cs|
      invariant |done| == i
      invariant After(done, SequenceFrom(node, i, e, f, registry.transforms)) == whole
    {
      SequenceFromUnfolds(node, i, e, f, registry.transforms);
      var status, child := Tick(cs[i], registry, e, f);
      if status != Ticked(Success) {
        AfterOneMore(done, child, Run(status, cs[i + 1..], registry.transforms));
        return status, Sequence(done + [child] + cs[i + 1..]);
      }
      AfterOneMore(done, child, SequenceFrom(node, i + 1, e, f, registry.transforms));
      done := done + [child];
    }
    assert SequenceFrom(node, |cs|, e, f, registry.transforms) == Run(Ticked(Success), [], registry.transforms);
    assert done + [] == done;
    return Ticked(Success), Sequence(done);
  }

  /** `BTFallback::tick`. The loop runs at least once, so the status returned
      after it is always one a child produced. */
  method TickFallback<T>(node: Node, registry: Registry<T>, e: Entity, f: FrameInput) returns (outcome: Outcome, ticked: Node)
    requires node.Fallback? && WellFormed(node)
    modifies registry`transforms
    ensures Step(outcome, ticked, registry.transforms) == Evaluate(node, e, f, old(registry.transforms))
    decreases node, Arity(node)
  {
    var cs := node.children;
    var done: seq<Node> := [];
    var status := Ticked(Failure);
    ghost var whole := FallbackFrom(node, 0, e, f, registry.transforms);
    for i := 0 to |cs|
      invariant |done| == i
      invariant i < |cs| ==> After(done, FallbackFrom(node, i, e, f, registry.transforms)) == whole
      invariant i == |cs| ==> Run(status, done, registry.transforms) == whole
    {
      FallbackFromUnfolds(node, i, e, f, registry.transforms);
      var child;
      status, child := Tick(cs[i], registry, e, f);
      if status != Ticked(Failure) || i + 1 == |cs| {
        AfterOneMore(done, child, Run(status, cs[i + 1..], registry.transforms));
        if status != Ticked(Failure) {
          return status, Fallback(done + [child] + cs[i + 1..]);
        }
      } else {
        AfterOneMore(done, child, FallbackFrom(node, i + 1, e, f, registry.transforms));
      }
      done := done + [child];
    }
    return status, Fallback(done);
  }
}
