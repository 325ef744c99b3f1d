/** What the behavior-tree engine promises: composites short-circuit, leaves
    do what their names say, and a tick touches only the ticking entity. */
module BehaviorTreeLaws {
  import opened Wrappers
  import opened Geometry
  import opened Engine
  import opened BehaviorTree

  lemma SameShapeReflexive(n: Node)
    ensures SameShape(n, n)
  {
    if n.Sequence? || n.Fallback? {
      forall i | 0 <= i < |n.children| {
        SameShapeReflexive(n.children[i]);
      }
    }
  }

  lemma MovesAtMostTransitive(a: Store, b: Store, c: Store, e: Entity)
    requires MovesAtMost(a, b, e) && MovesAtMost(b, c, e)
    ensures MovesAtMost(a, c, e)
  {
  }

  /** A tick changes only the position of the entity it runs for: every other
      transform, and every other field of its own, are left as they were. */
  lemma {:induction false} TickMovesOnlyOwner(n: Node, e: Entity, f: FrameInput, w: Store)
    requires WellFormed(n)
    ensures MovesAtMost(w, Evaluate(n, e, f, w).world, e)
    decreases n, 1
  {
    match n
    case Sequence(_) => SequenceMovesOnlyOwner(n, 0, e, f, w);
    case Fallback(_) => FallbackMovesOnlyOwner(n, 0, e, f, w);
    case _ =>
  }

  lemma {:induction false} SequenceMovesOnlyOwner(n: Node, i: nat, e: Entity, f: FrameInput, w: Store)
    requires n.Sequence? && WellFormed(n) && i <= |n.children|
    ensures MovesAtMost(w, SequenceFrom(n, i, e, f, w).world, e)
    decreases n, 0, |n.children| - i
  {
    if i < |n.children| {
      TickMovesOnlyOwner(n.children[i], e, f, w);
      var s := Evaluate(n.children[i], e, f, w);
      if s.outcome == Ticked(Success) {
        SequenceMovesOnlyOwner(n, i + 1, e, f, s.world);
        MovesAtMostTransitive(w, s.world, SequenceFrom(n, i + 1, e, f, s.world).world, e);
      }
    }
  }

  lemma {:induction false} FallbackMovesOnlyOwner(n: Node, i: nat, e: Entity, f: FrameInput, w: Store)
    requires n.Fallback? && WellFormed(n) && i < |n.children|
    ensures MovesAtMost(w, FallbackFrom(n, i, e, f, w).world, e)
    decreases n, 0, |n.children| - i
  {
    TickMovesOnlyOwner(n.children[i], e, f, w);
    var s := Evaluate(n.children[i], e, f, w);
    if s.outcome == Ticked(Failure) && i + 1 < |n.children| {
      FallbackMovesOnlyOwner(n, i + 1, e, f, s.world);
      MovesAtMostTransitive(w, s.world, FallbackFrom(n, i + 1, e, f, s.world).world, e);
    }
  }

  /** A tick changes a tree at most in the velocities embedded in its
      delegating leaves. */
  lemma {:induction false} TickKeepsShape(n: Node, e: Entity, f: FrameInput, w: Store)
    requires WellFormed(n)
    ensures SameShape(n, Evaluate(n, e, f, w).node)
    decreases n, 1
  {
    match n
    case Sequence(_) => SequenceKeepsShape(n, 0, e, f, w);
    case Fallback(_) => FallbackKeepsShape(n, 0, e, f, w);
    case _ =>
  }

  lemma {:induction false} SequenceKeepsShape(n: Node, i: nat, e: Entity, f: FrameInput, w: Store)
    requires n.Sequence? && WellFormed(n) && i <= |n.children|
    ensures var r := SequenceFrom(n, i, e, f, w);
      |r.rest| == |n.children| - i && forall j | 0 <= j < |r.rest| :: SameShape(n.children[i + j], r.rest[j])
    decreases n, 0, |n.children| - i
  {
    if i < |n.children| {
      TickKeepsShape(n.children[i], e, f, w);
      var s := Evaluate(n.children[i], e, f, w);
      if s.outcome == Ticked(Success) {
        SequenceKeepsShape(n, i + 1, e, f, s.world);
      } else {
        forall j | i < j < |n.children| {
          SameShapeReflexive(n.children[j]);
        }
      }
    }
  }

  lemma {:induction false} FallbackKeepsShape(n: Node, i: nat, e: Entity, f: FrameInput, w: Store)
    requires n.Fallback? && WellFormed(n) && i < |n.children|
    ensures var r := FallbackFrom(n, i, e, f, w);
      |r.rest| == |n.children| - i && forall j | 0 <= j < |r.rest| :: SameShape(n.children[i + j], r.rest[j])
    decreases n, 0, |n.children| - i
  {
    TickKeepsShape(n.children[i], e, f, w);
    var s := Evaluate(n.children[i], e, f, w);
    if s.outcome == Ticked(Failure) && i + 1 < |n.children| {
      FallbackKeepsShape(n, i + 1, e, f, s.world);
    } else {
      forall j | i < j < |n.children| {
        SameShapeReflexive(n.children[j]);
      }
    }
  }

  /** Reference trace: tick every child of `n` from index `i` on, in order,
      each on the store the previous one left, without ever stopping. */
  function RunChildren(n: Node, i: nat, e: Entity, f: FrameInput, w: Store): (steps: seq<Step>)
    requires (n.Sequence? || n.Fallback?) && WellFormed(n) && i <= |n.children|
    ensures |steps| == |n.children| - i
    decreases |n.children| - i
  {
    if i == |n.children| then []
    else
      var s := Evaluate(n.children[i], e, f, w);
      [s] + RunChildren(n, i + 1, e, f, s.world)
  }

  /** The store after a trace, `w` for an empty one. */
  function LastWorld(steps: seq<Step>, w: Store): Store {
    if steps == [] then w else steps[|steps| - 1].world
  }

  /** The index of the first step whose outcome is not `o`, or the length of
      the trace when there is none. */
  function FirstOther(steps: seq<Step>, o: Outcome): (k: nat)
    ensures k <= |steps|
    ensures forall j | 0 <= j < k :: steps[j].outcome == o
    ensures k < |steps| ==> steps[k].outcome != o
  {
    if steps == [] || steps[0].outcome != o then 0 else 1 + FirstOther(steps[1..], o)
  }

  /** `r` is what the full trace `steps` of the children `cs[i..]` gives
      when ticking stops at step `k`: the outcome and store of step `k` (or
      `done` and the final store when every step was passed over), the ticked
      children up to `k`, the untouched children after it. */
  predicate StopsAt(r: Run, cs: seq<Node>, i: nat, steps: seq<Step>, k: nat, w: Store, done: Outcome)
    requires i <= |cs| && |steps| == |cs| - i && k <= |steps|
  {
    && r.outcome == (if k < |steps| then steps[k].outcome else done)
    && r.world == (if k < |steps| then steps[k].world else LastWorld(steps, w))
    && |r.rest| == |steps|
    && forall j | 0 <= j < |steps| :: r.rest[j] == if j <= k then steps[j].node else cs[i + j]
  }

  /** Stopping at the first step. */
  lemma StopsAtHead(cs: seq<Node>, i: nat, s: Step, tail: seq<Step>, w: Store, done: Outcome)
    requires i < |cs| && |tail| == |cs| - i - 1
    requires s.outcome != done || tail == []
    ensures FirstOther([s] + tail, done) == (if s.outcome != done then 0 else 1)
    ensures StopsAt(Run(s.outcome, [s.node] + cs[i + 1..], s.world), cs, i, [s] + tail, FirstOther([s] + tail, done), w, done)
  {
    var steps := [s] + tail;
    if s.outcome == done {
      assert steps[1..] == [];
    }
    var r := Run(s.outcome, [s.node] + cs[i + 1..], s.world);
    forall j | 0 <= j < |steps|
      ensures r.rest[j] == if j <= FirstOther(steps, done) then steps[j].node else cs[i + j]
    {
      if j > 0 {
        assert r.rest[j] == cs[i + 1..][j - 1];
      }
    }
  }

  /** Passing over the first step and stopping later. */
  lemma StopsAtLater(cs: seq<Node>, i: nat, s: Step, tail: seq<Step>, t: Run, k: nat, w: Store, done: Outcome)
    requires i < |cs| && |tail| == |cs| - i - 1 && k <= |tail|
    requires s.outcome == done && k == FirstOther(tail, done)
    requires StopsAt(t, cs, i + 1, tail, k, s.world, done)
    ensures FirstOther([s] + tail, done) == k + 1
    ensures StopsAt(After([s.node], t), cs, i, [s] + tail, k + 1, w, done)
  {
    var steps := [s] + tail;
    assert steps[1..] == tail;
    assert LastWorld(steps, w) == LastWorld(tail, s.world);
    var r := After([s.node], t);
    forall j | 0 <= j < |steps|
      ensures r.rest[j] == if j <= k + 1 then steps[j].node else cs[i + j]
    {
      if j > 0 {
        assert r.rest[j] == t.rest[j - 1];
        assert steps[j] == tail[j - 1];
      }
    }
  }

  lemma {:induction false} SequenceFromStopsAtFirstNonSuccess(n: Node, i: nat, e: Entity, f: FrameInput, w: Store)
    requires n.Sequence? && WellFormed(n) && i <= |n.children|
    ensures var steps := RunChildren(n, i, e, f, w);
      StopsAt(SequenceFrom(n, i, e, f, w), n.children, i, steps, FirstOther(steps, Ticked(Success)), w, Ticked(Success))
    decreases |n.children| - i
  {
    if i < |n.children| {
      var s := Evaluate(n.children[i], e, f, w);
      var tail := RunChildren(n, i + 1, e, f, s.world);
      assert RunChildren(n, i, e, f, w) == [s] + tail;
      if s.outcome == Ticked(Success) {
        SequenceFromStopsAtFirstNonSuccess(n, i + 1, e, f, s.world);
        StopsAtLater(n.children, i, s, tail, SequenceFrom(n, i + 1, e, f, s.world), FirstOther(tail, Ticked(Success)), w, Ticked(Success));
      } else {
        StopsAtHead(n.children, i, s, tail, w, Ticked(Success));
      }
    }
  }

  lemma {:induction false} FallbackFromStopsAtFirstNonFailure(n: Node, i: nat, e: Entity, f: FrameInput, w: Store)
    requires n.Fallback? && WellFormed(n) && i < |n.children|
    ensures var steps := RunChildren(n, i, e, f, w);
      StopsAt(FallbackFrom(n, i, e, f, w), n.children, i, steps, FirstOther(steps, Ticked(Failure)), w, Ticked(Failure))
    decreases |n.children| - i
  {
    var s := Evaluate(n.children[i], e, f, w);
    var tail := RunChildren(n, i + 1, e, f, s.world);
    assert RunChildren(n, i, e, f, w) == [s] + tail;
    if s.outcome == Ticked(Failure) && i + 1 < |n.children| {
      FallbackFromStopsAtFirstNonFailure(n, i + 1, e, f, s.world);
      StopsAtLater(n.children, i, s, tail, FallbackFrom(n, i + 1, e, f, s.world), FirstOther(tail, Ticked(Failure)), w, Ticked(Failure));
    } else {
      StopsAtHead(n.children, i, s, tail, w, Ticked(Failure));
    }
  }

  /** A sequence ticks its children in order up to and including the first one
      that does not succeed, returns that child's outcome (success when there
      is none) and leaves every later child unticked. */
  lemma SequenceSemantics(n: Node, e: Entity, f: FrameInput, w: Store)
    requires n.Sequence? && WellFormed(n)
    ensures var steps := RunChildren(n, 0, e, f, w);
      var k := FirstOther(steps, Ticked(Success));
      var r := Evaluate(n, e, f, w);
      && r.outcome == (if k < |steps| then steps[k].outcome else Ticked(Success))
      && r.world == (if k < |steps| then steps[k].world else LastWorld(steps, w))
      && r.node.Sequence? && |r.node.children| == |n.children|
      && forall j | 0 <= j < |n.children| :: r.node.children[j] == if j <= k then steps[j].node else n.children[j]
  {
    SequenceFromStopsAtFirstNonSuccess(n, 0, e, f, w);
  }

  /** A fallback ticks its children in order up to and including the first one
      that does not fail, returns that child's outcome (the last child's failure
      when all fail) and leaves every later child unticked. */
  lemma FallbackSemantics(n: Node, e: Entity, f: FrameInput, w: Store)
    requires n.Fallback? && WellFormed(n)
    ensures var steps := RunChildren(n, 0, e, f, w);
      var k := FirstOther(steps, Ticked(Failure));
      var r := Evaluate(n, e, f, w);
      && r.outcome == (if k < |steps| then steps[k].outcome else Ticked(Failure))
      && r.world == (if k < |steps| then steps[k].world else LastWorld(steps, w))
      && r.node.Fallback? && |r.node.children| == |n.children|
      && forall j | 0 <= j < |n.children| :: r.node.children[j] == if j <= k then steps[j].node else n.children[j]
  {
    FallbackFromStopsAtFirstNonFailure(n, 0, e, f, w);
  }

  /** A sequence succeeds exactly when every child, ticked in turn, succeeds. */
  lemma SequenceSucceedsIffAll(n: Node, e: Entity, f: FrameInput, w: Store)
    requires n.Sequence? && WellFormed(n)
    ensures var steps := RunChildren(n, 0, e, f, w);
      Evaluate(n, e, f, w).outcome == Ticked(Success) <==> forall j | 0 <= j < |steps| :: steps[j].outcome == Ticked(Success)
  {
    SequenceSemantics(n, e, f, w);
  }

  /** A fallback fails exactly when every child, ticked in turn, fails. */
  lemma FallbackFailsIffAll(n: Node, e: Entity, f: FrameInput, w: Store)
    requires n.Fallback? && WellFormed(n)
    ensures var steps := RunChildren(n, 0, e, f, w);
      Evaluate(n, e, f, w).outcome == Ticked(Failure) <==> forall j | 0 <= j < |steps| :: steps[j].outcome == Ticked(Failure)
  {
    FallbackSemantics(n, e, f, w);
  }

  /** A sequence with no children succeeds and changes nothing. */
  lemma EmptySequenceSucceeds(e: Entity, f: FrameInput, w: Store)
    ensures Evaluate(Sequence([]), e, f, w) == Step(Ticked(Success), Sequence([]), w)
  {
    SequenceSemantics(Sequence([]), e, f, w);
  }

  /** Ticking keeps a tree tickable. */
  lemma {:induction false} ShapePreservesWellFormed(a: Node, b: Node)
    requires WellFormed(a) && SameShape(a, b)
    ensures WellFormed(b)
  {
    if a.Sequence? || a.Fallback? {
      forall i | 0 <= i < |b.children|
        ensures WellFormed(b.children[i])
      {
        ShapePreservesWellFormed(a.children[i], b.children[i]);
      }
    }
  }

  /** A tick's outcome and effect do not depend on the velocities earlier
      ticks left in the delegating leaves: those are written before they are
      read. */
  lemma {:induction false} StaleVelocitiesAreIgnored(a: Node, b: Node, e: Entity, f: FrameInput, w: Store)
    requires WellFormed(a) && SameShape(a, b)
    ensures WellFormed(b)
    ensures Evaluate(a, e, f, w).outcome == Evaluate(b, e, f, w).outcome
    ensures Evaluate(a, e, f, w).world == Evaluate(b, e, f, w).world
    decreases a, 1
  {
    ShapePreservesWellFormed(a, b);
    if a.Sequence? {
      SequenceIgnoresStaleVelocities(a, b, 0, e, f, w);
    } else if a.Fallback? {
      FallbackIgnoresStaleVelocities(a, b, 0, e, f, w);
    }
  }

  lemma {:induction false} SequenceIgnoresStaleVelocities(a: Node, b: Node, i: nat, e: Entity, f: FrameInput, w: Store)
    requires a.Sequence? && WellFormed(a) && SameShape(a, b) && WellFormed(b) && i <= |a.children|
    ensures SequenceFrom(a, i, e, f, w).outcome == SequenceFrom(b, i, e, f, w).outcome
    ensures SequenceFrom(a, i, e, f, w).world == SequenceFrom(b, i, e, f, w).world
    decreases a, 0, |a.children| - i
  {
    if i < |a.children| {
      StaleVelocitiesAreIgnored(a.children[i], b.children[i], e, f, w);
      var s := Evaluate(a.children[i], e, f, w);
      if s.outcome == Ticked(Success) {
        SequenceIgnoresStaleVelocities(a, b, i + 1, e, f, s.world);
      }
    }
  }

  lemma {:induction false} FallbackIgnoresStaleVelocities(a: Node, b: Node, i: nat, e: Entity, f: FrameInput, w: Store)
    requires a.Fallback? && WellFormed(a) && SameShape(a, b) && WellFormed(b) && i < |a.children|
    ensures FallbackFrom(a, i, e, f, w).outcome == FallbackFrom(b, i, e, f, w).outcome
    ensures FallbackFrom(a, i, e, f, w).world == FallbackFrom(b, i, e, f, w).world
    decreases a, 0, |a.children| - i
  {
    StaleVelocitiesAreIgnored(a.children[i], b.children[i], e, f, w);
    var s := Evaluate(a.children[i], e, f, w);
    if s.outcome == Ticked(Failure) && i + 1 < |a.children| {
      FallbackIgnoresStaleVelocities(a, b, i + 1, e, f, s.world);
    }
  }

  /** Moving for two time steps in a row is moving once for their sum. */
  lemma MoveComposes(v: Vec3, e: Entity, f: FrameInput, g: FrameInput, w: Store)
    requires TryGet(w, e).Some?
    ensures var once := Evaluate(Move(v), e, f, w);
      var twice := Evaluate(Move(v), e, g, once.world);
      var both := Evaluate(Move(v), e, f.(delta := f.delta + g.delta), w);
      twice.outcome == both.outcome == Ticked(Success) && twice.world == both.world
  {
    var p := w[e].position;
    assert p.Plus(v.Times(f.delta)).Plus(v.Times(g.delta)) == p.Plus(v.Times(f.delta + g.delta));
  }

  /** `IsNear` succeeds exactly when the distance to the target, however its
      square root is computed, is below the threshold; it never runs and
      changes nothing. */
  lemma IsNearMeansWithinDistance(target: Entity, distance: real, e: Entity, f: FrameInput, w: Store, len: real)
    requires TryGet(w, e).Some? && TryGet(w, target).Some?
    requires len >= 0.0 && len * len == w[e].position.Minus(w[target].position).SqLength()
    ensures var r := Evaluate(IsNear(target, distance), e, f, w);
      && (r.outcome == Ticked(Success) <==> len < distance)
      && (r.outcome != Ticked(Success) ==> r.outcome == Ticked(Failure))
      && r.world == w && r.node == IsNear(target, distance)
  {
    NearMatchesLength(w[e].position, w[target].position, distance, len);
  }

  /** `MoveTowards` is a `Move` along the normalised direction to the target,
      scaled by its speed; it returns whatever that move returns and keeps the
      velocity it used. */
  lemma MoveTowardsDelegates(target: Entity, speed: real, stale: Vec3, e: Entity, f: FrameInput, w: Store)
    requires TryGet(w, e).Some? && TryGet(w, target).Some?
    ensures var v := f.normalize(w[target].position.Minus(w[e].position)).Times(speed);
      var move := Evaluate(Move(v), e, f, w);
      Evaluate(MoveTowards(target, speed, stale), e, f, w) == Step(move.outcome, MoveTowards(target, speed, v), move.world)
      && move.outcome == Ticked(Success)
      && move.world[e].position == w[e].position.Plus(v.Times(f.delta))
  {
  }

  /** `MoveTowards` aborts on whichever of the two transforms it fetches first
      and finds missing, and changes nothing then: neither the store nor the
      velocity of its embedded move. */
  lemma MoveTowardsNeedsBothTransforms(target: Entity, speed: real, stale: Vec3, e: Entity, f: FrameInput, w: Store)
    requires TryGet(w, e).None? || TryGet(w, target).None?
    ensures var r := Evaluate(MoveTowards(target, speed, stale), e, f, w);
      && r.outcome == MissingTransform(if TryGet(w, e).None? then e else target)
      && r.world == w
      && r.node == MoveTowards(target, speed, stale)
  {
  }

  /** `MoveFromInput` is a `Move` along the normalised keyboard direction,
      scaled by its speed. */
  lemma MoveFromInputDelegates(speed: real, stale: Vec3, e: Entity, f: FrameInput, w: Store)
    ensures var v := f.normalize(InputAxes(f.keys)).Times(speed);
      var move := Evaluate(Move(v), e, f, w);
      Evaluate(MoveFromInput(speed, stale), e, f, w) == Step(move.outcome, MoveFromInput(speed, v), move.world)
  {
  }

  /** The two conditions never run and leave the tree and the store as they
      were. */
  lemma ConditionsChangeNothing(n: Node, e: Entity, f: FrameInput, w: Store)
    requires n.CheckInput? || n.IsNear?
    ensures var r := Evaluate(n, e, f, w);
      r.outcome != Ticked(Running) && r.node == n && r.world == w
  {
  }

  /** `CheckInput` succeeds exactly when right and left, or up and down, are
      not pressed alike. */
  lemma CheckInputMeansSomeAxis(e: Entity, f: FrameInput, w: Store)
    ensures var k := f.keys;
      Evaluate(CheckInput, e, f, w).outcome == Ticked(Success) <==> k.d != k.a || k.w != k.s
  {
  }
}
