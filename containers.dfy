/** The container exercises: reversing a list, and a render queue that
    collects draw calls and groups them by shader. */
module Containers {
  /** `invertir`: the elements of `l` in reverse order. */
  function Reverse(l: seq<int>): (r: seq<int>)
    ensures |r| == |l|
    ensures forall i | 0 <= i < |l| :: r[i] == l[|l| - 1 - i]
  {
    if l == [] then [] else Reverse(l[1..]) + [l[0]]
  }

  /** Reversing twice gives the list back. */
  lemma ReverseInvolution(l: seq<int>)
    ensures Reverse(Reverse(l)) == l
  {
  }

  /** Reversal turns a concatenation around. */
  lemma ReverseConcat(a: seq<int>, b: seq<int>)
    ensures Reverse(a + b) == Reverse(b) + Reverse(a)
  {
  }

  /** The reversal the unit test expects. */
  lemma ReverseExample()
    ensures Reverse([1, 5, 3, 8]) == [8, 3, 5, 1]
  {
  }

  type Object = int
  type Shader = int

  datatype DrawCall = DrawCall(object: Object, shader: Shader)

  /** Ordered by shader. */
  predicate Sorted(calls: seq<DrawCall>) {
    forall i, j | 0 <= i < j < |calls| :: calls[i].shader <= calls[j].shader
  }

  /** Calls that share a shader sit next to each other. */
  predicate Contiguous(calls: seq<DrawCall>) {
    forall i, j, k | 0 <= i < j < k < |calls| && calls[i].shader == calls[k].shader :: calls[j].shader == calls[i].shader
  }

  /** Every ordered queue groups its calls by shader. */
  lemma SortedIsContiguous(calls: seq<DrawCall>)
    requires Sorted(calls)
    ensures Contiguous(calls)
  {
    forall i, j, k | 0 <= i < j < k < |calls| && calls[i].shader == calls[k].shader
      ensures calls[j].shader == calls[i].shader
    {
      assert calls[i].shader <= calls[j].shader <= calls[k].shader;
    }
  }

  /** `RenderQueue`: the draw calls enqueued since the last `clear`, in the
      order `enqueue` and `sort` left them. */
  class RenderQueue {
    var calls: seq<DrawCall>

    constructor ()
      ensures calls == []
    {
      calls := [];
    }

    /** `drawCalls()`. */
    function DrawCalls(): seq<DrawCall>
      reads this
    {
      calls
    }

    /** `enqueue(obj, shader)`: appends one draw call. */
    method Enqueue(obj: Object, shader: Shader)
      modifies this
      ensures calls == old(calls) + [DrawCall(obj, shader)]
    {
      calls := calls + [DrawCall(obj, shader)];
    }

    /** `clear()`: empties the queue. */
    method Clear()
      modifies this
      ensures calls == []
    {
      calls := [];
    }

    /** `sort()`: orders the calls by shader, keeping exactly the same calls,
      so calls that share a shader end up contiguous. Insertion sort: each
      call sinks past the larger shaders before it. */
    method Sort()
      modifies this
      ensures Sorted(calls) && Contiguous(calls)
      ensures multiset(calls) == multiset(old(calls))
    {
      var a := calls;
      for i := 0 to |a|
        invariant |a| == |old(calls)|
        invariant Sorted(a[..i])
        invariant multiset(a) == multiset(old(calls))
      {
        a := Sink(a, i);
      }
      assert a[..|a|] == a;
      calls := a;
      SortedIsContiguous(calls);
    }
  }

  /** `calls` with the entries at `j - 1` and `j` exchanged. */
  function Swap(calls: seq<DrawCall>, j: nat): (r: seq<DrawCall>)
    requires 0 < j < |calls|
    ensures |r| == |calls| && multiset(r) == multiset(calls)
    ensures r[j - 1] == calls[j] && r[j] == calls[j - 1]
    ensures forall k | 0 <= k < |calls| && k != j - 1 && k != j :: r[k] == calls[k]
  {
    calls[j - 1 := calls[j]][j := calls[j - 1]]
  }

  /** One pass of insertion sort: the call at `i` moves down past every call
      before it with a larger shader, so the first `i + 1` calls are ordered. */
  method Sink(a: seq<DrawCall>, i: nat) returns (b: seq<DrawCall>)
    requires i < |a| && Sorted(a[..i])
    ensures |b| == |a| && Sorted(b[..i + 1])
    ensures multiset(b) == multiset(a)
  {
    b := a;
    var j := i;
    while j > 0 && b[j - 1].shader > b[j].shader
      invariant 0 <= j <= i && |b| == |a|
      invariant multiset(b) == multiset(a)
      invariant forall k, l | 0 <= k < l <= i && k != j && l != j :: b[k].shader <= b[l].shader
      invariant forall l | j < l <= i :: b[j].shader < b[l].shader
    {
      b := Swap(b, j);
      j := j - 1;
    }
    forall k, l | 0 <= k < l <= i
      ensures b[k].shader <= b[l].shader
    {
      if l == j && k < j - 1 {
        assert b[k].shader <= b[j - 1].shader;
      }
    }
  }

  /** After the first call whose shader differs from the first call's, every
      call has that second shader. */
  predicate AtMostTwoRuns(calls: seq<DrawCall>) {
    forall i, j | 0 <= i < j < |calls| && calls[i].shader != calls[0].shader :: calls[j].shader == calls[i].shader
  }

  /** The loop of the unit test that checks the sorted queue: it remembers
      the first shader, takes the first different one as the second, and from
      then on demands the second. Zero marks "no second shader yet", so the
      shaders it inspects are non-zero. */
  method CheckGrouped(calls: seq<DrawCall>) returns (ok: bool)
    requires |calls| > 0
    requires forall i | 0 <= i < |calls| :: calls[i].shader != 0
    ensures ok <==> AtMostTwoRuns(calls)
  {
    var first := calls[0].shader;
    var second := 0;
    ghost var p := 0;
    ok := true;
    for i := 0 to |calls|
      invariant second == 0 ==> forall k | 0 <= k < i :: calls[k].shader == first
      invariant second == 0 ==> ok
      invariant second != 0 ==> 0 < p < i && calls[p].shader == second && second != first
      invariant second != 0 ==> forall k | 0 <= k < p :: calls[k].shader == first
      invariant second != 0 ==> (ok <==> forall k | p < k < i :: calls[k].shader == second)
    {
      if second == 0 {
        if calls[i].shader != first {
          second := calls[i].shader;
          p := i;
        }
      } else {
        ok := ok && calls[i].shader == second;
      }
    }
  }

  /** A sorted queue over two shaders passes the unit test's check. */
  lemma SortedTwoShadersPass(calls: seq<DrawCall>, s0: Shader, s1: Shader)
    requires Sorted(calls)
    requires forall i | 0 <= i < |calls| :: calls[i].shader == s0 || calls[i].shader == s1
    ensures AtMostTwoRuns(calls)
  {
    forall i, j | 0 <= i < j < |calls| && calls[i].shader != calls[0].shader
      ensures calls[j].shader == calls[i].shader
    {
      assert calls[0].shader <= calls[i].shader <= calls[j].shader;
    }
  }

  /** The render-queue unit test: seven calls over two shaders, sorted, are
      still seven and pass the grouping check; after `clear` there are none. */
  method RenderQueueTest() returns (sortedSize: nat, grouped: bool, clearedSize: nat)
    ensures sortedSize == 7 && grouped && clearedSize == 0
  {
    var queue := new RenderQueue();
    var circle, triangle, square := 1, 2, 3;
    var sh0, sh1 := 1, 2;
    queue.Enqueue(circle, sh0);
    queue.Enqueue(circle, sh1);
    queue.Enqueue(triangle, sh0);
    queue.Enqueue(triangle, sh0);
    queue.Enqueue(square, sh1);
    queue.Enqueue(square, sh0);
    queue.Enqueue(triangle, sh0);
    ghost var before := queue.DrawCalls();
    queue.Sort();
    sortedSize := |queue.DrawCalls()|;
    forall i | 0 <= i < |queue.calls|
      ensures queue.calls[i].shader == sh0 || queue.calls[i].shader == sh1
    {
      assert queue.calls[i] in multiset(before);
    }
    SortedTwoShadersPass(queue.calls, sh0, sh1);
    grouped := CheckGrouped(queue.DrawCalls());
    queue.Clear();
    clearedSize := |queue.DrawCalls()|;
  }
}
