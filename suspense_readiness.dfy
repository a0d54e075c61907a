/**
 * Creating a `Suspense` boundary and its readiness signal `none_pending`:
 * true when the boundary may show its children.
 */
module SuspenseReadiness {
  import opened Wrappers
  import opened SuspenseTypes

  /** The `Suspense` component: takes an id from the shared context when there
      is one (and asks it whether the server left that chunk incomplete),
      otherwise uses id 0 and starts as not local. */
  method Suspense(sc: SharedContext?, fallback: View, children: View) returns (b: SuspenseBoundary)
    modifies sc
    ensures !b.transition && b.fallback == fallback && b.children == children
    ensures sc == null ==> b.id == 0 && !b.nonePending.startsLocal
    ensures sc != null ==>
              && b.id == old(sc.nextId) && sc.nextId == old(sc.nextId) + 1
              && sc.incompleteChunks == old(sc.incompleteChunks)
              && (b.nonePending.startsLocal <==> b.id in sc.incompleteChunks)
  {
    var startsLocal, id := false, 0;
    if sc != null {
      id := sc.NextId();
      startsLocal := sc.GetIncompleteChunk(id);
    }
    b := SuspenseBoundary(false, id, ReadinessMemo(startsLocal), fallback, children);
  }

  /** One evaluation of the `none_pending` memo; `prev` is the value of the
      previous evaluation, `None` on the first one. */
  function NonePending(prev: Option<bool>, memo: ReadinessMemo, tasks: TaskSet): (ready: bool)
    ensures ready ==> tasks == {}
    ensures prev.None? && memo.startsLocal ==> !ready
    ensures prev.Some? || !memo.startsLocal ==> (ready <==> tasks == {})
  {
    if prev.None? && memo.startsLocal then false else tasks == {}
  }

  /** The memo's values over successive evaluations, the i-th seeing the task
      set `observed[i]` and the value of the (i-1)-th as `prev`. */
  function MemoValues(prev: Option<bool>, memo: ReadinessMemo, observed: seq<TaskSet>): (values: seq<bool>)
    ensures |values| == |observed|
    decreases observed
  {
    if observed == [] then []
    else
      var v := NonePending(prev, memo, observed[0]);
      [v] + MemoValues(Some(v), memo, observed[1..])
  }

  /** Once evaluated, the memo is plain emptiness of the task set. */
  lemma {:induction false} MemoValuesAfterFirst(v: bool, memo: ReadinessMemo, observed: seq<TaskSet>, i: nat)
    requires i < |observed|
    ensures MemoValues(Some(v), memo, observed)[i] == (observed[i] == {})
    decreases i
  {
    if i > 0 {
      MemoValuesAfterFirst(NonePending(Some(v), memo, observed[0]), memo, observed[1..], i - 1);
    }
  }

  /** The readiness signal is false on its first evaluation when the boundary
      starts local, whatever the task set holds, and on every other
      evaluation it is true exactly when no task is pending. */
  lemma {:induction false} MemoValuesAt(memo: ReadinessMemo, observed: seq<TaskSet>, i: nat)
    requires i < |observed|
    ensures MemoValues(None, memo, observed)[i] ==
              if i == 0 && memo.startsLocal then false else observed[i] == {}
  {
    if i > 0 {
      MemoValuesAfterFirst(NonePending(None, memo, observed[0]), memo, observed[1..], i - 1);
    }
  }

  /** Without a shared context the boundary does not start local, so its
      readiness is emptiness of the task set from the first evaluation on. */
  lemma NoSharedContextReadiness(observed: seq<TaskSet>, i: nat)
    requires i < |observed|
    ensures MemoValues(None, ReadinessMemo(false), observed)[i] == (observed[i] == {})
  {
    MemoValuesAt(ReadinessMemo(false), observed, i);
  }
}
