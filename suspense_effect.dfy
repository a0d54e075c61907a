/**
 * The render effect a boundary installs when it is built or hydrated. On
 * every run it decides whether the keep-alive switch shows the fallback
 * (`show_b`), hands the children and the fallback to the switch on the first
 * run only, and afterwards rebuilds the same switch state in place.
 */
module SuspenseEffect {
  import opened Wrappers
  import opened SuspenseTypes
  import opened SuspenseReadiness

  /** Runs before which a transition may still show its fallback, when built. */
  const BuildRunLimit: nat := 2
  /** The same limit when hydrating. */
  const HydrateRunLimit: nat := 1

  /** `show_b` of one run: the fallback is shown only while something is
      pending and, for a transition, only during its first runs. */
  function ShowFallback(ready: bool, transition: bool, nthRun: nat, runLimit: nat): (showB: bool)
    ensures showB ==> !ready
    ensures !transition ==> (showB <==> !ready)
    ensures transition ==> (showB <==> !ready && nthRun < runLimit)
  {
    !ready && (!transition || nthRun < runLimit)
  }

  /** The value handed to the keep-alive switch on one run: the children
      (`a`) and the fallback (`b`), each present only if not yet taken, and
      which of the two to show. */
  datatype KeepAlive = KeepAlive(a: Option<View>, b: Option<View>, showB: bool)

  /** The calls the effect makes on the keep-alive switch. */
  datatype SwitchCall =
    | BuildSwitch(view: KeepAlive)
    | HydrateSwitch(view: KeepAlive)
    | RebuildSwitch(view: KeepAlive)

  /** The switch state the effect keeps between runs, identified by the call
      that created it; rebuilding it changes it in place, not its identity. */
  datatype SwitchState = SwitchState(createdBy: SwitchCall)

  class BoundaryEffect {
    const transition: bool
    /** Installed by `hydrate` (true) or by `build` (false). */
    const hydrating: bool
    ghost const initialChildren: View
    ghost const initialFallback: View

    var children: Option<View>
    var fallback: Option<View>
    var nthRun: nat
    /** The effect's previous output: `None` before the first run. */
    var state: Option<SwitchState>
    /** Every call made on the keep-alive switch, in order. */
    var calls: seq<SwitchCall>
    /** The readiness seen by each run. */
    ghost var readies: seq<bool>

    function RunLimit(): nat
    {
      if hydrating then HydrateRunLimit else BuildRunLimit
    }

    /** The call that creates the switch state on the first run. */
    function FirstCall(view: KeepAlive): (c: SwitchCall)
      ensures c.view == view
    {
      if hydrating then HydrateSwitch(view) else BuildSwitch(view)
    }

    ghost predicate Valid()
      reads this
    {
      && nthRun == |calls| == |readies|
      && (nthRun == 0 <==> state.None?)
      && (nthRun == 0 ==> children == Some(initialChildren) && fallback == Some(initialFallback))
      && (nthRun > 0 ==>
            && children.None? && fallback.None?
            && calls[0] == FirstCall(KeepAlive(Some(initialChildren), Some(initialFallback), calls[0].view.showB))
            && state == Some(SwitchState(calls[0])))
      && (forall i :: 0 < i < |calls| ==> calls[i] == RebuildSwitch(KeepAlive(None, None, calls[i].view.showB)))
      && (forall i :: 0 <= i < |calls| ==> calls[i].view.showB == ShowFallback(readies[i], transition, i, RunLimit()))
    }

    /** `SuspenseBoundary::build`: installs the effect (its first run follows). */
    constructor Build(b: SuspenseBoundary)
      ensures Valid() && !hydrating && transition == b.transition
      ensures initialChildren == b.children && initialFallback == b.fallback
      ensures nthRun == 0 && calls == []
    {
      transition, hydrating := b.transition, false;
      initialChildren, initialFallback := b.children, b.fallback;
      children, fallback := Some(b.children), Some(b.fallback);
      nthRun, state, calls, readies := 0, None, [], [];
    }

    /** `SuspenseBoundary::hydrate`: installs the effect (its first run follows). */
    constructor Hydrate(b: SuspenseBoundary)
      ensures Valid() && hydrating && transition == b.transition
      ensures initialChildren == b.children && initialFallback == b.fallback
      ensures nthRun == 0 && calls == []
    {
      transition, hydrating := b.transition, true;
      initialChildren, initialFallback := b.children, b.fallback;
      children, fallback := Some(b.children), Some(b.fallback);
      nthRun, state, calls, readies := 0, None, [], [];
    }

    /** One run of the effect, `ready` being the value of `none_pending`. */
    method Run(ready: bool) returns (showB: bool)
      requires Valid()
      modifies this
      ensures Valid()
      ensures showB == ShowFallback(ready, transition, old(nthRun), RunLimit())
      ensures nthRun == old(nthRun) + 1 && readies == old(readies) + [ready]
      ensures children.None? && fallback.None?
      ensures old(state).None? ==>
                && calls == [FirstCall(KeepAlive(old(children), old(fallback), showB))]
                && state == Some(SwitchState(calls[0]))
      ensures old(state).Some? ==>
                && calls == old(calls) + [RebuildSwitch(KeepAlive(None, None, showB))]
                && state == old(state)
    {
      showB := !ready && (!transition || nthRun < RunLimit());
      nthRun := nthRun + 1;
      var view := KeepAlive(children, fallback, showB);
      children, fallback := None, None;
      if state.Some? {
        calls := calls + [RebuildSwitch(view)];
      } else {
        var call := FirstCall(view);
        calls := calls + [call];
        state := Some(SwitchState(call));
      }
      readies := readies + [ready];
    }
  }

  /** What `rebuild` does to mounted nodes, in order: the new effect's nodes
      are inserted before the old one's, and the old one's are unmounted. */
  datatype MountOp =
    | InsertBefore(inserted: BoundaryEffect, anchor: BoundaryEffect)
    | Unmount(removed: BoundaryEffect)

  /** The caller's slot holding a boundary's render effect, with the mount
      operations made on the effects it has held. */
  class MountedBoundary {
    var effect: BoundaryEffect
    var log: seq<MountOp>

    constructor(effect: BoundaryEffect)
      ensures this.effect == effect && log == []
    {
      this.effect := effect;
      log := [];
    }

    /** `SuspenseBoundary::rebuild`: builds a fresh effect, whose first run
        happens at once with a run counter starting again from 0, puts it in
        the slot in place of the old one, then inserts its nodes before the
        old effect's and unmounts the old effect. */
    method Rebuild(b: SuspenseBoundary, ready: bool)
      modifies this
      ensures fresh(effect) && effect.Valid()
      ensures !effect.hydrating && effect.transition == b.transition
      ensures effect.nthRun == 1 && effect.readies == [ready]
      ensures effect.calls == [BuildSwitch(KeepAlive(Some(b.children), Some(b.fallback),
                                                     ShowFallback(ready, b.transition, 0, BuildRunLimit)))]
      ensures effect.state == Some(SwitchState(effect.calls[0]))
      ensures log == old(log) + [InsertBefore(effect, old(effect)), Unmount(old(effect))]
    {
      var built := new BoundaryEffect.Build(b);
      var showB := built.Run(ready);
      var previous := effect;
      effect := built;
      log := log + [InsertBefore(effect, previous)];
      log := log + [Unmount(previous)];
    }
  }

  /** A plain `Suspense` boundary, built, shows its fallback on the i-th run
      exactly when tasks are pending, except that a boundary the server left
      incomplete shows it on the first run whatever the task set holds. */
  lemma SuspenseShowsFallbackWhilePending(memo: ReadinessMemo, observed: seq<TaskSet>, i: nat)
    requires i < |observed|
    ensures ShowFallback(MemoValues(None, memo, observed)[i], false, i, BuildRunLimit) ==
              if i == 0 && memo.startsLocal then true else observed[i] != {}
  {
    MemoValuesAt(memo, observed, i);
  }

  /** A transition shows its fallback only during its first runs (two when
      built, one when hydrated), and then only while tasks are pending. */
  lemma TransitionFallbackOnlyEarly(memo: ReadinessMemo, observed: seq<TaskSet>, i: nat, runLimit: nat)
    requires i < |observed|
    ensures ShowFallback(MemoValues(None, memo, observed)[i], true, i, runLimit) ==
              (i < runLimit && (if i == 0 && memo.startsLocal then true else observed[i] != {}))
  {
    MemoValuesAt(memo, observed, i);
  }
}
