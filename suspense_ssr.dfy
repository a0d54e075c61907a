/**
 * Server rendering of a suspense boundary: synchronous HTML, and streamed
 * HTML where the boundary races "every task finished" against "a local
 * resource was read" and picks how to write itself from how far that race got
 * synchronously.
 */
module SuspenseSsr {
  import opened Wrappers
  import opened SuspenseTypes

  // ---------------------------------------------------------------------------
  // The tasks-empty notifier: an effect that sends on a one-shot channel the
  // first time it observes an empty task set.

  /** The sending half of a one-shot channel of `()`. */
  datatype Sender = Sender

  /** Whether the notifier still holds its sender after observing `observed`,
      having started with it (`armed`) or not. */
  function StillArmed(armed: bool, observed: seq<TaskSet>): (r: bool)
    ensures r <==> armed && forall i :: 0 <= i < |observed| ==> observed[i] != {}
    decreases observed
  {
    if observed == [] then armed else StillArmed(armed && observed[0] != {}, observed[1..])
  }

  /** Whether each run of the notifier sends, over the task sets it observes. */
  function NotifierSends(armed: bool, observed: seq<TaskSet>): (sends: seq<bool>)
    ensures |sends| == |observed|
    decreases observed
  {
    if observed == [] then []
    else
      var send := armed && observed[0] == {};
      [send] + NotifierSends(armed && !send, observed[1..])
  }

  /** The notifier sends on the run that first observes an empty task set, and
      on no other run: at most once, and only on an empty task set. */
  lemma {:induction false} NotifierSendsAt(armed: bool, observed: seq<TaskSet>, i: nat)
    requires i < |observed|
    ensures NotifierSends(armed, observed)[i] <==>
              armed && observed[i] == {} && forall j :: 0 <= j < i ==> observed[j] != {}
    decreases i
  {
    if i > 0 {
      var send := armed && observed[0] == {};
      NotifierSendsAt(armed && !send, observed[1..], i - 1);
      assert forall j :: 1 <= j < i ==> observed[j] == observed[1..][j - 1];
    }
  }

  lemma NotifierSendsAtMostOnce(observed: seq<TaskSet>, i: nat, k: nat)
    requires i < |observed| && k < |observed|
    requires NotifierSends(true, observed)[i] && NotifierSends(true, observed)[k]
    ensures i == k
  {
    NotifierSendsAt(true, observed, i);
    NotifierSendsAt(true, observed, k);
  }

  /** Observing one more task set extends the runs by one. */
  lemma {:induction false} NotifierSendsSnoc(armed: bool, observed: seq<TaskSet>, tasks: TaskSet)
    ensures NotifierSends(armed, observed + [tasks]) ==
              NotifierSends(armed, observed) + [StillArmed(armed, observed) && tasks == {}]
    ensures StillArmed(armed, observed + [tasks]) == (StillArmed(armed, observed) && tasks != {})
    decreases observed
  {
    if observed != [] {
      assert (observed + [tasks])[1..] == observed[1..] + [tasks];
      NotifierSendsSnoc(armed && observed[0] != {}, observed[1..], tasks);
    }
  }

  class TasksEmptyNotifier {
    /** `tasks_tx`: taken when the notifier sends. */
    var tasksTx: Option<Sender>
    /** The task set seen by each run. */
    ghost var observed: seq<TaskSet>
    /** Whether each run sent. */
    ghost var sends: seq<bool>

    ghost predicate Valid()
      reads this
    {
      && sends == NotifierSends(true, observed)
      && tasksTx.Some? == StillArmed(true, observed)
    }

    constructor ()
      ensures Valid() && tasksTx == Some(Sender) && observed == []
    {
      tasksTx, observed, sends := Some(Sender), [], [];
    }

    /** One run of the effect, observing the task set `tasks`. */
    method Run(tasks: TaskSet) returns (sent: bool)
      requires Valid()
      modifies this
      ensures Valid()
      ensures sent <==> tasks == {} && old(tasksTx).Some?
      ensures tasksTx == if sent then None else old(tasksTx)
      ensures observed == old(observed) + [tasks] && sends == old(sends) + [sent]
    {
      NotifierSendsSnoc(true, observed, tasks);
      sent := false;
      if tasks == {} {
        if tasksTx.Some? {
          tasksTx := None;
          sent := true;
        }
      }
      observed := observed + [tasks];
      sends := sends + [sent];
    }
  }

  // ---------------------------------------------------------------------------
  // The race. `select!` picks among whichever branches are ready, so the
  // race is a function of the order in which the events happen; every order
  // the scheduler may produce is one input.

  datatype RaceEvent =
    | LocalResourceRead                 // the local-resource receiver completes
    | TasksEmpty                        // the tasks-empty receiver completes
    | ChildrenResolved(content: View)   // resolving the children completes

  datatype RaceState =
    | AwaitingTasks                     // the outer select
    | ResolvingChildren                 // the inner select, after the tasks finished
    | Settled(result: Option<View>)     // `None`: the chunk is incomplete

  function RaceStep(s: RaceState, e: RaceEvent): (t: RaceState)
    ensures s.Settled? ==> t == s
    ensures e.LocalResourceRead? && !s.Settled? ==> t == Settled(None)
    ensures t.Settled? && t.result.Some? ==> s.Settled? || (s.ResolvingChildren? && e == ChildrenResolved(t.result.value))
  {
    match s
    case AwaitingTasks =>
      (match e
       case LocalResourceRead => Settled(None)
       case TasksEmpty => ResolvingChildren
       case ChildrenResolved(_) => AwaitingTasks)
    case ResolvingChildren =>
      (match e
       case LocalResourceRead => Settled(None)
       case TasksEmpty => ResolvingChildren
       case ChildrenResolved(content) => Settled(Some(content)))
    case Settled(_) => s
  }

  /** The race after the events `events`, in order. */
  function RaceAfter(s: RaceState, events: seq<RaceEvent>): (t: RaceState)
    ensures s.Settled? ==> t == s
    ensures !s.Settled? && t == Settled(None) ==> LocalResourceRead in events
    ensures !s.Settled? && t.Settled? && t.result.Some? ==> ChildrenResolved(t.result.value) in events
    ensures s == AwaitingTasks && (t.ResolvingChildren? || (t.Settled? && t.result.Some?)) ==> TasksEmpty in events
    decreases events
  {
    if events == [] then s else RaceAfter(RaceStep(s, events[0]), events[1..])
  }

  /** `now_or_never` on the race future after the events that happened
      synchronously: `None` while it is still pending. */
  function NowOrNever(events: seq<RaceEvent>): (poll: Option<Option<View>>)
    ensures poll == Some(None) ==> LocalResourceRead in events
    ensures poll.Some? && poll.value.Some? ==>
              TasksEmpty in events && ChildrenResolved(poll.value.value) in events
    ensures events == [] ==> poll.None?
  {
    match RaceAfter(AwaitingTasks, events)
    case Settled(result) => Some(result)
    case _ => None
  }

  lemma {:induction false} RaceAfterAppend(s: RaceState, a: seq<RaceEvent>, b: seq<RaceEvent>)
    ensures RaceAfter(s, a + b) == RaceAfter(RaceAfter(s, a), b)
    decreases a
  {
    if a != [] {
      assert (a + b)[1..] == a[1..] + b;
      RaceAfterAppend(RaceStep(s, a[0]), a[1..], b);
    } else {
      assert a + b == b;
    }
  }

  /** Once settled, the outcome never changes. */
  lemma {:induction false} SettledIsFinal(result: Option<View>, events: seq<RaceEvent>)
    ensures RaceAfter(Settled(result), events) == Settled(result)
    decreases events
  {
    if events != [] {
      SettledIsFinal(result, events[1..]);
    }
  }

  /** Events that leave a race in `s` where it is. */
  lemma {:induction false} RaceIgnores(s: RaceState, events: seq<RaceEvent>)
    requires s == AwaitingTasks || s == ResolvingChildren
    requires forall i :: 0 <= i < |events| ==>
               events[i] != LocalResourceRead && (s == AwaitingTasks ==> events[i] != TasksEmpty)
                 && (s == ResolvingChildren ==> events[i] == TasksEmpty)
    ensures RaceAfter(s, events) == s
    decreases events
  {
    if events != [] {
      RaceIgnores(s, events[1..]);
    }
  }

  /** A local resource read taken before the tasks-empty event makes the chunk
      incomplete, whatever happens afterwards. The order is the one in which
      `select!` takes the events, not the one in which they complete: when
      both receivers are ready at the same poll, `select!` picks either, and
      each pick is a different event order. */
  lemma LocalReadBeforeTasksIsIncomplete(before: seq<RaceEvent>, after: seq<RaceEvent>)
    requires forall i :: 0 <= i < |before| ==> before[i] != LocalResourceRead && before[i] != TasksEmpty
    ensures RaceAfter(AwaitingTasks, before + [LocalResourceRead] + after) == Settled(None)
  {
    RaceIgnores(AwaitingTasks, before);
    RaceAfterAppend(AwaitingTasks, before, [LocalResourceRead]);
    RaceAfterAppend(AwaitingTasks, before + [LocalResourceRead], after);
    SettledIsFinal(None, after);
  }

  /** A local resource read while the children are being resolved still makes
      the chunk incomplete. */
  lemma LocalReadWhileResolvingIsIncomplete(before: seq<RaceEvent>, between: seq<RaceEvent>, after: seq<RaceEvent>)
    requires forall i :: 0 <= i < |before| ==> before[i] != LocalResourceRead && before[i] != TasksEmpty
    requires forall i :: 0 <= i < |between| ==> between[i] == TasksEmpty
    ensures RaceAfter(AwaitingTasks, before + [TasksEmpty] + between + [LocalResourceRead] + after) == Settled(None)
  {
    RaceIgnores(AwaitingTasks, before);
    RaceIgnores(ResolvingChildren, between);
    RaceAfterAppend(AwaitingTasks, before, [TasksEmpty]);
    RaceAfterAppend(AwaitingTasks, before + [TasksEmpty], between);
    RaceAfterAppend(AwaitingTasks, before + [TasksEmpty] + between, [LocalResourceRead]);
    RaceAfterAppend(AwaitingTasks, before + [TasksEmpty] + between + [LocalResourceRead], after);
    SettledIsFinal(None, after);
  }

  /** When the tasks finish and then the children resolve with no local
      resource read in between, the race yields the resolved children. */
  lemma ChildrenResolvedAfterTasksIsContent(before: seq<RaceEvent>, between: seq<RaceEvent>, content: View, after: seq<RaceEvent>)
    requires forall i :: 0 <= i < |before| ==> before[i] != LocalResourceRead && before[i] != TasksEmpty
    requires forall i :: 0 <= i < |between| ==> between[i] == TasksEmpty
    ensures RaceAfter(AwaitingTasks, before + [TasksEmpty] + between + [ChildrenResolved(content)] + after) == Settled(Some(content))
  {
    RaceIgnores(AwaitingTasks, before);
    RaceIgnores(ResolvingChildren, between);
    RaceAfterAppend(AwaitingTasks, before, [TasksEmpty]);
    RaceAfterAppend(AwaitingTasks, before + [TasksEmpty], between);
    RaceAfterAppend(AwaitingTasks, before + [TasksEmpty] + between, [ChildrenResolved(content)]);
    RaceAfterAppend(AwaitingTasks, before + [TasksEmpty] + between + [ChildrenResolved(content)], after);
    SettledIsFinal(Some(content), after);
  }

  // ---------------------------------------------------------------------------
  // Writing the boundary into a stream.

  /** A deferred in-order unit: when run, it writes into a fresh builder with
      chunk id `chunk`, at a copy of the position it was created at. */
  datatype DeferredUnit = DeferredUnit(chunk: ChunkId, at: Position, fallback: View)

  /** The calls the boundary makes on the stream builder. */
  datatype StreamOp =
    | WriteContent(content: View, at: Position)          // `Either::Right(resolved)` written here
    | WriteFallback(fallback: View, at: Position)        // `Either::Left(fallback)` written here
    | PushFallback(fallback: View, at: Position)         // fallback wrapped in suspense markers
    | PushAsyncOutOfOrder(chunk: ChunkId, at: Position)  // the race future, spliced in later
    | PushAsync(unit: DeferredUnit)                      // the race future, in document order

  predicate WritesFallback(ops: seq<StreamOp>)
  {
    exists i :: 0 <= i < |ops| && (ops[i].WriteFallback? || ops[i].PushFallback?)
  }

  predicate WritesContent(ops: seq<StreamOp>)
  {
    exists i :: 0 <= i < |ops| && ops[i].WriteContent?
  }

  /** What the boundary writes, and the position it leaves, given the
      synchronous poll of the race. */
  function Dispatch(poll: Option<Option<View>>, outOfOrder: bool, fallback: View, chunk: ChunkId, position: Position)
    : (r: (seq<StreamOp>, Position))
    ensures WritesContent(r.0) <==> poll.Some? && poll.value.Some?
    ensures WritesFallback(r.0) <==> poll == Some(None) || (poll.None? && outOfOrder)
    ensures r.1 == if poll.None? && !outOfOrder then NextChild else position
    ensures poll.Some? ==> |r.0| == 1 && r.0[0].at == position
    ensures poll.Some? && poll.value.Some? ==> r.0 == [WriteContent(poll.value.value, position)]
    ensures poll.None? && outOfOrder ==>
              r.0 == [PushFallback(fallback, position), PushAsyncOutOfOrder(chunk, position)]
    ensures poll.None? && !outOfOrder ==> r.0 == [PushAsync(DeferredUnit(chunk, position, fallback))]
  {
    match poll
    case Some(Some(resolved)) =>
      var ops := [WriteContent(resolved, position)];
      assert ops[0].WriteContent?;
      (ops, position)
    case Some(None) =>
      var ops := [WriteFallback(fallback, position)];
      assert ops[0].WriteFallback?;
      (ops, position)
    case None =>
      if outOfOrder then
        var ops := [PushFallback(fallback, position), PushAsyncOutOfOrder(chunk, position)];
        assert ops[0].PushFallback?;
        (ops, position)
      else
        ([PushAsync(DeferredUnit(chunk, position, fallback))], NextChild)
  }

  /** Running a deferred in-order unit once the race settles: the fallback if
      the chunk is incomplete, the resolved children otherwise, at the
      position the unit was created at. */
  function RunDeferred(unit: DeferredUnit, result: Option<View>): (op: StreamOp)
    ensures (op.WriteFallback? || op.WriteContent?) && op.at == unit.at
    ensures op.WriteFallback? <==> result.None?
    ensures op.WriteFallback? ==> op.fallback == unit.fallback
    ensures op.WriteContent? ==> result == Some(op.content)
  {
    match result
    case None => WriteFallback(unit.fallback, unit.at)
    case Some(content) => WriteContent(content, unit.at)
  }

  /** The streaming builder: its current chunk id and the calls made on it. */
  class StreamBuilder {
    var id: ChunkId
    var ops: seq<StreamOp>

    constructor (id: ChunkId)
      ensures this.id == id && ops == []
    {
      this.id, ops := id, [];
    }

    method NextId()
      modifies this
      ensures id == old(id) + 1 && ops == old(ops)
    {
      id := id + 1;
    }

    method Push(op: StreamOp)
      modifies this
      ensures ops == old(ops) + [op] && id == old(id)
    {
      ops := ops + [op];
    }
  }

  /** `to_html_async_with_buf`: takes a chunk id, races, and writes according
      to how far the race got synchronously (`syncEvents` are the events that
      happened before the poll). A local read that wins while polled records
      the boundary's id as incomplete in the shared context. */
  method ToHtmlAsyncWithBuf(
    b: SuspenseBoundary, buf: StreamBuilder, sc: SharedContext?, position: Position,
    outOfOrder: bool, syncEvents: seq<RaceEvent>)
    returns (newPosition: Position)
    requires sc == null ==> NowOrNever(syncEvents) != Some(None)
    modifies buf, sc
    ensures buf.id == old(buf.id) + 1
    ensures sc != null ==> sc.nextId == old(sc.nextId)
    ensures var d := Dispatch(NowOrNever(syncEvents), outOfOrder, b.fallback, buf.id, position);
            buf.ops == old(buf.ops) + d.0 && newPosition == d.1
    ensures sc != null ==>
              sc.incompleteChunks ==
                old(sc.incompleteChunks) + (if NowOrNever(syncEvents) == Some(None) then {b.id} else {})
  {
    buf.NextId();
    var poll := NowOrNever(syncEvents);
    newPosition := position;
    match poll {
      case Some(Some(resolved)) =>
        buf.Push(WriteContent(resolved, position));
      case Some(None) =>
        sc.SetIncompleteChunk(b.id);
        buf.Push(WriteFallback(b.fallback, position));
      case None =>
        var id := buf.id;
        if outOfOrder {
          var fallbackPosition := position;
          buf.Push(PushFallback(b.fallback, fallbackPosition));
          buf.Push(PushAsyncOutOfOrder(id, position));
        } else {
          buf.Push(PushAsync(DeferredUnit(id, position, b.fallback)));
          newPosition := NextChild;
        }
    }
  }

  /** The synchronous HTML buffer: the views written into it, in order. */
  class HtmlBuffer {
    var written: seq<View>

    constructor ()
      ensures written == []
    {
      written := [];
    }
  }

  /** `to_html_with_buf`: synchronous rendering cannot wait, so it writes the
      fallback and nothing else. */
  method ToHtmlWithBuf(b: SuspenseBoundary, buf: HtmlBuffer)
    modifies buf
    ensures buf.written == old(buf.written) + [b.fallback]
  {
    buf.written := buf.written + [b.fallback];
  }

  /** `add_any_attr`: the attribute goes to the children only. */
  function AddAnyAttr(b: SuspenseBoundary, attr: Attr): (r: SuspenseBoundary)
    ensures r.transition == b.transition && r.id == b.id
    ensures r.nonePending == b.nonePending && r.fallback == b.fallback
    ensures r.children == WithAttr(b.children, attr)
  {
    b.(children := WithAttr(b.children, attr))
  }

  /** `dry_resolve` does nothing: a nested boundary resolves itself. */
  function DryResolve(b: SuspenseBoundary): (r: SuspenseBoundary)
    ensures r == b
  {
    b
  }

  /** `resolve` returns the boundary unchanged. */
  function Resolve(b: SuspenseBoundary): (r: SuspenseBoundary)
    ensures r == b
  {
    b
  }
}
