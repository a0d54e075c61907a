# Suspense boundaries and parameter route segments, modelled in Dafny

This project models two pieces of a Rust web UI framework.

1. **Horizontal route matching for one path parameter and one wildcard.**
   `ParamSegment("a")` matches `:a` in a route and `WildcardSegment("rest")` matches `*rest`.
   Both scan a path one character at a time. Each consumes an optional leading `/`.
   The parameter segment then stops before the next `/`; the wildcard takes everything.
   A match returns the consumed prefix, the rest of the path and one `(name, value)` pair.
   `generate_path` appends one `PathSegment` to a vector.
2. **The suspense boundary.** A `Suspense` boundary shows a fallback while tasks registered by its
   children are pending, and the children once they are not. The model covers:
   - the readiness memo `none_pending`;
   - the render effect installed by `build` and `hydrate`, with its run counter and its take-once
     children and fallback;
   - the tasks-empty notifier;
   - the race between "all tasks finished" and "a local resource was read";
   - how `to_html_async_with_buf` writes the boundary given how far that race got synchronously;
   - synchronous `to_html_with_buf`, `add_any_attr`, `dry_resolve` and `resolve`;
   - the `Unsuspend` wrapper, which defers building a view until it is rendered.

Files:
- `wrappers.dfy`: module `Wrappers` (an `Option` type).
- `param_segments.dfy`: module `ParamSegments`.
- `suspense_types.dfy`: module `SuspenseTypes` (views, positions, the boundary value, the shared context).
- `suspense_readiness.dfy`: module `SuspenseReadiness`.
- `suspense_effect.dfy`: module `SuspenseEffect`.
- `suspense_ssr.dfy`: module `SuspenseSsr`.
- `unsuspend.dfy`: module `UnsuspendView`.

How the code is modelled:
- The matchers are proved against specification functions (`ParamMatch`, `WildcardMatch`).
  Their loops are methods with invariants. The `&mut Vec<PathSegment>` is a class `SegmentVec`.
- The render effect is a class `BoundaryEffect`. A run of the effect is a call to `Run`.
  Its invariant `Valid` ties each switch call to the readiness seen by that run.
- `select!` picks pseudo-randomly among ready branches. So the race is modelled as a function of
  the order in which its events happen (`RaceAfter`), and every order is a possible input.
  `now_or_never` is the race state after the events that happened before the poll.
- The stream builder and the HTML buffer record the calls made on them, in order.
- `Unsuspend` holds a Dafny function value. Its operations return the effects they have, in order.

The code computes `!none_pending && (!TRANSITION || nth_run < 2)` on build, and `< 1` on hydrate
(leptos/src/suspense_component.rs:162, :426). `Suspense` uses `TRANSITION = false` (:122), so it shows the
fallback exactly when `none_pending` is false: on the first run of a boundary the server left incomplete,
and otherwise whenever a task is pending.

## Model

| member | source | states |
|---|---|---|
| `ParamSegments.RunLength` | router/src/matching/horizontal/param_segments.rs:25-35 | the scan stops at the first `/`: no `/` before the result, and a `/` at it unless the input ran out |
| `ParamSegments.RunLengthIs` | router/src/matching/horizontal/param_segments.rs:25-35 | the run length is fixed by the position of the first `/` |
| `ParamSegments.ParamOffset` | router/src/matching/horizontal/param_segments.rs:20-24 | the offset is 1 exactly when the path starts with `/`, and 0 otherwise |
| `ParamSegments.ParamLen` | router/src/matching/horizontal/param_segments.rs:25-35 | the counted characters fit in the path after the offset |
| `ParamSegments.ParamMatch` | router/src/matching/horizontal/param_segments.rs:11-47 | `None` exactly for the empty path or a non-`/` first character followed by nothing or `/`; `"/"` matches; matched ++ remaining == path; the length of matched is `param_offset + param_len`; exactly one parameter, named by the segment; for a `/`-prefixed path: matched is `/` plus a `/`-free run, remaining is empty or starts with `/`, value is matched without its `/` |
| `ParamSegments.ParamSegment.Test` | router/src/matching/horizontal/param_segments.rs:11-47 | the character loop returns `ParamMatch`; its invariant is `matched_len == param_offset + param_len` |
| `ParamSegments.ParamSegment.GeneratePath` | router/src/matching/horizontal/param_segments.rs:49-51 | appends exactly `Param(name)` and keeps earlier elements |
| `ParamSegments.WildcardLen` | router/src/matching/horizontal/param_segments.rs:74-77 | the counted characters fit in the path after the offset |
| `ParamSegments.WildcardMatch` | router/src/matching/horizontal/param_segments.rs:60-85 | never `None`; matched ++ remaining == path; one parameter, named by the segment, valued by the path from `param_offset` to the end of matched; an empty or `/`-prefixed path is consumed whole with value `path[param_offset..]` |
| `ParamSegments.WildcardSegment.Test` | router/src/matching/horizontal/param_segments.rs:60-85 | the character loop returns `WildcardMatch`, with the same counter invariant |
| `ParamSegments.WildcardSegment.GeneratePath` | router/src/matching/horizontal/param_segments.rs:87-89 | appends exactly `Splat(name)` and keeps earlier elements |
| `ParamSegments.SingleParamMatch` | router/src/matching/horizontal/param_segments.rs:97-106 | `/foo` gives matched `/foo`, remaining empty, `("a", "foo")` |
| `ParamSegments.SingleParamMatchWithTrailingSlash` | router/src/matching/horizontal/param_segments.rs:108-117 | `/foo/` gives matched `/foo`, remaining `/`, `("a", "foo")` |
| `ParamSegments.TupleOfParamMatches` | router/src/matching/horizontal/param_segments.rs:119-129 | on `/foo/bar`, the first segment takes `/foo` and the second takes `/bar` from what is left |
| `ParamSegments.SplatShouldMatchAll` | router/src/matching/horizontal/param_segments.rs:131-144 | on `/////` the wildcard consumes everything and yields `////` |
| `ParamSegments.ParamMatchDropsFirstCharacter` | router/src/matching/horizontal/param_segments.rs:21-41 | as written, `foo` splits into `fo` and `o`; the intended match takes `foo` |
| `ParamSegments.IntendedParamMatch` | router/src/matching/horizontal/param_segments.rs:15-46 | corrected match: `None` only for the empty path; remaining is empty or starts with `/`; value is matched without a leading `/` and holds no `/` |
| `ParamSegments.ParamMatchAgreesOnSlashPaths` | router/src/matching/horizontal/param_segments.rs:15-46 | on empty and `/`-prefixed paths the code as written equals the corrected match |
| `ParamSegments.WildcardMatchDropsLastCharacter` | router/src/matching/horizontal/param_segments.rs:70-79 | as written, `abc` splits into `ab` and `c`; the intended match takes `abc` |
| `ParamSegments.IntendedWildcardMatch` | router/src/matching/horizontal/param_segments.rs:64-84 | corrected wildcard: consumes the whole path, value is the path without a leading `/` |
| `ParamSegments.WildcardMatchAgreesOnSlashPaths` | router/src/matching/horizontal/param_segments.rs:64-84 | on empty and `/`-prefixed paths the code as written equals the corrected wildcard |
| `SuspenseTypes.SharedContext.NextId` | leptos/src/suspense_component.rs:102 | hands out the next chunk id and advances the counter |
| `SuspenseTypes.SharedContext.SetIncompleteChunk` | leptos/src/suspense_component.rs:320 | adds the id to the incomplete chunks and changes nothing else |
| `SuspenseReadiness.Suspense` | leptos/src/suspense_component.rs:89-129 | builds a non-transition boundary; with a shared context it takes the next id and starts local iff that chunk is incomplete; without one, id 0 and not local |
| `SuspenseReadiness.NonePending` | leptos/src/suspense_component.rs:113-120 | false on the first evaluation of a boundary that starts local; otherwise true iff the task set is empty |
| `SuspenseReadiness.MemoValues` | leptos/src/suspense_component.rs:113-120 | successive evaluations of the memo, each given the previous value: one value per evaluation |
| `SuspenseReadiness.MemoValuesAfterFirst` | leptos/src/suspense_component.rs:113-120 | after its first evaluation the memo is plain emptiness of the task set |
| `SuspenseReadiness.MemoValuesAt` | leptos/src/suspense_component.rs:113-120 | over any run of evaluations: false on the first if the boundary starts local, else emptiness of the task set |
| `SuspenseReadiness.NoSharedContextReadiness` | leptos/src/suspense_component.rs:99-106 | a boundary that does not start local is ready exactly when no task is pending, from its first evaluation on |
| `SuspenseEffect.ShowFallback` | leptos/src/suspense_component.rs:156-163 | `show_b` implies not ready; for `Suspense` (no transition) it equals not ready; for a transition it also needs `nth_run` below the limit |
| `SuspenseEffect.BoundaryEffect.Build` | leptos/src/suspense_component.rs:149-155 | the effect starts with both children and fallback present, run counter 0 and no state; it stops before the effect's first run, which is a separate call to `Run` |
| `SuspenseEffect.BoundaryEffect.Hydrate` | leptos/src/suspense_component.rs:406-419 | the same, with the hydration run limit; the first run is likewise a separate call to `Run` |
| `SuspenseEffect.BoundaryEffect.Run` | leptos/src/suspense_component.rs:156-179 | computes `show_b` from the readiness and the old counter, increments the counter by one, takes children and fallback; the first run builds (or hydrates) a switch from both, every later run rebuilds the same state with neither |
| `SuspenseEffect.MountedBoundary.Rebuild` | leptos/src/suspense_component.rs:182-187 | the slot now holds a freshly built effect that has had its first run: counter 1, one `BuildSwitch` call with both children and fallback and the `show_b` of run 0; the log grows by exactly inserting the new effect before the old one, then unmounting the old one, in that order |
| `SuspenseEffect.SuspenseShowsFallbackWhilePending` | leptos/src/suspense_component.rs:113-163 | a built `Suspense` shows the fallback on run i iff tasks are pending, and on run 0 whenever it starts local |
| `SuspenseEffect.TransitionFallbackOnlyEarly` | leptos/src/suspense_component.rs:156-163 | a transition shows its fallback only on runs below the limit, and then only when not ready |
| `SuspenseSsr.StillArmed` | leptos/src/suspense_component.rs:289-300 | the notifier still holds its sender exactly when it started with it and has observed no empty task set |
| `SuspenseSsr.NotifierSends` | leptos/src/suspense_component.rs:289-300 | whether each run of the notifier sends: one entry per observed task set |
| `SuspenseSsr.NotifierSendsAt` | leptos/src/suspense_component.rs:289-300 | the notifier sends on exactly the run that first observes an empty task set |
| `SuspenseSsr.NotifierSendsAtMostOnce` | leptos/src/suspense_component.rs:289-300 | no two runs send |
| `SuspenseSsr.NotifierSendsSnoc` | leptos/src/suspense_component.rs:289-300 | one more observation adds one run, which sends iff the sender is still held and the task set is empty |
| `SuspenseSsr.TasksEmptyNotifier.constructor` | leptos/src/suspense_component.rs:275-278 | the notifier starts holding its sender |
| `SuspenseSsr.TasksEmptyNotifier.Run` | leptos/src/suspense_component.rs:289-300 | sends iff the task set is empty and the sender is still held; after sending the sender slot is `None` |
| `SuspenseSsr.RaceStep` | leptos/src/suspense_component.rs:314-346 | a local read settles an unsettled race as incomplete; content can only come from resolving children after the tasks finished; a settled race stays settled |
| `SuspenseSsr.RaceAfter` | leptos/src/suspense_component.rs:314-346 | the two nested `select!` over an event order: a settled race stays settled; an incomplete outcome needs a local read; content needs a tasks-empty event and that children resolution among the events |
| `SuspenseSsr.NowOrNever` | leptos/src/suspense_component.rs:350 | the synchronous poll: pending when nothing happened; incomplete only after a local read; content only after tasks-empty and the children's resolution |
| `SuspenseSsr.RaceAfterAppend` | leptos/src/suspense_component.rs:314-346 | running events in two parts equals running them at once |
| `SuspenseSsr.SettledIsFinal` | leptos/src/suspense_component.rs:314-346 | once settled, later events change nothing |
| `SuspenseSsr.RaceIgnores` | leptos/src/suspense_component.rs:314-346 | events that are not ready in a select leave it waiting |
| `SuspenseSsr.LocalReadBeforeTasksIsIncomplete` | leptos/src/suspense_component.rs:314-322 | a local read taken by `select!` before the tasks-empty event settles the race as incomplete, whatever follows; "before" is the order `select!` takes events in, which may differ from the order they complete when both are ready at one poll |
| `SuspenseSsr.LocalReadWhileResolvingIsIncomplete` | leptos/src/suspense_component.rs:323-338 | a local read while the children resolve also settles it as incomplete |
| `SuspenseSsr.ChildrenResolvedAfterTasksIsContent` | leptos/src/suspense_component.rs:323-344 | tasks finished, then children resolved with no local read: the race yields those children |
| `SuspenseSsr.Dispatch` | leptos/src/suspense_component.rs:350-403 | settled with content: writes it inline; settled incomplete: writes the fallback inline; pending out-of-order: pushes the fallback at a copy of the position, then the async chunk; pending in-order: pushes one deferred unit and sets the position to `NextChild` |
| `SuspenseSsr.RunDeferred` | leptos/src/suspense_component.rs:383-399 | the deferred unit writes the fallback iff the race was incomplete, else the resolved children, at the saved position |
| `SuspenseSsr.StreamBuilder.NextId` | leptos/src/suspense_component.rs:265 | advances the builder's chunk id by one |
| `SuspenseSsr.StreamBuilder.Push` | leptos/src/suspense_component.rs:376-383 | appends exactly one call to the builder's calls and keeps its chunk id |
| `SuspenseSsr.ToHtmlAsyncWithBuf` | leptos/src/suspense_component.rs:256-404 | takes a chunk id, writes what `Dispatch` says for the synchronous poll, records the id as incomplete exactly when a local read settled the race, and leaves the context's id counter alone |
| `SuspenseSsr.ToHtmlWithBuf` | leptos/src/suspense_component.rs:245-254 | writes the fallback and nothing else |
| `SuspenseSsr.AddAnyAttr` | leptos/src/suspense_component.rs:203-223 | keeps id, readiness and fallback; only the children get the attribute |
| `SuspenseSsr.DryResolve` | leptos/src/suspense_component.rs:239 | leaves the boundary unchanged |
| `SuspenseSsr.Resolve` | leptos/src/suspense_component.rs:241-243 | returns the boundary unchanged |
| `UnsuspendView.Render` | leptos/src/suspense_component.rs:465-541 | build, rebuild, both HTML writers and hydrate call the function exactly once, first, then render exactly what it returned |
| `UnsuspendView.DryResolve` | leptos/src/suspense_component.rs:503 | does not call the function and keeps the wrapper |
| `UnsuspendView.Resolve` | leptos/src/suspense_component.rs:505-507 | does not call the function and returns the wrapper |
| `UnsuspendView.AddAnyAttr` | leptos/src/suspense_component.rs:482-491 | calls nothing now; the new function returns the old one's view with the attribute added |
| `UnsuspendView.AttrIsAppliedAtRender` | leptos/src/suspense_component.rs:482-491 | adding an attribute and then rendering calls the function once and renders its view with the attribute |

## Findings

| source | as written | input that shows it | evidently intended | confidence | as-written member | corrected member |
|---|---|---|---|---|---|---|
| router/src/matching/horizontal/param_segments.rs:21-41 | the first character is consumed even when it is not `/`, but only a `/` is counted, so the split falls one character short | `ParamSegment("a")` on `foo` gives matched `fo`, remaining `o`, value `fo` | a first character other than `/` belongs to the parameter: matched `foo`, remaining empty, value `foo` | medium; not executed; only paths that do not start with `/` reach it | `ParamSegments.ParamMatchDropsFirstCharacter` | `ParamSegments.IntendedParamMatch` |
| router/src/matching/horizontal/param_segments.rs:70-79 | the same skip in the wildcard leaves the last character unconsumed | `WildcardSegment("rest")` on `abc` gives matched `ab`, remaining `c` | the wildcard consumes the whole path | medium; not executed; only paths that do not start with `/` reach it | `ParamSegments.WildcardMatchDropsLastCharacter` | `ParamSegments.IntendedWildcardMatch` |

Paths that start with `/` are unaffected: `ParamMatchAgreesOnSlashPaths` and `WildcardMatchAgreesOnSlashPaths` prove
that the code as written and the corrected definitions agree on them.

## Left out

- The `PossibleRouteMatch` trait (router/src/matching/horizontal/mod.rs:15-24) is not declared. Dafny traits are not used here. Each segment is a datatype with `Test` and `GeneratePath` members of the trait's shape.
- Path lengths are counted in characters, where Rust counts UTF-8 bytes. The two agree on ASCII paths, and on every path that starts with `/`. A path that does not start with `/` and holds a multi-byte character is not modelled: there Rust's `split_at` may panic (for example on `aé`) or split elsewhere.
- `PathSegment` has only the two variants these segments produce. The static segment and tuple matching are not part of this model.
- The reactive graph is not modelled. This covers `ArcMemo`, `RenderEffect` scheduling, `Owner`, `provide_context` and `use_context`. A memo evaluation is a call to `NonePending` with the previous value. An effect run is a call to `BoundaryEffect.Run`.
- The shared hydration context is reduced to what the boundary uses: a chunk-id counter (`NextId`) and the set of incomplete chunks (`GetIncompleteChunk`, `SetIncompleteChunk`). Its serialization and resumption are not modelled.
- The task registry (a `SlotMap` inside the reactive graph) is a set of keys given to each evaluation.
- `SuspenseEffect.MountedBoundary.Rebuild`: the DOM work of `insert_before_this` and `unmount` (leptos/src/suspense_component.rs:185-186) is not performed. The two calls are recorded in the slot's log, in their order.
- `EitherKeepAlive` and its state belong to the rendering layer. The model records the calls made on the switch, not what the switch does with them. The first hydrate run also passes the `FROM_SERVER` flag, the cursor and the position state to the switch (leptos/src/suspense_component.rs:411-412, :441); `HydrateSwitch` does not record them.
- Futures are not modelled: the pending race future, and the chunks pushed later by `push_async_out_of_order` and `push_async`. The race is modelled as a function of its event order, and the in-order unit as `RunDeferred`.
- `drop(eff)` after the children resolve is not modelled.
- `Dispatch`: the inline writers and `push_async_out_of_order` receive `&mut position` and may move it. The model records the position they received and tracks only the assignment the boundary makes itself (`NextChild`).
- `ToHtmlAsyncWithBuf`: the `escape` and `mark_branches` flags, the dry pass over the children and the `unwrap` calls on the suspense context and owner (leptos/src/suspense_component.rs:266-267) are not modelled. The `expect("no shared context")` in both local-read arms (:319, :335) panics when there is no shared context; the method's precondition excludes that case instead of modelling the panic. Only a local read that wins before the poll records the chunk as incomplete; a later one would happen inside the pending future.
- `MIN_LENGTH` is not modelled.
- `Unsuspend::new` is the datatype constructor. The wrapped function's own effects (its resource reads) are represented only by the `FunctionCalled` effect.
- leptos/src/into_view.rs only delegates to the wrapped view. leptos_macro/src/params.rs generates code from token streams. Neither is modelled.
