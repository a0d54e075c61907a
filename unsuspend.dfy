/**
 * `Unsuspend`: a view whose construction is deferred until it is rendered,
 * so that resource reads made while constructing it happen after the
 * enclosing boundary has looked at its tasks. Each operation returns, in
 * order, the effects it has: calling the wrapped function, and rendering the
 * view it returned.
 */
module UnsuspendView {
  import opened SuspenseTypes

  /** The boxed one-shot function that produces the view. */
  datatype Unsuspend = Unsuspend(fun: () -> View)

  /** The rendering operations of a view. */
  datatype RenderOp =
    | Build
    | Rebuild
    | ToHtml
    | ToHtmlAsync(outOfOrder: bool)
    | Hydrate(fromServer: bool)

  datatype Effect =
    | FunctionCalled              // the wrapped function runs
    | Rendered(op: RenderOp, view: View)

  /** How many times the wrapped function runs among `effects`. */
  function Calls(effects: seq<Effect>): (n: nat)
    ensures n <= |effects|
    ensures n == 0 <==> forall i :: 0 <= i < |effects| ==> effects[i] != FunctionCalled
  {
    if effects == [] then 0
    else (if effects[0] == FunctionCalled then 1 else 0) + Calls(effects[1..])
  }

  /** `build`, `rebuild`, `to_html_with_buf`, `to_html_async_with_buf` and
      `hydrate`: call the function once, then apply the same operation to
      the view it returned. */
  function Render(u: Unsuspend, op: RenderOp): (effects: seq<Effect>)
    ensures Calls(effects) == 1
    ensures effects[0] == FunctionCalled
    ensures effects[|effects| - 1] == Rendered(op, u.fun())
  {
    var effects := [FunctionCalled, Rendered(op, u.fun())];
    assert effects[1..] == [Rendered(op, u.fun())];
    assert effects[1..][1..] == [];
    effects
  }

  /** `dry_resolve` does nothing; in particular it does not call the function. */
  function DryResolve(u: Unsuspend): (r: (Unsuspend, seq<Effect>))
    ensures r.0 == u && Calls(r.1) == 0
  {
    (u, [])
  }

  /** `resolve` returns the wrapper as it is, without calling the function. */
  function Resolve(u: Unsuspend): (r: (Unsuspend, seq<Effect>))
    ensures r.0 == u && Calls(r.1) == 0
  {
    (u, [])
  }

  /** `add_any_attr` wraps a new function that adds the attribute to what the
      old one returns; nothing is called now. */
  function AddAnyAttr(u: Unsuspend, attr: Attr): (r: (Unsuspend, seq<Effect>))
    ensures r.0.fun() == WithAttr(u.fun(), attr)
    ensures Calls(r.1) == 0
  {
    (Unsuspend(() => WithAttr(u.fun(), attr)), [])
  }

  /** Adding an attribute and rendering later still calls the function once,
      at render time, and renders its view with the attribute added. */
  lemma AttrIsAppliedAtRender(u: Unsuspend, attr: Attr, op: RenderOp)
    ensures var added := AddAnyAttr(u, attr);
            Calls(added.1 + Render(added.0, op)) == 1
            && (added.1 + Render(added.0, op))[0] == FunctionCalled
            && Render(added.0, op)[|Render(added.0, op)| - 1] == Rendered(op, WithAttr(u.fun(), attr))
  {
    var added := AddAnyAttr(u, attr);
    assert added.1 + Render(added.0, op) == Render(added.0, op);
  }
}
