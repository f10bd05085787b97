/**
 * Resolve, resolve and runDirectives (resolver.go:157-229) as functions on
 * Node values.  The executors are the `exec` parameter; what the resolve
 * step leaves in a node's value slot is an Outcome's value.
 */
module Resolution {
  import opened Wrappers
  import opened Types
  import opened Nodes

  /** The resolve options of Resolve, applied in order to context.Background(). */
  function FoldContext(ctx: Context, opts: seq<ResolveOption>): Context
    decreases |opts|
  {
    if |opts| == 0 then ctx else FoldContext(opts[0](ctx), opts[1..])
  }

  /**
   * The loop of runDirectives from directive `k` on: each directive is run on
   * the value slot by the executor the node's namespace has for its name.
   */
  function RunFrom(l: Label, k: nat, ctx: Context, v: Value, exec: Execute): Outcome
    requires k <= |l.directives|
    decreases |l.directives| - k
  {
    if k == |l.directives| then Outcome(v, None)
    else
      var d := l.directives[k];
      var exe := if l.context.namespace.Some? then LookupExecutor(l.context.namespace.value, d.name) else None;
      match exe
      case None => Outcome(v, Some(DirectiveExecutionError(d, MissingExecutorError)))
      case Some(e) =>
        var o := exec(e, DirectiveRuntime(d, l, ctx, v));
        match o.err
        case Some(cause) => Outcome(o.value, Some(DirectiveExecutionError(d, cause)))
        case None => RunFrom(l, k + 1, ctx, o.value, exec)
  }

  /** runDirectives */
  function RunDirectives(l: Label, ctx: Context, v: Value, exec: Execute): Outcome {
    RunFrom(l, 0, ctx, v, exec)
  }

  /**
   * resolve: the directives run on a zero value of the node's type; a node
   * with children then has each child resolved in order into the field at
   * the child's index, of a freshly allocated struct when the node's type is
   * a pointer.  The first failing child stops the loop.
   */
  function ResolveNode(n: Node, ctx: Context, exec: Execute): Outcome
    decreases n, 1
  {
    var ran := RunDirectives(n.Label(), ctx, Zero(n.typ), exec);
    if ran.err.Some? || |n.children| == 0 then ran
    else
      var target := if n.typ.Ptr? then Zero(n.typ.elem) else ran.value;
      var res := AssembleFrom(n, 0, target, ctx, exec);
      Outcome(if n.typ.Ptr? then PtrVal(Some(res.value)) else res.value, res.err)
  }

  /** The child loop of resolve from child `k` on, writing into `target`. */
  function AssembleFrom(n: Node, k: nat, target: Value, ctx: Context, exec: Execute): Outcome
    requires k <= |n.children|
    decreases n, 0, |n.children| - k
  {
    if k == |n.children| then Outcome(target, None)
    else
      var c := n.children[k];
      assert c in n.children;
      var o := ResolveNode(c, ctx, exec);
      if o.err.Some? then Outcome(target, Some(ResolveError(c.Label(), o.err.value)))
      else AssembleFrom(n, k + 1, SetField(target, c.index, o.value), ctx, exec)
  }

  /** Resolve */
  function Resolve(n: Node, opts: seq<ResolveOption>, exec: Execute): Outcome {
    ResolveNode(n, FoldContext(BACKGROUND, opts), exec)
  }
}
