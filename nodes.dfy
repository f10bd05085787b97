/**
 * The value of a resolver tree: what a `*Resolver` and everything below it
 * hold, without object identity.  The class Resolvers.Resolver maps onto it
 * through its ghost function Abs().
 */
module Nodes {
  import opened Wrappers
  import opened Types

  datatype Node = Node(
    typ: Type, field: FieldDesc, index: int, path: seq<string>,
    directives: seq<Directive>, context: Context, children: seq<Node>)
  {
    /** What a callback is shown of this node. */
    function Label(): Types.Label {
      Types.Label(typ, field, index, path, directives, context)
    }
  }

  /** The nodes of the subtree in depth-first pre-order: the node, then each child's subtree in order. */
  function PreOrder(n: Node): (r: seq<Node>)
    ensures |r| >= 1 && r[0] == n
    decreases n, 1
  {
    [n] + PreOrderFrom(n, 0)
  }

  /** The pre-order of the subtrees of children `k..`. */
  function PreOrderFrom(n: Node, k: nat): seq<Node>
    requires k <= |n.children|
    decreases n, 0, |n.children| - k
  {
    if k == |n.children| then []
    else
      assert n.children[k] in n.children;
      PreOrder(n.children[k]) + PreOrderFrom(n, k + 1)
  }

  /** The node reached by following child positions. */
  function Descend(n: Node, steps: seq<nat>): Option<Node>
    decreases |steps|
  {
    if |steps| == 0 then Some(n)
    else if steps[0] < |n.children| then Descend(n.children[steps[0]], steps[1..])
    else None
  }

  /** Every context in the subtree is `ctx`. */
  ghost predicate AllContexts(n: Node, ctx: Context)
    decreases n
  {
    n.context == ctx &&
    forall k :: 0 <= k < |n.children| ==> AllContexts(n.children[k], ctx)
  }

  /** The two trees differ at most in their contexts and directives. */
  ghost predicate SameShape(a: Node, b: Node)
    decreases a
  {
    a.typ == b.typ && a.field == b.field && a.index == b.index && a.path == b.path &&
    |a.children| == |b.children| &&
    forall k :: 0 <= k < |a.children| ==> SameShape(a.children[k], b.children[k])
  }
}
