/**
 * The read-only and whole-tree operations of resolver.go as functions on
 * Node values: copy (contexts reset), the option pass of New, validate,
 * String and PathString, findResolver and Lookup, iterateTree, GetDirective
 * and DebugLayoutText.  The methods of Resolvers.Resolver are proved to
 * compute these.
 */
module Trees {
  import opened Wrappers
  import opened Strings
  import opened Types
  import opened Directives
  import opened Nodes

  /** copy: the same tree with every context replaced by context.Background(). */
  function ResetContexts(n: Node): Node
    decreases n, 1
  {
    n.(context := BACKGROUND, children := ResetPrefix(n, |n.children|))
  }

  /** The copies of the first `k` children. */
  function ResetPrefix(n: Node, k: nat): seq<Node>
    requires k <= |n.children|
    decreases n, 0, k
  {
    if k == 0 then []
    else
      assert n.children[k - 1] in n.children;
      ResetPrefix(n, k - 1) + [ResetContexts(n.children[k - 1])]
  }

  /** The copies of the first `k` children, one by one. */
  lemma {:induction false} ResetPrefixElements(n: Node, k: nat)
    requires k <= |n.children|
    ensures |ResetPrefix(n, k)| == k
    ensures forall j :: 0 <= j < k ==> ResetPrefix(n, k)[j] == ResetContexts(n.children[j])
  {
    if k > 0 {
      ResetPrefixElements(n, k - 1);
    }
  }

  /** The options of New applied in order to one node; each option sees what the previous ones set. */
  function ApplyOpts(l: Label, opts: seq<BuildOption>): Result<Label, Error>
    decreases |opts|
  {
    if |opts| == 0 then Success(l)
    else
      match opts[0](l)
      case Failure(e) => Failure(e)
      case Success(s) => ApplyOpts(l.(context := s.context, directives := s.directives), opts[1..])
  }

  /** The error the callback of New returns for a node, if any. */
  function OptsError(l: Label, opts: seq<BuildOption>): Option<Error> {
    match ApplyOpts(l, opts)
    case Failure(e) => Some(e)
    case Success(_) => None
  }

  /** The node with the settings the options gave it. */
  function Settle(n: Node, l: Label): Node {
    n.(context := l.context, directives := l.directives)
  }

  /**
   * New's `tree.Iterate(...)` over the options: the nodes are configured in
   * depth-first pre-order and the first error stops the pass.
   */
  function Configure(n: Node, opts: seq<BuildOption>): Result<Node, Error>
    decreases n, 1
  {
    match ApplyOpts(n.Label(), opts)
    case Failure(e) => Failure(e)
    case Success(l) =>
      match ConfigureFrom(n, 0, n.children, opts)
      case Failure(e) => Failure(e)
      case Success(cs) => Success(Settle(n, l).(children := cs))
  }

  /**
   * The child loop of Configure from child `k` on; `cur` holds the children
   * as they are now, the ones before `k` already configured.
   */
  function ConfigureFrom(n: Node, k: nat, cur: seq<Node>, opts: seq<BuildOption>): Result<seq<Node>, Error>
    requires k <= |n.children| == |cur|
    decreases n, 0, |n.children| - k
  {
    if k == |n.children| then Success(cur)
    else
      assert n.children[k] in n.children;
      match Configure(n.children[k], opts)
      case Failure(e) => Failure(e)
      case Success(c) => ConfigureFrom(n, k + 1, cur[k := c], opts)
  }

  /** One step of the child loop of Configure, over a child that configures. */
  lemma ConfigureFromStep(n: Node, k: nat, cur: seq<Node>, opts: seq<BuildOption>)
    requires k < |n.children| == |cur| && Configure(n.children[k], opts).Success?
    ensures ConfigureFrom(n, k, cur, opts) == ConfigureFrom(n, k + 1, cur[k := Configure(n.children[k], opts).value], opts)
  {
  }

  /** One step of the child loop of Configure, over a child that fails. */
  lemma ConfigureFromFailure(n: Node, k: nat, cur: seq<Node>, opts: seq<BuildOption>)
    requires k < |n.children| == |cur| && Configure(n.children[k], opts).Failure?
    ensures ConfigureFrom(n, k, cur, opts) == Failure(Configure(n.children[k], opts).error)
  {
  }

  /** validate: the root must have a namespace. */
  function Validate(root: Label): (r: Option<Error>)
    ensures r.Some? <==> root.context.namespace.None?
    ensures r.Some? ==> r.value == NilNamespaceError
  {
    if root.context.namespace.None? then Some(NilNamespaceError) else None
  }

  /** PathString: the path joined with dots. */
  function PathString(path: seq<string>): string {
    Join(path, ".")
  }

  /** String: `"%s (%v)"` of PathString and the type. */
  function Describe(l: Label): string {
    PathString(l.path) + " (" + TypeName(l.typ) + ")"
  }

  /** The position of the first child at or after `k` whose field has the name. */
  function FirstNamed(cs: seq<Node>, name: string, k: nat): (r: Option<nat>)
    requires k <= |cs|
    ensures r.Some? ==> k <= r.value < |cs| && cs[r.value].field.name == name
    ensures r.Some? ==> forall j :: k <= j < r.value ==> cs[j].field.name != name
    ensures r.None? ==> forall j :: k <= j < |cs| ==> cs[j].field.name != name
    decreases |cs| - k
  {
    if k == |cs| then None
    else if cs[k].field.name == name then Some(k)
    else FirstNamed(cs, name, k + 1)
  }

  /** findResolver: follows, for each segment, the first child of that name. */
  function Find(n: Node, path: seq<string>): Option<Node>
    decreases |path|
  {
    if |path| == 0 then Some(n)
    else
      match FirstNamed(n.children, path[0], 0)
      case None => None
      case Some(k) => Find(n.children[k], path[1..])
  }

  /** Lookup */
  function Lookup(n: Node, path: string): Option<Node> {
    Find(n, Split(path, '.'))
  }

  /** iterateTree with a callback that only reads: the first error in depth-first pre-order. */
  function Visit(n: Node, fn: Label -> Option<Error>): Option<Error>
    decreases n, 1
  {
    match fn(n.Label())
    case Some(e) => Some(e)
    case None => VisitFrom(n, 0, fn)
  }

  /** The loop of iterateTree over children `k..`. */
  function VisitFrom(n: Node, k: nat, fn: Label -> Option<Error>): Option<Error>
    requires k <= |n.children|
    decreases n, 0, |n.children| - k
  {
    if k == |n.children| then None
    else
      assert n.children[k] in n.children;
      match Visit(n.children[k], fn)
      case Some(e) => Some(e)
      case None => VisitFrom(n, k + 1, fn)
  }

  /** The first error of the callback over a list of nodes, in list order. */
  function FirstError(ns: seq<Node>, fn: Label -> Option<Error>): Option<Error> {
    if |ns| == 0 then None
    else
      match fn(ns[0].Label())
      case Some(e) => Some(e)
      case None => FirstError(ns[1..], fn)
  }

  /** The text DebugLayoutText(depth) writes; a child line is indented by depth+1 steps of four spaces. */
  function Layout(n: Node, depth: int): string
    requires n.children != [] ==> depth >= -1
    decreases n, 1
  {
    Describe(n.Label()) + "  " + Itoa(n.index) + LayoutFrom(n, depth, 0)
  }

  /** The lines DebugLayoutText writes for children `k..`. */
  function LayoutFrom(n: Node, depth: int, k: nat): string
    requires k <= |n.children|
    requires n.children != [] ==> depth >= -1
    decreases n, 0, |n.children| - k
  {
    if k == |n.children| then ""
    else
      assert n.children[k] in n.children;
      ChildLine(depth, k, Layout(n.children[k], depth + 1)) + LayoutFrom(n, depth, k + 1)
  }

  /** One child entry of DebugLayoutText. */
  function ChildLine(depth: int, k: nat, sub: string): string
    requires depth >= -1
  {
    "\n" + Repeat("    ", depth + 1) + Itoa(k) + "# " + sub
  }
}
