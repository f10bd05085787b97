/**
 * What the whole-tree operations of resolver.go promise: copy keeps
 * everything but the contexts (resolver.go:66-78), New's option pass
 * configures every node from its own label and stops at the first error in
 * depth-first pre-order (resolver.go:47-57, 139-155), findResolver and
 * Lookup follow the field names (resolver.go:96-130), and DebugLayoutText
 * writes one line per node (resolver.go:231-244).
 */
module TreeFacts {
  import opened Wrappers
  import opened Strings
  import opened Types
  import opened Nodes
  import opened BuildFacts
  import opened Trees

  // ---- copy ----

  /** The two trees are equal but for their contexts. */
  ghost predicate SameButContexts(a: Node, b: Node)
    decreases a
  {
    a.Label().(context := BACKGROUND) == b.Label().(context := BACKGROUND) &&
    |a.children| == |b.children| &&
    forall k :: 0 <= k < |a.children| ==> SameButContexts(a.children[k], b.children[k])
  }

  /** The copy has every context reset and is otherwise the original. */
  lemma {:induction false} ResetContextsSpec(n: Node)
    ensures AllContexts(ResetContexts(n), BACKGROUND) && SameButContexts(n, ResetContexts(n))
    decreases n
  {
    var r := ResetContexts(n);
    ResetPrefixElements(n, |n.children|);
    forall k | 0 <= k < |n.children|
      ensures AllContexts(r.children[k], BACKGROUND) && SameButContexts(n.children[k], r.children[k])
    {
      ResetContextsSpec(n.children[k]);
    }
  }

  /** Two trees have the same copy exactly when they differ only in their contexts. */
  lemma {:induction false} ResetContextsIff(a: Node, b: Node)
    ensures ResetContexts(a) == ResetContexts(b) <==> SameButContexts(a, b)
    decreases a
  {
    var ra, rb := ResetContexts(a), ResetContexts(b);
    ResetPrefixElements(a, |a.children|);
    ResetPrefixElements(b, |b.children|);
    if ra == rb {
      assert ra.Label() == a.Label().(context := BACKGROUND);
      assert rb.Label() == b.Label().(context := BACKGROUND);
      forall k | 0 <= k < |a.children|
        ensures SameButContexts(a.children[k], b.children[k])
      {
        assert ra.children[k] == rb.children[k];
        ResetContextsIff(a.children[k], b.children[k]);
      }
    }
    if SameButContexts(a, b) {
      forall k | 0 <= k < |a.children|
        ensures ra.children[k] == rb.children[k]
      {
        ResetContextsIff(a.children[k], b.children[k]);
      }
      assert ra.children == rb.children;
      assert a.Label().(context := BACKGROUND) == b.Label().(context := BACKGROUND);
      assert a.typ == b.typ && a.field == b.field && a.index == b.index;
      assert a.path == b.path && a.directives == b.directives;
    }
  }

  /** A tree whose contexts are all reset is its own copy. */
  lemma {:induction false} ResetContextsFixed(n: Node)
    requires AllContexts(n, BACKGROUND)
    ensures ResetContexts(n) == n
    decreases n
  {
    var r := ResetContexts(n);
    ResetPrefixElements(n, |n.children|);
    forall k | 0 <= k < |n.children|
      ensures r.children[k] == n.children[k]
    {
      ResetContextsFixed(n.children[k]);
    }
    assert r.children == n.children;
  }

  /** Copying twice is copying once. */
  lemma ResetContextsIdempotent(n: Node)
    ensures ResetContexts(ResetContexts(n)) == ResetContexts(n)
  {
    ResetContextsSpec(n);
    ResetContextsFixed(ResetContexts(n));
  }

  /** The copy of a tree fresh from buildResolver equals it. */
  lemma CopyOfBuilt(n: Node, parse: Parser)
    requires WellBuilt(n, parse)
    ensures ResetContexts(n) == n
  {
    WellBuiltBackground(n, parse);
    ResetContextsFixed(n);
  }

  // ---- the option pass of New ----

  /** An option can only change the context and the directives of the label it is given. */
  lemma {:induction false} ApplyOptsKeeps(l: Label, opts: seq<BuildOption>)
    requires ApplyOpts(l, opts).Success?
    ensures var r := ApplyOpts(l, opts).value;
      r == l.(context := r.context, directives := r.directives)
    decreases |opts|
  {
    if |opts| > 0 {
      var s := opts[0](l).value;
      ApplyOptsKeeps(l.(context := s.context, directives := s.directives), opts[1..]);
    }
  }

  /** `m` is `n` with every node's label replaced by what the options made of it. */
  ghost predicate Configured(n: Node, m: Node, opts: seq<BuildOption>)
    decreases n
  {
    ApplyOpts(n.Label(), opts) == Success(m.Label()) &&
    |m.children| == |n.children| &&
    forall k :: 0 <= k < |n.children| ==> Configured(n.children[k], m.children[k], opts)
  }

  /** The child loop configures each child from `k` on and keeps the ones before. */
  lemma {:induction false} ConfigureFromSound(n: Node, k: nat, cur: seq<Node>, opts: seq<BuildOption>)
    requires k <= |n.children| == |cur| && ConfigureFrom(n, k, cur, opts).Success?
    ensures var cs := ConfigureFrom(n, k, cur, opts).value;
      |cs| == |cur| &&
      (forall j :: 0 <= j < k ==> cs[j] == cur[j]) &&
      (forall j :: k <= j < |cur| ==> Configure(n.children[j], opts) == Success(cs[j]))
    decreases |n.children| - k
  {
    if k < |n.children| {
      var c := Configure(n.children[k], opts).value;
      ConfigureFromSound(n, k + 1, cur[k := c], opts);
    }
  }

  /** A configured tree is the original with each label as the options left it. */
  lemma {:induction false} ConfigureSound(n: Node, opts: seq<BuildOption>)
    requires Configure(n, opts).Success?
    ensures Configured(n, Configure(n, opts).value, opts)
    decreases n
  {
    var m := Configure(n, opts).value;
    var l := ApplyOpts(n.Label(), opts).value;
    ApplyOptsKeeps(n.Label(), opts);
    ConfigureFromSound(n, 0, n.children, opts);
    assert m.children == ConfigureFrom(n, 0, n.children, opts).value;
    forall k | 0 <= k < |n.children|
      ensures Configured(n.children[k], m.children[k], opts)
    {
      ConfigureSound(n.children[k], opts);
    }
  }

  /** The child loop, when every child from `k` on configures into `ms`. */
  lemma {:induction false} ConfigureFromComplete(n: Node, k: nat, cur: seq<Node>, ms: seq<Node>, opts: seq<BuildOption>)
    requires k <= |n.children| == |cur| == |ms|
    requires forall j :: 0 <= j < k ==> cur[j] == ms[j]
    requires forall j :: k <= j < |ms| ==> Configure(n.children[j], opts) == Success(ms[j])
    ensures ConfigureFrom(n, k, cur, opts) == Success(ms)
    decreases |n.children| - k
  {
    if k == |n.children| {
      assert cur == ms;
    } else {
      ConfigureFromComplete(n, k + 1, cur[k := ms[k]], ms, opts);
    }
  }

  /** Every tree the options can make of `n` is what the option pass returns. */
  lemma {:induction false} ConfigureComplete(n: Node, m: Node, opts: seq<BuildOption>)
    requires Configured(n, m, opts)
    ensures Configure(n, opts) == Success(m)
    decreases n
  {
    forall k | 0 <= k < |n.children|
      ensures Configure(n.children[k], opts) == Success(m.children[k])
    {
      ConfigureComplete(n.children[k], m.children[k], opts);
    }
    ConfigureFromComplete(n, 0, n.children, m.children, opts);
    ApplyOptsKeeps(n.Label(), opts);
    var l := m.Label();
    assert Settle(n, l).(children := m.children) == m;
  }

  /** The option pass succeeds with `m` exactly when `m` is `n` configured node by node. */
  lemma ConfigureIff(n: Node, m: Node, opts: seq<BuildOption>)
    ensures Configure(n, opts) == Success(m) <==> Configured(n, m, opts)
  {
    if Configure(n, opts) == Success(m) {
      ConfigureSound(n, opts);
    }
    if Configured(n, m, opts) {
      ConfigureComplete(n, m, opts);
    }
  }

  /** A configured tree has the shape of the original: only contexts and directives change. */
  lemma {:induction false} ConfiguredShape(n: Node, m: Node, opts: seq<BuildOption>)
    requires Configured(n, m, opts)
    ensures SameShape(n, m)
    decreases n
  {
    ApplyOptsKeeps(n.Label(), opts);
    assert m.Label() == n.Label().(context := m.context, directives := m.directives);
    forall k | 0 <= k < |n.children|
      ensures SameShape(n.children[k], m.children[k])
    {
      ConfiguredShape(n.children[k], m.children[k], opts);
    }
  }

  /** The callback New hands to Iterate. */
  function OptionsCallback(opts: seq<BuildOption>): Label -> Option<Error> {
    l => OptsError(l, opts)
  }

  /** The error of a result, if any. */
  function ErrorOf<T>(r: Result<T, Error>): Option<Error> {
    match r
    case Failure(e) => Some(e)
    case Success(_) => None
  }

  /** The option pass fails exactly as iterateTree fails with the option callback. */
  lemma {:induction false} ConfigureIsVisit(n: Node, opts: seq<BuildOption>)
    ensures ErrorOf(Configure(n, opts)) == Visit(n, OptionsCallback(opts))
    decreases n, 1
  {
    assert OptionsCallback(opts)(n.Label()) == OptsError(n.Label(), opts);
    ConfigureFromIsVisitFrom(n, 0, n.children, opts);
  }

  lemma {:induction false} ConfigureFromIsVisitFrom(n: Node, k: nat, cur: seq<Node>, opts: seq<BuildOption>)
    requires k <= |n.children| == |cur|
    ensures ErrorOf(ConfigureFrom(n, k, cur, opts)) == VisitFrom(n, k, OptionsCallback(opts))
    decreases n, 0, |n.children| - k
  {
    if k < |n.children| {
      assert n.children[k] in n.children;
      ConfigureIsVisit(n.children[k], opts);
      if Configure(n.children[k], opts).Success? {
        ConfigureFromIsVisitFrom(n, k + 1, cur[k := Configure(n.children[k], opts).value], opts);
      }
    }
  }

  // ---- iterateTree ----

  lemma {:induction false} FirstErrorAppend(a: seq<Node>, b: seq<Node>, fn: Label -> Option<Error>)
    ensures FirstError(a + b, fn) == if FirstError(a, fn).Some? then FirstError(a, fn) else FirstError(b, fn)
  {
    if |a| > 0 {
      assert (a + b)[0] == a[0] && (a + b)[1..] == a[1..] + b;
      FirstErrorAppend(a[1..], b, fn);
    } else {
      assert a + b == b;
    }
  }

  /** The first error over a list is the callback's error at the first node that fails. */
  lemma {:induction false} FirstErrorAt(ns: seq<Node>, fn: Label -> Option<Error>, k: nat)
    requires k < |ns| && fn(ns[k].Label()).Some?
    requires forall j :: 0 <= j < k ==> fn(ns[j].Label()).None?
    ensures FirstError(ns, fn) == fn(ns[k].Label())
  {
    if k > 0 {
      assert forall j :: 0 <= j < k - 1 ==> ns[1..][j] == ns[j + 1];
      FirstErrorAt(ns[1..], fn, k - 1);
    }
  }

  /** There is no error exactly when the callback accepts every node. */
  lemma {:induction false} FirstErrorNone(ns: seq<Node>, fn: Label -> Option<Error>)
    ensures FirstError(ns, fn).None? <==> forall k :: 0 <= k < |ns| ==> fn(ns[k].Label()).None?
  {
    if |ns| > 0 {
      FirstErrorNone(ns[1..], fn);
      assert forall k :: 1 <= k < |ns| ==> ns[k] == ns[1..][k - 1];
    }
  }

  /** iterateTree visits the nodes in depth-first pre-order and returns the first error. */
  lemma {:induction false} VisitPreOrder(n: Node, fn: Label -> Option<Error>)
    ensures Visit(n, fn) == FirstError(PreOrder(n), fn)
    decreases n, 1
  {
    VisitFromPreOrder(n, 0, fn);
    assert ([n] + PreOrderFrom(n, 0))[1..] == PreOrderFrom(n, 0);
  }

  lemma {:induction false} VisitFromPreOrder(n: Node, k: nat, fn: Label -> Option<Error>)
    requires k <= |n.children|
    ensures VisitFrom(n, k, fn) == FirstError(PreOrderFrom(n, k), fn)
    decreases n, 0, |n.children| - k
  {
    if k < |n.children| {
      assert n.children[k] in n.children;
      VisitPreOrder(n.children[k], fn);
      VisitFromPreOrder(n, k + 1, fn);
      FirstErrorAppend(PreOrder(n.children[k]), PreOrderFrom(n, k + 1), fn);
    }
  }

  // ---- findResolver and Lookup ----

  /** Following `p` then `q` is following `p + q`; a segment that matches nothing ends the search. */
  lemma {:induction false} FindAppend(n: Node, p: seq<string>, q: seq<string>)
    ensures Find(n, p + q) == if Find(n, p).None? then None else Find(Find(n, p).value, q)
    decreases |p|
  {
    if |p| == 0 {
      assert p + q == q;
    } else {
      assert (p + q)[0] == p[0] && (p + q)[1..] == p[1..] + q;
      match FirstNamed(n.children, p[0], 0)
      case None =>
      case Some(k) => FindAppend(n.children[k], p[1..], q);
    }
  }

  /** Where paths extend (as in a well-built tree), the node reached by `p` has path `n.path + p`. */
  lemma {:induction false} FindPath(n: Node, p: seq<string>)
    requires PathsExtend(n) && Find(n, p).Some?
    ensures Find(n, p).value.path == n.path + p
    decreases |p|
  {
    if |p| > 0 {
      var k := FirstNamed(n.children, p[0], 0).value;
      var c := n.children[k];
      FindPath(c, p[1..]);
      assert p == [p[0]] + p[1..];
    }
  }

  /** In every node, no two children have the same field name (a Go struct's field names are distinct). */
  ghost predicate UniqueNames(n: Node)
    decreases n
  {
    (forall i, j :: 0 <= i < j < |n.children| ==> n.children[i].field.name != n.children[j].field.name) &&
    forall k :: 0 <= k < |n.children| ==> UniqueNames(n.children[k])
  }

  /** With distinct names, findResolver on the rest of a node's path reaches that node. */
  lemma {:induction false} FindDescend(n: Node, steps: seq<nat>)
    requires PathsExtend(n) && UniqueNames(n) && Descend(n, steps).Some?
    ensures var m := Descend(n, steps).value;
      n.path <= m.path && Find(n, m.path[|n.path|..]) == Some(m)
    decreases |steps|
  {
    var m := Descend(n, steps).value;
    PathsDepth(n, steps);
    if |steps| == 0 {
      assert m.path[|n.path|..] == [];
    } else {
      var k := steps[0];
      var c := n.children[k];
      var name := c.field.name;
      FindDescend(c, steps[1..]);
      PathsDepth(c, steps[1..]);
      var rest := m.path[|c.path|..];
      assert m.path[|n.path|..] == [name] + rest by {
        assert c.path == n.path + [name];
        assert m.path == c.path + rest;
      }
      FirstNamedAt(n.children, name, 0, k);
    }
  }

  /** The first child from `i` on with the name is at `k`. */
  lemma {:induction false} FirstNamedAt(cs: seq<Node>, name: string, i: nat, k: nat)
    requires i <= k < |cs| && cs[k].field.name == name
    requires forall j :: i <= j < k ==> cs[j].field.name != name
    ensures FirstNamed(cs, name, i) == Some(k)
    decreases k - i
  {
    if i < k {
      FirstNamedAt(cs, name, i + 1, k);
    }
  }

  /** Field names without dots, all the way down. */
  ghost predicate DotFree(n: Node)
    decreases n
  {
    forall k :: 0 <= k < |n.children| ==> '.' !in n.children[k].field.name && DotFree(n.children[k])
  }

  /** A path built from dot-free names has dot-free segments. */
  lemma {:induction false} DotFreePath(n: Node, steps: seq<nat>)
    requires PathsExtend(n) && DotFree(n) && Descend(n, steps).Some?
    requires forall j :: 0 <= j < |n.path| ==> '.' !in n.path[j]
    ensures var m := Descend(n, steps).value; forall j :: 0 <= j < |m.path| ==> '.' !in m.path[j]
    decreases |steps|
  {
    if |steps| > 0 {
      DotFreePath(n.children[steps[0]], steps[1..]);
    }
  }

  /** PathString and Lookup round trip: `Lookup(m.PathString())` from the root finds every node below it, when field names are distinct and dot-free. */
  lemma LookupPathString(root: Node, steps: seq<nat>)
    requires PathsExtend(root) && UniqueNames(root) && DotFree(root) && root.path == []
    requires |steps| >= 1 && Descend(root, steps).Some?
    ensures Lookup(root, PathString(Descend(root, steps).value.path)) == Descend(root, steps)
  {
    var m := Descend(root, steps).value;
    PathsDepth(root, steps);
    DotFreePath(root, steps);
    SplitJoin(m.path, '.');
    FindDescend(root, steps);
    assert m.path[0..] == m.path;
  }

  /** strings.Split("", ".") is [""], so Lookup("") does not return the node itself when no field name is empty. */
  lemma LookupEmptyString(n: Node)
    requires forall k :: 0 <= k < |n.children| ==> n.children[k].field.name != ""
    ensures Lookup(n, "") == None
  {
    assert Split("", '.') == [""];
    assert FirstNamed(n.children, "", 0).None?;
  }

  /** Joining and splitting on dots are inverse for non-empty paths of dot-free segments. */
  lemma PathStringSplit(p: seq<string>)
    requires |p| >= 1 && forall j :: 0 <= j < |p| ==> '.' !in p[j]
    ensures Split(PathString(p), '.') == p
  {
    SplitJoin(p, '.');
  }

  // ---- DebugLayoutText ----

  /** No type name and no path segment in the subtree holds a line break. */
  ghost predicate LineFree(n: Node)
    decreases n
  {
    '\n' !in TypeName(n.typ) &&
    (forall j :: 0 <= j < |n.path| ==> '\n' !in n.path[j]) &&
    forall k :: 0 <= k < |n.children| ==> LineFree(n.children[k])
  }

  /** DebugLayoutText writes one line per node of the subtree. */
  lemma {:induction false} LayoutLines(n: Node, depth: int)
    requires LineFree(n) && (n.children != [] ==> depth >= -1)
    ensures CountChar(Layout(n, depth), '\n') == |PreOrder(n)| - 1
    decreases n, 1
  {
    var l := n.Label();
    JoinAbsent(l.path, ".", '\n');
    var head := Describe(l) + "  " + Itoa(n.index);
    assert '\n' !in head;
    CountCharAbsent(head, '\n');
    CountCharAppend(head, LayoutFrom(n, depth, 0), '\n');
    LayoutFromLines(n, depth, 0);
  }

  lemma {:induction false} LayoutFromLines(n: Node, depth: int, k: nat)
    requires LineFree(n) && k <= |n.children| && (n.children != [] ==> depth >= -1)
    ensures CountChar(LayoutFrom(n, depth, k), '\n') == |PreOrderFrom(n, k)|
    decreases n, 0, |n.children| - k
  {
    if k < |n.children| {
      var c := n.children[k];
      assert c in n.children;
      var sub := Layout(c, depth + 1);
      LayoutLines(c, depth + 1);
      LayoutFromLines(n, depth, k + 1);
      ChildLineLines(depth, k, sub);
      CountCharAppend(ChildLine(depth, k, sub), LayoutFrom(n, depth, k + 1), '\n');
    }
  }

  /** A child entry of DebugLayoutText starts a line of its own. */
  lemma ChildLineLines(depth: int, k: nat, sub: string)
    requires depth >= -1
    ensures CountChar(ChildLine(depth, k, sub), '\n') == 1 + CountChar(sub, '\n')
  {
    var mid := Repeat("    ", depth + 1) + Itoa(k) + "# ";
    RepeatAbsent("    ", depth + 1, '\n');
    CountCharAbsent(mid, '\n');
    assert ChildLine(depth, k, sub) == "\n" + (mid + sub);
    CountCharAppend(mid, sub, '\n');
    CountCharAppend("\n", mid + sub, '\n');
  }
}
