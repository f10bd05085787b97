/**
 * The Resolver struct of resolver.go as a class: a node of the resolver
 * tree, linked to its parent and children.  Its value is `Abs()`, a Node.
 */
module Resolvers {
  import opened Wrappers
  import opened Strings
  import opened Types
  import opened Directives
  import opened Nodes
  import opened Build
  import opened Trees
  import opened Resolution
  import opened Construction

  class Resolver {
    var typ: Type
    var field: FieldDesc
    var index: int
    var path: seq<string>
    var directives: seq<Directive>
    var parent: Resolver?
    var children: seq<Resolver>
    var context: Context
    ghost var Repr: set<object>

    /** The subtree is a tree: distinct children, each pointing back to this node, with disjoint subtrees. */
    ghost predicate Valid()
      reads this, Repr
      decreases Repr
    {
      this in Repr &&
      (forall k :: 0 <= k < |children| ==>
        children[k] in Repr && children[k].Repr <= Repr && this !in children[k].Repr &&
        children[k].parent == this && children[k].Valid()) &&
      (forall k, l :: 0 <= k < l < |children| ==> children[k].Repr !! children[l].Repr)
    }

    ghost function Abs(): Node
      reads this, Repr
      requires Valid()
      decreases Repr, 1
    {
      Node(typ, field, index, path, directives, context, AbsChildren())
    }

    ghost function AbsChildren(): (r: seq<Node>)
      reads this, Repr
      requires Valid()
      ensures |r| == |children|
      ensures forall k :: 0 <= k < |children| ==> r[k] == children[k].Abs()
      decreases Repr, 0
    {
      AbsPrefix(|children|)
    }

    /** The values of the first `n` children. */
    ghost function AbsPrefix(n: nat): (r: seq<Node>)
      reads this, Repr
      requires Valid() && n <= |children|
      ensures |r| == n
      ensures forall k :: 0 <= k < n ==> r[k] == children[k].Abs()
      decreases Repr, 0, n
    {
      if n == 0 then [] else AbsPrefix(n - 1) + [children[n - 1].Abs()]
    }

    /** The node without its tree links. */
    function Label(): Label
      reads this
    {
      Types.Label(typ, field, index, path, directives, context)
    }

    /** IsRoot */
    predicate IsRoot()
      reads this
    {
      parent == null
    }

    /** IsLeaf */
    predicate IsLeaf()
      reads this
    {
      |children| == 0
    }

    /** The literal `&Resolver{Type: t, Field: field, Index: -1, Parent: parent, Context: context.Background()}`. */
    constructor (t: Type, f: FieldDesc, p: Resolver?)
      ensures typ == t && field == f && index == -1 && parent == p && context == BACKGROUND
      ensures path == [] && directives == [] && children == []
      ensures Repr == {this} && Valid()
    {
      typ, field, index, parent, context := t, f, -1, p, BACKGROUND;
      path, directives, children := [], [], [];
      Repr := {this};
    }

    /** `child.Index = i` */
    method SetIndex(i: int)
      requires Valid()
      modifies this
      ensures Valid() && Repr == old(Repr) && Abs() == old(Abs()).(index := i)
      ensures Label() == old(Label()).(index := i) && parent == old(parent) && children == old(children)
    {
      ghost var kids := AbsChildren();
      index := i;
      assert Valid();
      assert AbsChildren() == kids;
    }

    /** `root.Children = append(root.Children, child)` for a child built apart from this tree. */
    method AddChild(c: Resolver)
      requires Valid() && c.Valid() && c.parent == this && Repr !! c.Repr
      modifies this
      ensures Valid() && Repr == old(Repr) + c.Repr && children == old(children) + [c]
      ensures AbsChildren() == old(AbsChildren()) + [c.Abs()]
      ensures Label() == old(Label()) && parent == old(parent)
    {
      ghost var mine := AbsChildren();
      children := children + [c];
      Repr := Repr + c.Repr;
      assert Valid();
      assert AbsChildren() == mine + [c.Abs()];
    }

    /** `*resolverCopy = *r` with the context reset and no children yet. */
    constructor CopyOf(r: Resolver)
      ensures Label() == r.Label().(context := BACKGROUND) && parent == r.parent && children == []
      ensures Repr == {this} && Valid()
    {
      typ, field, index, path, directives := r.typ, r.field, r.index, r.path, r.directives;
      parent, context, children := r.parent, BACKGROUND, [];
      Repr := {this};
    }

    /** buildResolver */
    static method BuildResolver(t: Type, f: FieldDesc, p: Resolver?, parse: Parser) returns (r: Result<Resolver, Error>)
      ensures r.Success? ==> r.value.Valid() && fresh(r.value.Repr) && r.value.parent == p
      ensures r.Success? ==> BuildNode(t, f, if p == null then None else Some(p.path), parse) == Success(r.value.Abs())
      ensures r.Failure? ==> BuildNode(t, f, if p == null then None else Some(p.path), parse) == Failure(r.error)
      decreases t, 2
    {
      var root := new Resolver(t, f, p);
      if !root.IsRoot() {
        var ds := ParseDirectives(f.tag, parse);
        if ds.Failure? {
          return Failure(ParseDirectivesError(ds.error));
        }
        root.directives := ds.value;
        root.path := p.path + [f.name];
      }
      assert Own(f, if p == null then None else Some(p.path), parse) == Success((root.directives, root.path));
      var u := Deref(t);
      if u.Struct? {
        var built := root.BuildFields(u, parse);
        if built.Failure? {
          return Failure(built.error);
        }
      }
      return Success(root);
    }

    /** The field loop of buildResolver, run on the node being built, which has no children yet. */
    method BuildFields(u: Type, parse: Parser) returns (r: Result<(), Error>)
      requires Valid() && children == [] && u.Struct?
      modifies this
      ensures Valid() && fresh(Repr - old(Repr)) && Label() == old(Label()) && parent == old(parent)
      ensures r.Success? ==> BuildFrom(u, 0, [], path, parse) == Success(AbsChildren())
      ensures r.Failure? ==> BuildFrom(u, 0, [], path, parse) == Failure(r.error)
      decreases u, 1
    {
      for i := 0 to |u.fields|
        invariant Valid() && fresh(Repr - old(Repr)) && Label() == old(Label()) && parent == old(parent)
        invariant BuildFrom(u, 0, [], path, parse) == BuildFrom(u, i, AbsChildren(), path, parse)
      {
        var step := BuildField(u, i, parse);
        if step.Failure? {
          return Failure(step.error);
        }
      }
      return Success(());
    }

    /** One iteration of the field loop: field `i` of `u` is skipped, or built and appended. */
    method BuildField(u: Type, i: nat, parse: Parser) returns (r: Result<(), Error>)
      requires Valid() && u.Struct? && i < |u.fields|
      modifies this
      ensures Valid() && fresh(Repr - old(Repr)) && Label() == old(Label()) && parent == old(parent)
      ensures r.Success? ==> BuildFrom(u, i, old(AbsChildren()), path, parse) == BuildFrom(u, i + 1, AbsChildren(), path, parse)
      ensures r.Failure? ==> BuildFrom(u, i, old(AbsChildren()), path, parse) == Failure(r.error)
      decreases u, 0
    {
      var fi := u.fields[i];
      assert fi in u.fields;
      if !fi.exported {
        return Success(());
      }
      var child := BuildResolver(fi.typ, fi, this, parse);
      if child.Failure? {
        BuildFromFailure(u, i, AbsChildren(), path, parse, child.error);
        return Failure(BuildResolverError(path + [fi.name], child.error));
      }
      BuildFromStep(u, i, AbsChildren(), path, parse, child.value.Abs());
      Attach(child.value, i);
      return Success(());
    }

    /** `child.Index = i` and `root.Children = append(root.Children, child)`. */
    method Attach(c: Resolver, i: int)
      requires Valid() && c.Valid() && c.parent == this && Repr !! c.Repr
      modifies this, c
      ensures Valid() && Repr == old(Repr) + old(c.Repr) && Label() == old(Label()) && parent == old(parent)
      ensures AbsChildren() == old(AbsChildren()) + [old(c.Abs()).(index := i)]
    {
      c.SetIndex(i);
      assert AbsChildren() == old(AbsChildren());
      AddChild(c);
    }

    /** `resolverCopy.Children[i].Parent = resolverCopy` */
    method Rebind(p: Resolver?)
      requires Valid()
      modifies this
      ensures Valid() && Repr == old(Repr) && Abs() == old(Abs()) && parent == p
      ensures Label() == old(Label()) && children == old(children)
    {
      ghost var kids := AbsChildren();
      parent := p;
      assert Valid();
      assert AbsChildren() == kids;
    }

    /** copy: a fresh tree with the same nodes, every context reset; the children point to their copied parent. */
    method Copy() returns (c: Resolver)
      requires Valid()
      ensures c.Valid() && fresh(c.Repr) && c.parent == parent
      ensures c.Abs() == ResetContexts(Abs())
      decreases Repr, 2
    {
      c := new Resolver.CopyOf(this);
      ghost var n := Abs();
      CopyChildren(c, n);
    }

    /** The loop of copy: every child is copied in order, onto `c`, which has no children yet. */
    method CopyChildren(c: Resolver, ghost n: Node)
      requires Valid() && c.Valid() && c.children == [] && c.Repr !! Repr && n == Abs()
      modifies c
      ensures c.Valid() && fresh(c.Repr - old(c.Repr)) && c.Label() == old(c.Label()) && c.parent == old(c.parent)
      ensures c.AbsChildren() == ResetPrefix(n, |n.children|)
      decreases Repr, 1
    {
      for i := 0 to |children|
        invariant c.Valid() && fresh(c.Repr - old(c.Repr)) && c.Label() == old(c.Label()) && c.parent == old(c.parent)
        invariant c.AbsChildren() == ResetPrefix(n, i)
      {
        CopyChild(c, i, n);
      }
    }

    /** One iteration of the loop of copy: child `i` is copied, rebound to `c` and appended to it. */
    method CopyChild(c: Resolver, i: nat, ghost n: Node)
      requires Valid() && c.Valid() && i < |children| && c.Repr !! Repr && n == Abs()
      modifies c
      ensures c.Valid() && fresh(c.Repr - old(c.Repr)) && c.Label() == old(c.Label()) && c.parent == old(c.parent)
      ensures c.AbsChildren() == old(c.AbsChildren()) + [ResetContexts(n.children[i])]
      decreases Repr, 0
    {
      var copied := children[i].Copy();
      copied.Rebind(c);
      c.AddChild(copied);
    }

    /** What an option's Apply does to this node: new settings, nothing else. */
    method SetSettings(st: Settings)
      requires Valid()
      modifies this
      ensures Valid() && Repr == old(Repr) && parent == old(parent) && children == old(children)
      ensures Label() == old(Label()).(context := st.context, directives := st.directives)
      ensures AbsChildren() == old(AbsChildren())
    {
      ghost var kids := AbsChildren();
      context, directives := st.context, st.directives;
      assert Valid();
      assert AbsChildren() == kids;
    }

    /** The callback New runs on each node: the options in order, the first error stops. */
    method ApplyOptions(opts: seq<BuildOption>) returns (err: Option<Error>)
      requires Valid()
      modifies this
      ensures Valid() && Repr == old(Repr) && parent == old(parent) && children == old(children)
      ensures err == OptsError(old(Label()), opts)
      ensures err.None? ==> Abs() == Settle(old(Abs()), ApplyOpts(old(Label()), opts).value)
    {
      ghost var kids := AbsChildren();
      for i := 0 to |opts|
        invariant Valid() && Repr == old(Repr) && parent == old(parent) && children == old(children)
        invariant AbsChildren() == kids
        invariant Label() == old(Label()).(context := context, directives := directives)
        invariant ApplyOpts(old(Label()), opts) == ApplyOpts(Label(), opts[i..])
      {
        assert opts[i..][0] == opts[i] && opts[i..][1..] == opts[i + 1..];
        var st := opts[i](Label());
        if st.Failure? {
          return Some(st.error);
        }
        SetSettings(st.value);
      }
      return None;
    }

    /** New's `tree.Iterate` with the option callback: the nodes are configured in depth-first pre-order. */
    method ConfigureTree(opts: seq<BuildOption>) returns (err: Option<Error>)
      requires Valid()
      modifies Repr
      ensures Valid() && Repr == old(Repr) && parent == old(parent)
      ensures err.None? <==> Configure(old(Abs()), opts).Success?
      ensures err.Some? ==> Configure(old(Abs()), opts) == Failure(err.value)
      ensures err.None? ==> Abs() == Configure(old(Abs()), opts).value
      decreases Repr, 2
    {
      ghost var n := Abs();
      err := ApplyOptions(opts);
      if err.Some? {
        return;
      }
      err := ConfigureChildren(opts, n);
    }

    /** The loop of iterateTree over the children, under the option callback. */
    method ConfigureChildren(opts: seq<BuildOption>, ghost n: Node) returns (err: Option<Error>)
      requires Valid() && AbsChildren() == n.children
      modifies Repr
      ensures Valid() && Repr == old(Repr) && Label() == old(Label()) && parent == old(parent) && children == old(children)
      ensures err.Some? ==> ConfigureFrom(n, 0, n.children, opts) == Failure(err.value)
      ensures err.None? ==> ConfigureFrom(n, 0, n.children, opts) == Success(AbsChildren())
      decreases Repr, 1
    {
      for i := 0 to |children|
        invariant Valid() && Repr == old(Repr) && Label() == old(Label()) && parent == old(parent) && children == old(children)
        invariant forall j :: i <= j < |children| ==> AbsChildren()[j] == n.children[j]
        invariant ConfigureFrom(n, 0, n.children, opts) == ConfigureFrom(n, i, AbsChildren(), opts)
      {
        err := ConfigureChild(opts, i, n);
        if err.Some? {
          return;
        }
      }
      return None;
    }

    /** One iteration of the loop of iterateTree: child `i` and its subtree are configured. */
    method ConfigureChild(opts: seq<BuildOption>, i: nat, ghost n: Node) returns (err: Option<Error>)
      requires Valid() && i < |children| == |n.children| && AbsChildren()[i] == n.children[i]
      modifies children[i].Repr
      ensures Valid() && Repr == old(Repr) && Label() == old(Label()) && parent == old(parent) && children == old(children)
      ensures err.Some? ==> ConfigureFrom(n, i, old(AbsChildren()), opts) == Failure(err.value)
      ensures err.None? ==> ConfigureFrom(n, i, old(AbsChildren()), opts) == ConfigureFrom(n, i + 1, AbsChildren(), opts)
      ensures err.None? ==> AbsChildren() == old(AbsChildren())[i := children[i].Abs()]
      decreases Repr, 0
    {
      ghost var kids := AbsChildren();
      err := children[i].ConfigureTree(opts);
      assert Valid();
      if err.Some? {
        ConfigureFromFailure(n, i, kids, opts);
      } else {
        assert AbsChildren() == kids[i := children[i].Abs()];
        ConfigureFromStep(n, i, kids, opts);
      }
    }

    /** Iterate (iterateTree) with a callback that does not change the tree. */
    method Iterate(fn: Label -> Option<Error>) returns (err: Option<Error>)
      requires Valid()
      ensures err == Visit(Abs(), fn)
      decreases Repr
    {
      ghost var n := Abs();
      err := fn(Label());
      if err.Some? {
        return;
      }
      for i := 0 to |children|
        invariant VisitFrom(n, 0, fn) == VisitFrom(n, i, fn)
      {
        assert children[i].Abs() == n.children[i];
        err := children[i].Iterate(fn);
        if err.Some? {
          return;
        }
      }
      return None;
    }

    /** findResolver(r, path) */
    method FindResolver(path: seq<string>) returns (r: Resolver?)
      requires Valid()
      ensures r == null <==> Find(Abs(), path).None?
      ensures r != null ==> r in Repr && r.Valid() && r.Abs() == Find(Abs(), path).value
      decreases |path|
    {
      if |path| == 0 {
        return this;
      }
      ghost var n := Abs();
      for i := 0 to |children|
        invariant forall j :: 0 <= j < i ==> n.children[j].field.name != path[0]
      {
        assert children[i].Abs() == n.children[i];
        if children[i].field.name == path[0] {
          assert FirstNamed(n.children, path[0], 0) == Some(i);
          r := children[i].FindResolver(path[1..]);
          return;
        }
      }
      return null;
    }

    /** Lookup: findResolver on the dot-separated segments. */
    method Lookup(path: string) returns (r: Resolver?)
      requires Valid()
      ensures r == null <==> Trees.Lookup(Abs(), path).None?
      ensures r != null ==> r in Repr && r.Valid() && r.Abs() == Trees.Lookup(Abs(), path).value
    {
      r := FindResolver(Split(path, '.'));
    }

    /** GetDirective: the first directive of the node with the name. */
    method GetDirective(name: string) returns (d: Option<Directive>)
      ensures d.None? <==> forall k :: 0 <= k < |directives| ==> directives[k].name != name
      ensures d.Some? ==> d.value.name == name
      ensures d.Some? ==> exists k :: 0 <= k < |directives| && directives[k] == d.value &&
                                   (forall j :: 0 <= j < k ==> directives[j].name != name)
    {
      for i := 0 to |directives|
        invariant forall j :: 0 <= j < i ==> directives[j].name != name
      {
        if directives[i].name == name {
          return Some(directives[i]);
        }
      }
      return None;
    }

    /** DebugLayoutText */
    method DebugLayoutText(depth: int) returns (s: string)
      requires Valid() && (children != [] ==> depth >= -1)
      ensures s == Layout(Abs(), depth)
      decreases Repr, 1
    {
      ghost var n := Abs();
      s := Describe(Label()) + "  " + Itoa(index);
      for i := 0 to |children|
        invariant s + LayoutFrom(n, depth, i) == Layout(n, depth)
      {
        var line := LayoutChild(depth, i, n);
        ghost var rest := LayoutFrom(n, depth, i + 1);
        assert LayoutFrom(n, depth, i) == line + rest;
        assert s + (line + rest) == (s + line) + rest;
        s := s + line;
      }
    }

    /** One iteration of the loop of DebugLayoutText: the entry of child `i`. */
    method LayoutChild(depth: int, i: nat, ghost n: Node) returns (line: string)
      requires Valid() && n == Abs() && i < |children| && depth >= -1
      ensures line == ChildLine(depth, i, Layout(n.children[i], depth + 1))
      decreases Repr, 0
    {
      assert children[i].Abs() == n.children[i];
      var sub := children[i].DebugLayoutText(depth + 1);
      line := "\n" + Repeat("    ", depth + 1) + Itoa(i) + "# " + sub;
    }

    /** runDirectives: the directives in order on the value slot `v`; the first failure stops. */
    method RunDirectives(ctx: Context, v: Value, exec: Execute) returns (o: Outcome)
      ensures o == Resolution.RunDirectives(Label(), ctx, v, exec)
    {
      var ns := context.namespace;
      var rv := v;
      for i := 0 to |directives|
        invariant RunFrom(Label(), 0, ctx, v, exec) == RunFrom(Label(), i, ctx, rv, exec)
      {
        var d := directives[i];
        var exe := if ns.Some? then LookupExecutor(ns.value, d.name) else None;
        if exe.None? {
          return Outcome(rv, Some(DirectiveExecutionError(d, MissingExecutorError)));
        }
        var out := exec(exe.value, DirectiveRuntime(d, Label(), ctx, rv));
        if out.err.Some? {
          return Outcome(out.value, Some(DirectiveExecutionError(d, out.err.value)));
        }
        rv := out.value;
      }
      return Outcome(rv, None);
    }

    /** resolve: the value slot of this node after its directives and its children's resolution. */
    method ResolveTree(ctx: Context, exec: Execute) returns (o: Outcome)
      requires Valid()
      ensures o == ResolveNode(Abs(), ctx, exec)
      decreases Repr, 1
    {
      ghost var n := Abs();
      var ran := RunDirectives(ctx, Zero(typ), exec);
      if ran.err.Some? || |children| == 0 {
        return ran;
      }
      var underlying := if typ.Ptr? then Zero(typ.elem) else ran.value;
      var res := ResolveChildren(ctx, exec, underlying, n);
      return Outcome(if typ.Ptr? then PtrVal(Some(res.value)) else res.value, res.err);
    }

    /** The child loop of resolve: each child's value goes into the field at its index of `target`. */
    method ResolveChildren(ctx: Context, exec: Execute, target: Value, ghost n: Node) returns (o: Outcome)
      requires Valid() && n == Abs()
      ensures o == AssembleFrom(n, 0, target, ctx, exec)
      decreases Repr, 0
    {
      var underlying := target;
      for i := 0 to |children|
        invariant AssembleFrom(n, 0, target, ctx, exec) == AssembleFrom(n, i, underlying, ctx, exec)
      {
        var child := children[i];
        assert child.Abs() == n.children[i];
        var fieldValue := child.ResolveTree(ctx, exec);
        if fieldValue.err.Some? {
          return Outcome(underlying, Some(ResolveError(child.Label(), fieldValue.err.value)));
        }
        underlying := SetField(underlying, child.index, fieldValue.value);
      }
      return Outcome(underlying, None);
    }

    /** Resolve: the resolve options build the context, then the tree is resolved with it. */
    method Resolve(opts: seq<ResolveOption>, exec: Execute) returns (o: Outcome)
      requires Valid()
      ensures o == Resolution.Resolve(Abs(), opts, exec)
    {
      var ctx := BACKGROUND;
      for i := 0 to |opts|
        invariant FoldContext(BACKGROUND, opts) == FoldContext(ctx, opts[i..])
      {
        assert opts[i..][0] == opts[i] && opts[i..][1..] == opts[i + 1..];
        ctx := opts[i](ctx);
      }
      o := ResolveTree(ctx, exec);
    }
  }

  /**
   * The process-wide cache of built trees (builtTrees), keyed by struct type.
   * Every cached tree is the unconfigured tree of its key.
   */
  class TreeCache {
    /** ParseDirective, fixed for the process. */
    const parse: Parser
    var trees: map<Type, Resolver>
    ghost var Repr: set<object>

    ghost predicate Valid()
      reads this, Repr
    {
      this !in Repr &&
      forall t :: t in trees ==>
        trees[t] in Repr && trees[t].Repr <= Repr && trees[t].Valid() && BuildTree(t, parse) == Success(trees[t].Abs())
    }

    constructor (p: Parser)
      ensures parse == p && trees == map[] && Repr == {} && Valid()
    {
      parse, trees, Repr := p, map[], {};
    }

    /** buildResolverTree: the root is built with no field and no parent. */
    method BuildResolverTree(t: Type) returns (r: Result<Resolver, Error>)
      ensures r.Success? ==> r.value.Valid() && fresh(r.value.Repr) && r.value.IsRoot()
      ensures r.Success? ==> BuildTree(t, parse) == Success(r.value.Abs())
      ensures r.Failure? ==> BuildTree(t, parse) == Failure(r.error)
    {
      r := Resolver.BuildResolver(t, NO_FIELD, null, parse);
    }

    /** buildAndCacheResolverTree: the cached tree of `t`, else a new build that is cached when it succeeds. */
    method BuildAndCache(t: Type) returns (r: Result<Resolver, Error>)
      requires Valid()
      modifies this
      ensures Valid() && old(Repr) <= Repr && fresh(Repr - old(Repr))
      ensures r.Success? ==> r.value.Valid() && r.value.Repr <= Repr && BuildTree(t, parse) == Success(r.value.Abs())
      ensures r.Failure? ==> BuildTree(t, parse) == Failure(r.error) && trees == old(trees)
      ensures t in old(trees) ==> r == Success(old(trees)[t]) && trees == old(trees)
      ensures r.Success? ==> trees == old(trees)[t := r.value]
    {
      if t in trees {
        return Success(trees[t]);
      }
      r := BuildResolverTree(t);
      if r.Failure? {
        return;
      }
      Store(t, r.value);
    }

    /** `builtTrees.Store(t, tree)` for the tree built for `t`. */
    method Store(t: Type, tree: Resolver)
      requires Valid() && tree.Valid() && this !in tree.Repr && BuildTree(t, parse) == Success(tree.Abs())
      modifies this
      ensures Valid() && Repr == old(Repr) + tree.Repr && trees == old(trees)[t := tree]
    {
      trees := trees[t := tree];
      Repr := Repr + tree.Repr;
    }
  }

  /** New, with the tree cache and the already normalised options. */
  method New(cache: TreeCache, input: Option<Type>, opts: seq<BuildOption>) returns (r: Result<Resolver, Error>)
    requires cache.Valid()
    modifies cache
    ensures cache.Valid()
    ensures r.Success? ==> r.value.Valid() && fresh(r.value.Repr)
    ensures r.Success? ==> NewSpec(input, opts, cache.parse) == Success(r.value.Abs())
    ensures r.Failure? ==> NewSpec(input, opts, cache.parse) == Failure(r.error)
    ensures ReflectStructType(input).Failure? ==> cache.trees == old(cache.trees)
    ensures ReflectStructType(input).Success? ==>
      var t := ReflectStructType(input).value;
      (t in old(cache.trees) || BuildTree(t, cache.parse).Failure? ==> cache.trees == old(cache.trees)) &&
      (t !in old(cache.trees) && BuildTree(t, cache.parse).Success? ==>
         t in cache.trees && cache.trees == old(cache.trees)[t := cache.trees[t]] &&
         BuildTree(t, cache.parse) == Success(cache.trees[t].Abs()))
  {
    var typ := ReflectStructType(input);
    if typ.Failure? {
      return Failure(typ.error);
    }
    var tree := cache.BuildAndCache(typ.value);
    if tree.Failure? {
      return Failure(tree.error);
    }
    r := Instantiate(tree.value, opts);
  }

  /** New after the cache lookup: the cached tree is copied, configured and validated. */
  method Instantiate(tree: Resolver, opts: seq<BuildOption>) returns (r: Result<Resolver, Error>)
    requires tree.Valid()
    ensures r.Success? ==> r.value.Valid() && fresh(r.value.Repr)
    ensures r.Success? ==> Construction.Instantiate(tree.Abs(), opts) == Success(r.value.Abs())
    ensures r.Failure? ==> Construction.Instantiate(tree.Abs(), opts) == Failure(r.error)
  {
    var copied := tree.Copy();
    var err := copied.ConfigureTree(opts);
    if err.Some? {
      return Failure(err.value);
    }
    var invalid := Validate(copied.Label());
    if invalid.Some? {
      return Failure(invalid.value);
    }
    return Success(copied);
  }
}
