/**
 * What New promises (resolver.go:34-64): the tree it returns is the built
 * tree of the input's struct type with every node configured by the
 * options, its root has a namespace, and its errors come, in this order,
 * from the input check, the build, the first node in depth-first pre-order
 * whose options fail, and validate.
 */
module ConstructionFacts {
  import opened Wrappers
  import opened Types
  import opened Nodes
  import opened Build
  import opened BuildFacts
  import opened Trees
  import opened TreeFacts
  import opened Construction
  import opened Resolution
  import opened ResolutionFacts

  /** The input names a struct type (or a pointer to one) whose tree builds. */
  ghost predicate Buildable(input: Option<Type>, parse: Parser) {
    input.Some? && Deref(input.value).Struct? && BuildTree(Deref(input.value), parse).Success?
  }

  /** The tree New returns is the built tree, configured node by node, with a namespace at the root. */
  lemma NewShape(input: Option<Type>, opts: seq<BuildOption>, parse: Parser)
    requires NewSpec(input, opts, parse).Success?
    ensures Buildable(input, parse)
    ensures var b := BuildTree(Deref(input.value), parse).value;
      var m := NewSpec(input, opts, parse).value;
      Configured(b, m, opts) && SameShape(b, m) &&
      m.typ == Deref(input.value) && m.index == -1 && m.path == [] && m.context.namespace.Some?
  {
    var t := Deref(input.value);
    var b := BuildTree(t, parse).value;
    BuildTreeRoot(t, parse);
    CopyOfBuilt(b, parse);
    var m := NewSpec(input, opts, parse).value;
    ConfigureSound(b, opts);
    ConfiguredShape(b, m, opts);
  }

  /** When the options fail at some node, New fails with the error of the first such node in pre-order. */
  lemma NewOptionError(input: Option<Type>, opts: seq<BuildOption>, parse: Parser)
    requires Buildable(input, parse)
    requires FirstError(PreOrder(BuildTree(Deref(input.value), parse).value), OptionsCallback(opts)).Some?
    ensures NewSpec(input, opts, parse) ==
      Failure(FirstError(PreOrder(BuildTree(Deref(input.value), parse).value), OptionsCallback(opts)).value)
  {
    var b := BuildTree(Deref(input.value), parse).value;
    BuildTreeRoot(Deref(input.value), parse);
    CopyOfBuilt(b, parse);
    VisitPreOrder(b, OptionsCallback(opts));
    ConfigureIsVisit(b, opts);
  }

  /** When the options succeed everywhere, New fails exactly when they leave the root without a namespace. */
  lemma NewValidation(input: Option<Type>, opts: seq<BuildOption>, parse: Parser)
    requires Buildable(input, parse)
    requires Configure(BuildTree(Deref(input.value), parse).value, opts).Success?
    ensures var m := Configure(BuildTree(Deref(input.value), parse).value, opts).value;
      NewSpec(input, opts, parse) == if m.context.namespace.None? then Failure(NilNamespaceError) else Success(m)
  {
    var b := BuildTree(Deref(input.value), parse).value;
    BuildTreeRoot(Deref(input.value), parse);
    CopyOfBuilt(b, parse);
  }

  /**
   * New succeeds exactly when the input names a struct type whose tree builds,
   * the options succeed at every node, and they leave the root with a
   * namespace; the options succeed exactly when no node's options fail.
   */
  lemma NewSucceedsIff(input: Option<Type>, opts: seq<BuildOption>, parse: Parser)
    ensures NewSpec(input, opts, parse).Success? <==>
      Buildable(input, parse) &&
      var b := BuildTree(Deref(input.value), parse).value;
      Configure(b, opts).Success? && Configure(b, opts).value.context.namespace.Some?
    ensures Buildable(input, parse) ==>
      var b := BuildTree(Deref(input.value), parse).value;
      (Configure(b, opts).Success? <==> FirstError(PreOrder(b), OptionsCallback(opts)).None?)
  {
    if Buildable(input, parse) {
      var b := BuildTree(Deref(input.value), parse).value;
      BuildTreeRoot(Deref(input.value), parse);
      CopyOfBuilt(b, parse);
      VisitPreOrder(b, OptionsCallback(opts));
      ConfigureIsVisit(b, opts);
    }
  }

  /** The tree New returns has its fields laid out at every node, paths that extend, and an empty root path. */
  lemma NewShaped(input: Option<Type>, opts: seq<BuildOption>, parse: Parser)
    requires NewSpec(input, opts, parse).Success?
    ensures var m := NewSpec(input, opts, parse).value;
      Shaped(m) && PathsExtend(m) && m.path == []
  {
    NewShape(input, opts, parse);
    var t := Deref(input.value);
    var b := BuildTree(t, parse).value;
    var m := NewSpec(input, opts, parse).value;
    BuildTreeRoot(t, parse);
    WellBuiltShaped(b, parse);
    WellBuiltPaths(b, parse);
    SameShapeShaped(b, m);
    SameShapePaths(b, m);
  }

  /** findResolver on the tree New returns: the node `p` leads to has path `p`. */
  lemma NewFindPath(input: Option<Type>, opts: seq<BuildOption>, parse: Parser, p: seq<string>)
    requires NewSpec(input, opts, parse).Success? && Find(NewSpec(input, opts, parse).value, p).Some?
    ensures Find(NewSpec(input, opts, parse).value, p).value.path == p
  {
    NewShaped(input, opts, parse);
    FindPath(NewSpec(input, opts, parse).value, p);
  }

  /** Every node of the tree New returns has the children resolve expects: its exported fields, at their ordinals. */
  lemma NewNodesLaidOut(input: Option<Type>, opts: seq<BuildOption>, parse: Parser, steps: seq<nat>)
    requires NewSpec(input, opts, parse).Success? && Descend(NewSpec(input, opts, parse).value, steps).Some?
    ensures FieldsLaidOut(Descend(NewSpec(input, opts, parse).value, steps).value)
  {
    NewShaped(input, opts, parse);
    ShapedDescend(NewSpec(input, opts, parse).value, steps);
  }

  /** Lookup of the PathString of any node below the root of New's tree finds that node, when field names are distinct and dot-free. */
  lemma NewLookupPathString(input: Option<Type>, opts: seq<BuildOption>, parse: Parser, steps: seq<nat>)
    requires NewSpec(input, opts, parse).Success?
    requires UniqueNames(NewSpec(input, opts, parse).value) && DotFree(NewSpec(input, opts, parse).value)
    requires |steps| >= 1 && Descend(NewSpec(input, opts, parse).value, steps).Some?
    ensures var m := NewSpec(input, opts, parse).value;
      Lookup(m, PathString(Descend(m, steps).value.path)) == Descend(m, steps)
  {
    NewShaped(input, opts, parse);
    LookupPathString(NewSpec(input, opts, parse).value, steps);
  }

  /**
   * Resolving a struct node of New's tree whose directives and children
   * succeed writes each child's value at its field ordinal and keeps the
   * unexported fields.
   */
  lemma NewResolveStruct(input: Option<Type>, opts: seq<BuildOption>, parse: Parser, steps: seq<nat>, ctx: Context, exec: Execute)
    requires NewSpec(input, opts, parse).Success? && Descend(NewSpec(input, opts, parse).value, steps).Some?
    requires var n := Descend(NewSpec(input, opts, parse).value, steps).value;
      |n.children| > 0 &&
      RunDirectives(n.Label(), ctx, Zero(n.typ), exec).err.None? &&
      (forall i :: 0 <= i < |n.children| ==> ResolveNode(n.children[i], ctx, exec).err.None?) &&
      (!n.typ.Ptr? ==> HasType(RunDirectives(n.Label(), ctx, Zero(n.typ), exec).value, n.typ))
    ensures var n := Descend(NewSpec(input, opts, parse).value, steps).value;
      var u := Deref(n.typ);
      var r := ResolveNode(n, ctx, exec);
      var s := if n.typ.Ptr? then r.value.target.value else r.value;
      r.err.None? && (n.typ.Ptr? ==> r.value.PtrVal? && r.value.target.Some?) &&
      u.Struct? && s.StructVal? && |s.fields| == |u.fields| &&
      forall i :: 0 <= i < |n.children| ==>
        0 <= n.children[i].index < |u.fields| && u.fields[n.children[i].index].exported &&
        s.fields[n.children[i].index] == ResolveNode(n.children[i], ctx, exec).value
  {
    var n := Descend(NewSpec(input, opts, parse).value, steps).value;
    NewNodesLaidOut(input, opts, parse, steps);
    ResolveStruct(n, ctx, exec);
    var u := Deref(n.typ);
    var ran := RunDirectives(n.Label(), ctx, Zero(n.typ), exec);
    var target := if n.typ.Ptr? then Zero(n.typ.elem) else ran.value;
    ShapedSlots(n, target);
  }
}
