/**
 * What buildResolver promises about the tree it returns (resolver.go:269-311):
 * the children of a node are its exported fields in declaration order, each
 * carrying the field's ordinal, its own parsed tag and its parent's path
 * extended by the field name; the first field whose subtree fails decides
 * the error.
 */
module BuildFacts {
  import opened Wrappers
  import opened Types
  import opened Directives
  import opened Nodes
  import opened Build

  /** The ordinals of the exported fields among fields `i..`, in declaration order. */
  function ExportedFrom(fs: seq<FieldDesc>, i: nat): seq<nat>
    requires i <= |fs|
    decreases |fs| - i
  {
    if i == |fs| then []
    else if fs[i].exported then [i] + ExportedFrom(fs, i + 1)
    else ExportedFrom(fs, i + 1)
  }

  /** ExportedFrom lists exactly the exported fields from `i` on, increasing. */
  lemma {:induction false} ExportedFromExactly(fs: seq<FieldDesc>, i: nat)
    requires i <= |fs|
    ensures forall k :: 0 <= k < |ExportedFrom(fs, i)| ==>
      i <= ExportedFrom(fs, i)[k] < |fs| && fs[ExportedFrom(fs, i)[k]].exported
    ensures forall k, l :: 0 <= k < l < |ExportedFrom(fs, i)| ==> ExportedFrom(fs, i)[k] < ExportedFrom(fs, i)[l]
    ensures forall j :: i <= j < |fs| && fs[j].exported ==> j in ExportedFrom(fs, i)
    decreases |fs| - i
  {
    if i < |fs| {
      ExportedFromExactly(fs, i + 1);
      var rest := ExportedFrom(fs, i + 1);
      if fs[i].exported {
        var r := [i] + rest;
        assert forall k :: 1 <= k < |r| ==> r[k] == rest[k - 1];
        assert forall k, l :: 0 <= k < l < |r| ==> r[k] < r[l];
      }
    }
  }

  /** `c` is the child buildResolver makes for field `j` of struct `u`, under a node at `path`. */
  ghost predicate ChildFor(c: Node, u: Type, j: nat, path: seq<string>, parse: Parser)
    requires u.Struct? && j < |u.fields|
  {
    var f := u.fields[j];
    c.index == j && c.field == f && c.typ == f.typ && c.path == path + [f.name] &&
    Parsed(f.tag, parse) == Success(c.directives)
  }

  /**
   * Every node of the subtree is as buildResolver leaves it: a background
   * context, and as children the exported fields of its (pointer-unwrapped)
   * struct type, or none for any other type.
   */
  ghost predicate WellBuilt(n: Node, parse: Parser)
    decreases n
  {
    var u := Deref(n.typ);
    n.context == BACKGROUND &&
    (if u.Struct? then
       var ex := ExportedFrom(u.fields, 0);
       |n.children| == |ex| &&
       forall k :: 0 <= k < |ex| ==> ex[k] < |u.fields| && ChildFor(n.children[k], u, ex[k], n.path, parse)
     else n.children == []) &&
    forall k :: 0 <= k < |n.children| ==> WellBuilt(n.children[k], parse)
  }

  /** The node returned by buildResolver is well built, with the type, field, path and directives it was given. */
  lemma {:induction false} BuildNodeWellBuilt(t: Type, f: FieldDesc, pp: Option<seq<string>>, parse: Parser)
    requires BuildNode(t, f, pp, parse).Success?
    ensures var n := BuildNode(t, f, pp, parse).value;
      n.typ == t && n.field == f && n.index == -1 && WellBuilt(n, parse) &&
      (pp.None? ==> n.path == [] && n.directives == []) &&
      (pp.Some? ==> n.path == pp.value + [f.name] && Parsed(f.tag, parse) == Success(n.directives))
    decreases t, 1
  {
    var own := Own(f, pp, parse).value;
    var u := Deref(t);
    if u.Struct? {
      BuildFromWellBuilt(u, 0, [], own.1, parse);
      ExportedFromExactly(u.fields, 0);
    }
  }

  /** `cs` holds, from position `start` on, one well-built child per ordinal in `ex`. */
  ghost predicate ChildrenFor(cs: seq<Node>, start: nat, u: Type, ex: seq<nat>, path: seq<string>, parse: Parser)
    requires u.Struct?
  {
    |cs| == start + |ex| &&
    forall k :: 0 <= k < |ex| ==>
      ex[k] < |u.fields| && ChildFor(cs[start + k], u, ex[k], path, parse) && WellBuilt(cs[start + k], parse)
  }

  /** A child in front of well-built children. */
  lemma ChildrenForCons(cs: seq<Node>, start: nat, u: Type, i: nat, ex: seq<nat>, path: seq<string>, parse: Parser)
    requires u.Struct? && start < |cs| && i < |u.fields|
    requires ChildFor(cs[start], u, i, path, parse) && WellBuilt(cs[start], parse)
    requires ChildrenFor(cs, start + 1, u, ex, path, parse)
    ensures ChildrenFor(cs, start, u, [i] + ex, path, parse)
  {
    var ex' := [i] + ex;
    forall k | 0 <= k < |ex'|
      ensures ex'[k] < |u.fields| && ChildFor(cs[start + k], u, ex'[k], path, parse) && WellBuilt(cs[start + k], parse)
    {
      if k > 0 {
        assert ex'[k] == ex[k - 1] && start + k == (start + 1) + (k - 1);
      }
    }
  }

  /** The field loop appends one well-built child per exported field, in order. */
  lemma {:induction false} BuildFromWellBuilt(u: Type, i: nat, acc: seq<Node>, path: seq<string>, parse: Parser)
    requires u.Struct? && i <= |u.fields|
    requires BuildFrom(u, i, acc, path, parse).Success?
    ensures var cs := BuildFrom(u, i, acc, path, parse).value;
      ChildrenFor(cs, |acc|, u, ExportedFrom(u.fields, i), path, parse) && cs[..|acc|] == acc
    decreases u, 0, |u.fields| - i
  {
    var cs := BuildFrom(u, i, acc, path, parse).value;
    if i == |u.fields| {
      assert cs == acc;
    } else {
      var f := u.fields[i];
      assert f in u.fields;
      if !f.exported {
        BuildFromWellBuilt(u, i + 1, acc, path, parse);
      } else {
        BuildNodeWellBuilt(f.typ, f, Some(path), parse);
        var c := BuildNode(f.typ, f, Some(path), parse).value;
        var acc' := acc + [c.(index := i)];
        BuildFromStep(u, i, acc, path, parse, c);
        BuildFromWellBuilt(u, i + 1, acc', path, parse);
        assert cs[..|acc'|] == acc';
        assert cs[..|acc|] == acc'[..|acc|] == acc;
        assert cs[|acc|] == acc'[|acc|] == c.(index := i);
        ChildrenForCons(cs, |acc|, u, i, ExportedFrom(u.fields, i + 1), path, parse);
      }
    }
  }

  /** buildResolverTree: the root is a sentinel with index -1, no field, no path and no directives. */
  lemma BuildTreeRoot(t: Type, parse: Parser)
    requires BuildTree(t, parse).Success?
    ensures var n := BuildTree(t, parse).value;
      n.typ == t && n.field == NO_FIELD && n.index == -1 && n.path == [] && n.directives == [] &&
      WellBuilt(n, parse)
  {
    BuildNodeWellBuilt(t, NO_FIELD, None, parse);
  }

  /** A node whose type is not a struct or a pointer to one (a `**T` included) is a leaf. */
  lemma BuildNonStructLeaf(t: Type, f: FieldDesc, pp: Option<seq<string>>, parse: Parser)
    requires BuildNode(t, f, pp, parse).Success? && !Deref(t).Struct?
    ensures BuildNode(t, f, pp, parse).value.children == []
  {
    BuildNodeWellBuilt(t, f, pp, parse);
  }

  /** The exported fields from `i` on whose subtrees build under a node at `path`. */
  ghost predicate FieldsBuild(u: Type, i: nat, j: nat, path: seq<string>, parse: Parser)
    requires u.Struct? && i <= j <= |u.fields|
  {
    forall k :: i <= k < j && u.fields[k].exported ==> BuildNode(u.fields[k].typ, u.fields[k], Some(path), parse).Success?
  }

  /**
   * When the subtree of exported field `j` is the first to fail, the loop
   * fails with that field's dotted path, whatever the later fields are.
   */
  lemma {:induction false} BuildFromFirstFailure(u: Type, i: nat, acc: seq<Node>, path: seq<string>, parse: Parser, j: nat)
    requires u.Struct? && i <= j < |u.fields| && u.fields[j].exported
    requires FieldsBuild(u, i, j, path, parse)
    requires BuildNode(u.fields[j].typ, u.fields[j], Some(path), parse).Failure?
    ensures BuildFrom(u, i, acc, path, parse) ==
      Failure(BuildResolverError(path + [u.fields[j].name], BuildNode(u.fields[j].typ, u.fields[j], Some(path), parse).error))
    decreases j - i
  {
    if i == j {
      BuildFromFailure(u, i, acc, path, parse, BuildNode(u.fields[j].typ, u.fields[j], Some(path), parse).error);
    } else {
      var f := u.fields[i];
      if f.exported {
        var c := BuildNode(f.typ, f, Some(path), parse).value;
        BuildFromStep(u, i, acc, path, parse, c);
        BuildFromFirstFailure(u, i + 1, acc + [c.(index := i)], path, parse, j);
      } else {
        BuildFromFirstFailure(u, i + 1, acc, path, parse, j);
      }
    }
  }

  /** The field loop succeeds exactly when every exported field's subtree builds. */
  lemma {:induction false} BuildFromSucceedsIff(u: Type, i: nat, acc: seq<Node>, path: seq<string>, parse: Parser)
    requires u.Struct? && i <= |u.fields|
    ensures BuildFrom(u, i, acc, path, parse).Success? <==> FieldsBuild(u, i, |u.fields|, path, parse)
    decreases |u.fields| - i
  {
    if i < |u.fields| {
      var f := u.fields[i];
      if !f.exported {
        BuildFromSucceedsIff(u, i + 1, acc, path, parse);
      } else if BuildNode(f.typ, f, Some(path), parse).Success? {
        var c := BuildNode(f.typ, f, Some(path), parse).value;
        BuildFromStep(u, i, acc, path, parse, c);
        BuildFromSucceedsIff(u, i + 1, acc + [c.(index := i)], path, parse);
      } else {
        BuildFromFailure(u, i, acc, path, parse, BuildNode(f.typ, f, Some(path), parse).error);
      }
    }
  }

  /** A well-built tree has every context reset. */
  lemma {:induction false} WellBuiltBackground(n: Node, parse: Parser)
    requires WellBuilt(n, parse)
    ensures AllContexts(n, BACKGROUND)
    decreases n
  {
    forall k | 0 <= k < |n.children|
      ensures AllContexts(n.children[k], BACKGROUND)
    {
      WellBuiltBackground(n.children[k], parse);
    }
  }

  /** A child of a well-built node: its path is the parent's extended by its field name. */
  lemma WellBuiltChild(n: Node, k: nat, parse: Parser)
    requires WellBuilt(n, parse) && k < |n.children|
    ensures n.children[k].path == n.path + [n.children[k].field.name] && WellBuilt(n.children[k], parse)
  {
    var u := Deref(n.typ);
    assert u.Struct? && ChildFor(n.children[k], u, ExportedFrom(u.fields, 0)[k], n.path, parse);
  }

  /** Each step down a well-built tree adds one segment to the path: `|Path|` is the depth. */
  lemma {:induction false} WellBuiltDepth(n: Node, steps: seq<nat>, parse: Parser)
    requires WellBuilt(n, parse) && Descend(n, steps).Some?
    ensures var m := Descend(n, steps).value;
      |m.path| == |n.path| + |steps| && n.path <= m.path && WellBuilt(m, parse)
    decreases |steps|
  {
    if |steps| > 0 {
      var c := n.children[steps[0]];
      WellBuiltChild(n, steps[0], parse);
      WellBuiltDepth(c, steps[1..], parse);
    }
  }

  /** Every child's path is its parent's path extended by the child's field name. */
  ghost predicate PathsExtend(n: Node)
    decreases n
  {
    forall k :: 0 <= k < |n.children| ==>
      n.children[k].path == n.path + [n.children[k].field.name] && PathsExtend(n.children[k])
  }

  lemma {:induction false} WellBuiltPaths(n: Node, parse: Parser)
    requires WellBuilt(n, parse)
    ensures PathsExtend(n)
    decreases n
  {
    forall k | 0 <= k < |n.children|
      ensures n.children[k].path == n.path + [n.children[k].field.name] && PathsExtend(n.children[k])
    {
      WellBuiltChild(n, k, parse);
      WellBuiltPaths(n.children[k], parse);
    }
  }

  /** Where paths extend, a node `|steps|` levels down has a path `|steps|` segments longer. */
  lemma {:induction false} PathsDepth(n: Node, steps: seq<nat>)
    requires PathsExtend(n) && Descend(n, steps).Some?
    ensures var m := Descend(n, steps).value;
      |m.path| == |n.path| + |steps| && n.path <= m.path && PathsExtend(m)
    decreases |steps|
  {
    if |steps| > 0 {
      PathsDepth(n.children[steps[0]], steps[1..]);
    }
  }

  // ---- the shape resolve relies on ----

  /**
   * The children of the node are the exported fields of its (pointer-unwrapped)
   * struct type, in order, each at its field ordinal; any other type has none.
   */
  ghost predicate FieldsLaidOut(n: Node) {
    var u := Deref(n.typ);
    if u.Struct? then
      var ex := ExportedFrom(u.fields, 0);
      |n.children| == |ex| && forall k :: 0 <= k < |ex| ==> ex[k] < |u.fields| && n.children[k].index == ex[k]
    else n.children == []
  }

  /** FieldsLaidOut at every node of the subtree. */
  ghost predicate Shaped(n: Node)
    decreases n
  {
    FieldsLaidOut(n) && forall k :: 0 <= k < |n.children| ==> Shaped(n.children[k])
  }

  /** A tree fresh from buildResolver has its fields laid out at every node. */
  lemma {:induction false} WellBuiltShaped(n: Node, parse: Parser)
    requires WellBuilt(n, parse)
    ensures Shaped(n)
    decreases n
  {
    var u := Deref(n.typ);
    if u.Struct? {
      var ex := ExportedFrom(u.fields, 0);
      assert forall k :: 0 <= k < |ex| ==> ChildFor(n.children[k], u, ex[k], n.path, parse);
    }
    forall k | 0 <= k < |n.children|
      ensures Shaped(n.children[k])
    {
      WellBuiltShaped(n.children[k], parse);
    }
  }

  /** The layout depends on types, indices and child counts only, which SameShape keeps. */
  lemma {:induction false} SameShapeShaped(a: Node, b: Node)
    requires SameShape(a, b) && Shaped(a)
    ensures Shaped(b)
    decreases a
  {
    var u := Deref(a.typ);
    if u.Struct? {
      var ex := ExportedFrom(u.fields, 0);
      assert forall k :: 0 <= k < |ex| ==> ex[k] < |u.fields| && b.children[k].index == a.children[k].index;
    }
    forall k | 0 <= k < |b.children|
      ensures Shaped(b.children[k])
    {
      SameShapeShaped(a.children[k], b.children[k]);
    }
  }

  /** Paths depend on paths and field names only, which SameShape keeps. */
  lemma {:induction false} SameShapePaths(a: Node, b: Node)
    requires SameShape(a, b) && PathsExtend(a)
    ensures PathsExtend(b)
    decreases a
  {
    forall k | 0 <= k < |b.children|
      ensures b.children[k].path == b.path + [b.children[k].field.name] && PathsExtend(b.children[k])
    {
      SameShapePaths(a.children[k], b.children[k]);
    }
  }

  /** Every node below a shaped node is shaped. */
  lemma {:induction false} ShapedDescend(n: Node, steps: seq<nat>)
    requires Shaped(n) && Descend(n, steps).Some?
    ensures Shaped(Descend(n, steps).value)
    decreases |steps|
  {
    if |steps| > 0 {
      ShapedDescend(n.children[steps[0]], steps[1..]);
    }
  }

  // ---- reflectStructType ----

  /**
   * reflectStructType accepts exactly a struct or one pointer to a struct (a
   * `**T` is refused), returns a struct, and accepts its own result, bare or
   * behind one pointer, unchanged.
   */
  lemma ReflectStructTypeAccepts(t: Type)
    ensures ReflectStructType(Some(t)).Success? <==> t.Struct? || (t.Ptr? && t.elem.Struct?)
    ensures ReflectStructType(Some(t)).Success? ==>
      var s := ReflectStructType(Some(t)).value;
      s.Struct? && (t.Struct? ==> s == t) && (t.Ptr? ==> s == t.elem) &&
      ReflectStructType(Some(s)) == Success(s) && ReflectStructType(Some(Ptr(s))) == Success(s)
  {
  }
}
