/**
 * What resolve and runDirectives promise (resolver.go:157-229): directives
 * run in declared order and the first missing or failing executor stops
 * them; children resolve in order, the first failure stops the loop and is
 * wrapped with its resolver; on success every child's value sits in the
 * field at the child's index and the other fields keep their values.
 */
module ResolutionFacts {
  import opened Wrappers
  import opened Types
  import opened Nodes
  import opened BuildFacts
  import opened Resolution

  /** Resolve options compose: applying `a` then `b` is applying `a + b`. */
  lemma {:induction false} FoldContextAppend(ctx: Context, a: seq<ResolveOption>, b: seq<ResolveOption>)
    ensures FoldContext(ctx, a + b) == FoldContext(FoldContext(ctx, a), b)
    decreases |a|
  {
    if |a| == 0 {
      assert a + b == b;
    } else {
      assert (a + b)[0] == a[0] && (a + b)[1..] == a[1..] + b;
      FoldContextAppend(a[0](ctx), a[1..], b);
    }
  }

  // ---- runDirectives ----

  /** Directive `k` of the node run on slot `v`: its executor is missing, fails, or gives the new slot. */
  function RunOne(l: Label, k: nat, ctx: Context, v: Value, exec: Execute): Outcome
    requires k < |l.directives|
  {
    var d := l.directives[k];
    var exe := if l.context.namespace.Some? then LookupExecutor(l.context.namespace.value, d.name) else None;
    if exe.None? then Outcome(v, Some(DirectiveExecutionError(d, MissingExecutorError)))
    else
      var o := exec(exe.value, DirectiveRuntime(d, l, ctx, v));
      if o.err.Some? then Outcome(o.value, Some(DirectiveExecutionError(d, o.err.value))) else Outcome(o.value, None)
  }

  /** The first `m` directives run one after the other, as a left fold that keeps the first failure. */
  function RunPrefix(l: Label, m: nat, ctx: Context, v: Value, exec: Execute): Outcome
    requires m <= |l.directives|
  {
    if m == 0 then Outcome(v, None)
    else
      var o := RunPrefix(l, m - 1, ctx, v, exec);
      if o.err.Some? then o else RunOne(l, m - 1, ctx, o.value, exec)
  }

  /** runDirectives is the first `m` directives, then, if they all ran, the rest from the slot they left. */
  lemma {:induction false} RunSplit(l: Label, m: nat, ctx: Context, v: Value, exec: Execute)
    requires m <= |l.directives|
    ensures var o := RunPrefix(l, m, ctx, v, exec);
      RunDirectives(l, ctx, v, exec) == if o.err.Some? then o else RunFrom(l, m, ctx, o.value, exec)
  {
    if m > 0 {
      RunSplit(l, m - 1, ctx, v, exec);
    }
  }

  /** runDirectives runs every directive in declared order. */
  lemma RunInOrder(l: Label, ctx: Context, v: Value, exec: Execute)
    ensures RunDirectives(l, ctx, v, exec) == RunPrefix(l, |l.directives|, ctx, v, exec)
  {
    RunSplit(l, |l.directives|, ctx, v, exec);
  }

  /** Once a directive has failed the later ones are not run: the outcome is that of the prefix. */
  lemma RunStopsAtFailure(l: Label, m: nat, ctx: Context, v: Value, exec: Execute)
    requires m <= |l.directives| && RunPrefix(l, m, ctx, v, exec).err.Some?
    ensures RunDirectives(l, ctx, v, exec) == RunPrefix(l, m, ctx, v, exec)
  {
    RunSplit(l, m, ctx, v, exec);
  }

  /** Every error of runDirectives is a DirectiveExecutionError naming one of the node's directives. */
  lemma {:induction false} RunErrorNamesDirective(l: Label, m: nat, ctx: Context, v: Value, exec: Execute)
    requires m <= |l.directives| && RunPrefix(l, m, ctx, v, exec).err.Some?
    ensures var e := RunPrefix(l, m, ctx, v, exec).err.value;
      e.DirectiveExecutionError? && exists j :: 0 <= j < m && e.directive == l.directives[j]
  {
    var o := RunPrefix(l, m - 1, ctx, v, exec);
    if o.err.Some? {
      RunErrorNamesDirective(l, m - 1, ctx, v, exec);
    } else {
      assert RunPrefix(l, m, ctx, v, exec).err.value.directive == l.directives[m - 1];
    }
  }

  /** Without a namespace the first directive already has no executor. */
  lemma RunWithoutNamespace(l: Label, ctx: Context, v: Value, exec: Execute)
    requires l.context.namespace.None? && |l.directives| > 0
    ensures RunDirectives(l, ctx, v, exec) == Outcome(v, Some(DirectiveExecutionError(l.directives[0], MissingExecutorError)))
  {
    RunStopsAtFailure(l, 1, ctx, v, exec);
  }

  // ---- resolve ----

  /** The value the child loop has built once children `k..j-1` have resolved and been written, in order. */
  function WriteChildren(n: Node, k: nat, j: nat, target: Value, ctx: Context, exec: Execute): Value
    requires k <= j <= |n.children|
    decreases j - k
  {
    if k == j then target
    else
      var c := n.children[k];
      WriteChildren(n, k + 1, j, SetField(target, c.index, ResolveNode(c, ctx, exec).value), ctx, exec)
  }

  /**
   * The first failing child decides the outcome of the child loop: its error,
   * wrapped with its resolver, and the target with the earlier siblings
   * written; the later siblings are not resolved.
   */
  lemma {:induction false} AssembleFirstFailure(n: Node, k: nat, target: Value, ctx: Context, exec: Execute, j: nat)
    requires k <= j < |n.children|
    requires forall i :: k <= i < j ==> ResolveNode(n.children[i], ctx, exec).err.None?
    requires ResolveNode(n.children[j], ctx, exec).err.Some?
    ensures AssembleFrom(n, k, target, ctx, exec) ==
      Outcome(WriteChildren(n, k, j, target, ctx, exec),
              Some(ResolveError(n.children[j].Label(), ResolveNode(n.children[j], ctx, exec).err.value)))
    decreases j - k
  {
    if k < j {
      var c := n.children[k];
      AssembleFirstFailure(n, k + 1, SetField(target, c.index, ResolveNode(c, ctx, exec).value), ctx, exec, j);
    }
  }

  /**
   * Writing children `k..j-1` puts each child's value in the field at its
   * index and leaves every other field, those of the later siblings
   * included, as it was.
   */
  lemma {:induction false} WriteChildrenFields(n: Node, k: nat, j: nat, target: Value, ctx: Context, exec: Execute)
    requires k <= j <= |n.children| && Slots(n, k, target)
    ensures var r := WriteChildren(n, k, j, target, ctx, exec);
      r.StructVal? && |r.fields| == |target.fields| &&
      (forall i :: k <= i < j ==> r.fields[n.children[i].index] == ResolveNode(n.children[i], ctx, exec).value) &&
      (forall f :: 0 <= f < |target.fields| && (forall i :: k <= i < j ==> n.children[i].index != f) ==>
         r.fields[f] == target.fields[f])
    decreases j - k
  {
    if k < j {
      var c := n.children[k];
      var next := SetField(target, c.index, ResolveNode(c, ctx, exec).value);
      WriteChildrenFields(n, k + 1, j, next, ctx, exec);
      var r := WriteChildren(n, k, j, target, ctx, exec);
      assert r == WriteChildren(n, k + 1, j, next, ctx, exec);
      assert next.fields[c.index] == ResolveNode(c, ctx, exec).value;
      assert r.fields[c.index] == next.fields[c.index];
    }
  }

  /** The child loop succeeds exactly when every child from `k` on resolves. */
  lemma {:induction false} AssembleSucceedsIff(n: Node, k: nat, target: Value, ctx: Context, exec: Execute)
    requires k <= |n.children|
    ensures AssembleFrom(n, k, target, ctx, exec).err.None? <==>
      forall i :: k <= i < |n.children| ==> ResolveNode(n.children[i], ctx, exec).err.None?
    decreases |n.children| - k
  {
    if k < |n.children| {
      var c := n.children[k];
      AssembleSucceedsIff(n, k + 1, SetField(target, c.index, ResolveNode(c, ctx, exec).value), ctx, exec);
    }
  }

  /** The children from `k` on have distinct indices, all fields of `target`. */
  ghost predicate Slots(n: Node, k: nat, target: Value)
    requires k <= |n.children|
  {
    target.StructVal? &&
    (forall i :: k <= i < |n.children| ==> 0 <= n.children[i].index < |target.fields|) &&
    (forall i, j :: k <= i < j < |n.children| ==> n.children[i].index != n.children[j].index)
  }

  /**
   * A successful child loop writes each child's value into the field at the
   * child's index and leaves every other field as it was.
   */
  lemma {:induction false} AssembleWrites(n: Node, k: nat, target: Value, ctx: Context, exec: Execute)
    requires k <= |n.children| && Slots(n, k, target)
    requires AssembleFrom(n, k, target, ctx, exec).err.None?
    ensures var r := AssembleFrom(n, k, target, ctx, exec).value;
      r.StructVal? && |r.fields| == |target.fields| &&
      (forall i :: k <= i < |n.children| ==> r.fields[n.children[i].index] == ResolveNode(n.children[i], ctx, exec).value) &&
      (forall f :: 0 <= f < |target.fields| && (forall i :: k <= i < |n.children| ==> n.children[i].index != f) ==>
         r.fields[f] == target.fields[f])
    decreases |n.children| - k
  {
    if k < |n.children| {
      var c := n.children[k];
      var next := SetField(target, c.index, ResolveNode(c, ctx, exec).value);
      AssembleWrites(n, k + 1, next, ctx, exec);
      var r := AssembleFrom(n, k, target, ctx, exec).value;
      assert r == AssembleFrom(n, k + 1, next, ctx, exec).value;
      assert next.fields[c.index] == ResolveNode(c, ctx, exec).value;
      assert r.fields[c.index] == next.fields[c.index];
    }
  }

  /** The field ordinals of the children of a struct node whose fields are laid out are distinct exported fields. */
  lemma ShapedSlots(n: Node, target: Value)
    requires FieldsLaidOut(n) && Deref(n.typ).Struct?
    requires target.StructVal? && |target.fields| == |Deref(n.typ).fields|
    ensures Slots(n, 0, target)
    ensures forall i :: 0 <= i < |n.children| ==> Deref(n.typ).fields[n.children[i].index].exported
  {
    var u := Deref(n.typ);
    var ex := ExportedFrom(u.fields, 0);
    ExportedFromExactly(u.fields, 0);
    assert forall i :: 0 <= i < |n.children| ==> n.children[i].index == ex[i];
  }

  /**
   * resolve on a struct node whose fields are laid out and whose children all
   * resolve: the value (behind a freshly allocated pointer for a pointer type)
   * has each child's value at the child's field ordinal, and every unexported
   * field holds what it held before the children ran: what the directives
   * left for a struct type, the zero value of the fresh struct for a pointer.
   */
  lemma ResolveStruct(n: Node, ctx: Context, exec: Execute)
    requires FieldsLaidOut(n) && |n.children| > 0
    requires RunDirectives(n.Label(), ctx, Zero(n.typ), exec).err.None?
    requires forall i :: 0 <= i < |n.children| ==> ResolveNode(n.children[i], ctx, exec).err.None?
    requires !n.typ.Ptr? ==> HasType(RunDirectives(n.Label(), ctx, Zero(n.typ), exec).value, n.typ)
    ensures var u := Deref(n.typ);
      var before := if n.typ.Ptr? then Zero(u) else RunDirectives(n.Label(), ctx, Zero(n.typ), exec).value;
      var r := ResolveNode(n, ctx, exec);
      var s := if n.typ.Ptr? then r.value.target.value else r.value;
      r.err.None? &&
      (n.typ.Ptr? ==> r.value.PtrVal? && r.value.target.Some?) &&
      s.StructVal? && |s.fields| == |u.fields| &&
      (forall i :: 0 <= i < |n.children| ==> s.fields[n.children[i].index] == ResolveNode(n.children[i], ctx, exec).value) &&
      (forall f :: 0 <= f < |u.fields| && !u.fields[f].exported ==> s.fields[f] == before.fields[f])
  {
    var u := Deref(n.typ);
    assert u.Struct?;
    var ran := RunDirectives(n.Label(), ctx, Zero(n.typ), exec);
    var target := if n.typ.Ptr? then Zero(n.typ.elem) else ran.value;
    assert HasType(target, u);
    ShapedSlots(n, target);
    AssembleSucceedsIff(n, 0, target, ctx, exec);
    AssembleWrites(n, 0, target, ctx, exec);
  }

  /**
   * A failing child makes resolve fail with a ResolveError for the first
   * failing child; the value is the target (behind the pointer allocated
   * before the loop, for a pointer type) with only the earlier siblings written.
   */
  lemma ResolveChildFailure(n: Node, ctx: Context, exec: Execute, j: nat)
    requires j < |n.children|
    requires RunDirectives(n.Label(), ctx, Zero(n.typ), exec).err.None?
    requires forall i :: 0 <= i < j ==> ResolveNode(n.children[i], ctx, exec).err.None?
    requires ResolveNode(n.children[j], ctx, exec).err.Some?
    ensures var ran := RunDirectives(n.Label(), ctx, Zero(n.typ), exec);
      var target := if n.typ.Ptr? then Zero(n.typ.elem) else ran.value;
      var written := WriteChildren(n, 0, j, target, ctx, exec);
      ResolveNode(n, ctx, exec) ==
        Outcome(if n.typ.Ptr? then PtrVal(Some(written)) else written,
                Some(ResolveError(n.children[j].Label(), ResolveNode(n.children[j], ctx, exec).err.value)))
  {
    var ran := RunDirectives(n.Label(), ctx, Zero(n.typ), exec);
    var target := if n.typ.Ptr? then Zero(n.typ.elem) else ran.value;
    AssembleFirstFailure(n, 0, target, ctx, exec, j);
  }

  /** A failing directive stops resolve before any child is resolved: the outcome is that of runDirectives. */
  lemma ResolveDirectiveFailure(n: Node, ctx: Context, exec: Execute)
    requires RunDirectives(n.Label(), ctx, Zero(n.typ), exec).err.Some?
    ensures ResolveNode(n, ctx, exec) == RunDirectives(n.Label(), ctx, Zero(n.typ), exec)
  {
  }

  /** The directives of the node run without error on the zero value of its type. */
  ghost predicate DirectivesOk(m: Node, ctx: Context, exec: Execute) {
    RunDirectives(m.Label(), ctx, Zero(m.typ), exec).err.None?
  }

  /** Every node of the sequence has its directives run without error. */
  ghost predicate AllDirectivesOk(ns: seq<Node>, ctx: Context, exec: Execute) {
    forall i :: 0 <= i < |ns| ==> DirectivesOk(ns[i], ctx, exec)
  }

  lemma AllDirectivesOkAppend(a: seq<Node>, b: seq<Node>, ctx: Context, exec: Execute)
    ensures AllDirectivesOk(a + b, ctx, exec) <==> AllDirectivesOk(a, ctx, exec) && AllDirectivesOk(b, ctx, exec)
  {
    if AllDirectivesOk(a, ctx, exec) && AllDirectivesOk(b, ctx, exec) {
      forall i | 0 <= i < |a + b|
        ensures DirectivesOk((a + b)[i], ctx, exec)
      {
        if i >= |a| {
          assert (a + b)[i] == b[i - |a|];
        }
      }
    }
    if AllDirectivesOk(a + b, ctx, exec) {
      forall i | 0 <= i < |a|
        ensures DirectivesOk(a[i], ctx, exec)
      {
        assert (a + b)[i] == a[i];
      }
      forall i | 0 <= i < |b|
        ensures DirectivesOk(b[i], ctx, exec)
      {
        assert (a + b)[|a| + i] == b[i];
      }
    }
  }

  /**
   * resolve succeeds exactly when the directives of every node of the tree
   * succeed: each node's directives run on the zero value of its own type,
   * whatever its parent did.
   */
  lemma {:induction false} ResolveSucceedsIff(n: Node, ctx: Context, exec: Execute)
    ensures ResolveNode(n, ctx, exec).err.None? <==> AllDirectivesOk(PreOrder(n), ctx, exec)
    decreases n, 1
  {
    AllDirectivesOkAppend([n], PreOrderFrom(n, 0), ctx, exec);
    var ran := RunDirectives(n.Label(), ctx, Zero(n.typ), exec);
    if ran.err.None? && |n.children| > 0 {
      var target := if n.typ.Ptr? then Zero(n.typ.elem) else ran.value;
      AssembleOkFrom(n, 0, target, ctx, exec);
    }
  }

  /** The child loop from child `k` on succeeds exactly when every directive in those children's subtrees does. */
  lemma {:induction false} AssembleOkFrom(n: Node, k: nat, target: Value, ctx: Context, exec: Execute)
    requires k <= |n.children|
    ensures AssembleFrom(n, k, target, ctx, exec).err.None? <==> AllDirectivesOk(PreOrderFrom(n, k), ctx, exec)
    decreases n, 0, |n.children| - k
  {
    if k < |n.children| {
      var c := n.children[k];
      assert c in n.children;
      ResolveSucceedsIff(c, ctx, exec);
      AllDirectivesOkAppend(PreOrder(c), PreOrderFrom(n, k + 1), ctx, exec);
      AssembleOkFrom(n, k + 1, SetField(target, c.index, ResolveNode(c, ctx, exec).value), ctx, exec);
    }
  }
}
