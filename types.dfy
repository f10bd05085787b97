/**
 * The values the resolver works on.  Go's `reflect.Type`, `reflect.StructField`
 * and `reflect.Value` become explicit datatypes; `context.Context` becomes a
 * record; the collaborators that resolver.go calls but does not define
 * (ParseDirective, option functions, executors) become function types.
 */
module Types {
  import opened Wrappers

  /** A Go type as far as the resolver looks at it: a struct, a pointer, or anything else. */
  datatype Type =
    | Struct(name: string, fields: seq<FieldDesc>)
    | Ptr(elem: Type)
    | Other(name: string)

  /**
   * One field of a struct type.  `tag` is the value of the struct tag under
   * the engine's tag key (what `field.Tag.Get(Tag())` returns, "" when absent).
   */
  datatype FieldDesc = FieldDesc(name: string, typ: Type, tag: string, exported: bool)

  /** reflect.StructField{}: the field of the root resolver. */
  const NO_FIELD := FieldDesc("", Other(""), "", false)

  /** reflect.Kind() == reflect.Ptr, then Elem(): at most one level is removed. */
  function Deref(t: Type): (u: Type)
    ensures t.Ptr? ==> u == t.elem
    ensures !t.Ptr? ==> u == t
  {
    if t.Ptr? then t.elem else t
  }

  /** The `%v` rendering of a type. */
  function TypeName(t: Type): string {
    match t
    case Struct(name, _) => name
    case Ptr(elem) => "*" + TypeName(elem)
    case Other(name) => name
  }

  /** A Go value of the shapes the resolver builds: a struct, a pointer (nil or not) or a scalar. */
  datatype Value =
    | StructVal(fields: seq<Value>)
    | PtrVal(target: Option<Value>)
    | Scalar(data: string)

  /** The value has the shape of the type. */
  ghost predicate HasType(v: Value, t: Type) {
    match t
    case Struct(_, fs) =>
      v.StructVal? && |v.fields| == |fs| &&
      forall k :: 0 <= k < |fs| ==> HasType(v.fields[k], fs[k].typ)
    case Ptr(elem) =>
      v.PtrVal? && (v.target.Some? ==> HasType(v.target.value, elem))
    case Other(_) =>
      v.Scalar?
  }

  /** What `reflect.New(t).Elem()` holds: the zero value of `t`, nil for pointers. */
  function Zero(t: Type): (v: Value)
    ensures HasType(v, t)
    ensures t.Ptr? ==> v == PtrVal(None)
  {
    match t
    case Struct(_, fs) => StructVal(ZeroFields(t, 0))
    case Ptr(_) => PtrVal(None)
    case Other(_) => Scalar("")
  }

  function ZeroFields(t: Type, from: nat): (vs: seq<Value>)
    requires t.Struct? && from <= |t.fields|
    ensures |vs| == |t.fields| - from
    ensures forall k :: 0 <= k < |vs| ==> HasType(vs[k], t.fields[from + k].typ)
    decreases t, |t.fields| - from
  {
    if from == |t.fields| then []
    else
      assert t.fields[from] in t.fields;
      [Zero(t.fields[from].typ)] + ZeroFields(t, from + 1)
  }

  /** `underlying.Elem().Field(i).Set(x)`; reflection panics on anything but a struct with field `i`. */
  function SetField(target: Value, i: int, x: Value): (r: Value)
    ensures target.StructVal? && 0 <= i < |target.fields| ==>
      r.StructVal? && r.fields == target.fields[i := x]
    ensures !(target.StructVal? && 0 <= i < |target.fields|) ==> r == target
  {
    if target.StructVal? && 0 <= i < |target.fields| then StructVal(target.fields[i := x]) else target
  }

  /** Writing a value of the field's type into a field keeps a struct value of its type. */
  lemma SetFieldHasType(target: Value, t: Type, i: nat, x: Value)
    requires t.Struct? && i < |t.fields|
    requires HasType(target, t) && HasType(x, t.fields[i].typ)
    ensures HasType(SetField(target, i, x), t)
  {
    var r := SetField(target, i, x);
    forall k | 0 <= k < |t.fields|
      ensures HasType(r.fields[k], t.fields[k].typ)
    {
      if k != i {
        assert r.fields[k] == target.fields[k];
      }
    }
  }

  /** A parsed tag segment. */
  datatype Directive = Directive(name: string, argv: seq<string>)

  /** What a Namespace hands out for a directive name. */
  datatype Executor = Executor(id: nat)

  /** The executor registry. */
  datatype Namespace = Namespace(executors: map<string, Executor>)

  function LookupExecutor(ns: Namespace, name: string): (e: Option<Executor>)
    ensures e.Some? <==> name in ns.executors
    ensures e.Some? ==> e.value == ns.executors[name]
  {
    if name in ns.executors then Some(ns.executors[name]) else None
  }

  /**
   * The per-node and per-resolve `context.Context`: the bound namespace
   * (None stands for a nil *Namespace) and other values options attach.
   */
  datatype Context = Context(namespace: Option<Namespace>, values: map<string, string>)

  /** context.Background() */
  const BACKGROUND := Context(None, map[])

  /** What a callback sees of a resolver node: every field but the tree links. */
  datatype Label = Label(
    typ: Type, field: FieldDesc, index: int, path: seq<string>,
    directives: seq<Directive>, context: Context)

  /** What a build option may change on a node. */
  datatype Settings = Settings(context: Context, directives: seq<Directive>)

  datatype Error =
    | NilTypeError                                       // "nil type"
    | NonStructTypeError(typ: Type)                      // "non-struct type: %v"
    | DuplicateDirectiveError(name: string)              // duplicateDirective(name)
    | ParseDirectivesError(cause: Error)                 // "parse directives: %w"
    | BuildResolverError(path: seq<string>, cause: Error) // "build resolver for %q failed: %w", %q of the dotted path
    | NilNamespaceError                                  // ErrNilNamespace
    | MissingExecutorError                               // ErrMissingExecutor
    | DirectiveExecutionError(directive: Directive, cause: Error)
    | ResolveError(resolver: Label, cause: Error)
    | ExternalError(message: string)                     // an error produced by a collaborator

  /** The slot a resolution step leaves behind, and its error if it failed. */
  datatype Outcome = Outcome(value: Value, err: Option<Error>)

  /** DirectiveRuntime: what an executor is given. */
  datatype DirectiveRuntime = DirectiveRuntime(directive: Directive, resolver: Label, context: Context, value: Value)

  /** ParseDirective: one trimmed, non-empty tag segment to a directive. */
  type Parser = string -> Result<Directive, Error>

  /** Executor.Execute: it may write the value slot, and it may fail. */
  type Execute = (Executor, DirectiveRuntime) -> Outcome

  /** Option.Apply on one node: new settings for the node, or an error. */
  type BuildOption = Label -> Result<Settings, Error>

  /** ResolveOption.Apply */
  type ResolveOption = Context -> Context
}
