/**
 * What buildResolver and reflectStructType compute (resolver.go:265-332),
 * as functions on types: the resolver tree of a struct type is its value
 * tree of Nodes.  The class Resolvers.Resolver builds the same tree in place.
 */
module Build {
  import opened Wrappers
  import opened Strings
  import opened Types
  import opened Directives
  import opened Nodes

  /**
   * reflectStructType: the input is `None` for a nil interface; one level of
   * pointer is removed and what is left must be a struct.
   */
  function ReflectStructType(input: Option<Type>): (r: Result<Type, Error>)
    ensures r.Success? <==> input.Some? && Deref(input.value).Struct?
    ensures r.Success? ==> r.value == Deref(input.value)
    ensures input.None? ==> r == Failure(NilTypeError)
    ensures input.Some? && !Deref(input.value).Struct? ==> r == Failure(NonStructTypeError(Deref(input.value)))
  {
    if input.None? then Failure(NilTypeError)
    else
      var typ := Deref(input.value);
      if !typ.Struct? then Failure(NonStructTypeError(typ)) else Success(typ)
  }

  /**
   * The directives and path of a node: nothing for the root (no parent),
   * the parsed tag and the parent's path extended by the field name otherwise.
   */
  function Own(field: FieldDesc, parentPath: Option<seq<string>>, parse: Parser): Result<(seq<Directive>, seq<string>), Error> {
    if parentPath.None? then Success(([], []))
    else
      match Parsed(field.tag, parse)
      case Failure(e) => Failure(ParseDirectivesError(e))
      case Success(ds) => Success((ds, parentPath.value + [field.name]))
  }

  /** buildResolver(t, field, parent), where `parentPath` is the parent's Path, or None without a parent. */
  function BuildNode(t: Type, field: FieldDesc, parentPath: Option<seq<string>>, parse: Parser): Result<Node, Error>
    decreases t, 1
  {
    match Own(field, parentPath, parse)
    case Failure(e) => Failure(e)
    case Success(own) =>
      var u := Deref(t);
      var kids := if u.Struct? then BuildFrom(u, 0, [], own.1, parse) else Success([]);
      match kids
      case Failure(e) => Failure(e)
      case Success(cs) => Success(Node(t, field, -1, own.1, own.0, BACKGROUND, cs))
  }

  /**
   * The field loop of buildResolver from field `i` of struct `u`, with the
   * children built so far in `acc`; `path` is the path of the node being built.
   */
  function BuildFrom(u: Type, i: nat, acc: seq<Node>, path: seq<string>, parse: Parser): Result<seq<Node>, Error>
    requires u.Struct? && i <= |u.fields|
    decreases u, 0, |u.fields| - i
  {
    if i == |u.fields| then Success(acc)
    else
      var f := u.fields[i];
      assert f in u.fields;
      if !f.exported then BuildFrom(u, i + 1, acc, path, parse)
      else
        match BuildNode(f.typ, f, Some(path), parse)
        case Failure(e) => Failure(BuildResolverError(path + [f.name], e))
        case Success(c) => BuildFrom(u, i + 1, acc + [c.(index := i)], path, parse)
  }

  /** buildResolverTree: the root has no field and no parent. */
  function BuildTree(t: Type, parse: Parser): Result<Node, Error> {
    BuildNode(t, NO_FIELD, None, parse)
  }

  /** One step of the field loop over an exported field whose subtree builds. */
  lemma BuildFromStep(u: Type, i: nat, acc: seq<Node>, path: seq<string>, parse: Parser, c: Node)
    requires u.Struct? && i < |u.fields| && u.fields[i].exported
    requires BuildNode(u.fields[i].typ, u.fields[i], Some(path), parse) == Success(c)
    ensures BuildFrom(u, i, acc, path, parse) == BuildFrom(u, i + 1, acc + [c.(index := i)], path, parse)
  {
  }

  /** One step of the field loop over an exported field whose subtree fails. */
  lemma BuildFromFailure(u: Type, i: nat, acc: seq<Node>, path: seq<string>, parse: Parser, e: Error)
    requires u.Struct? && i < |u.fields| && u.fields[i].exported
    requires BuildNode(u.fields[i].typ, u.fields[i], Some(path), parse) == Failure(e)
    ensures BuildFrom(u, i, acc, path, parse) == Failure(BuildResolverError(path + [u.fields[i].name], e))
  {
  }
}
