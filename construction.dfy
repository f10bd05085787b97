/**
 * New (resolver.go:34-64) as a function: the struct type is taken from the
 * input, its tree is built, copied with fresh contexts, configured by the
 * options and validated.
 */
module Construction {
  import opened Wrappers
  import opened Types
  import opened Nodes
  import opened Build
  import opened Trees

  /** New, given the already normalised options. */
  function NewSpec(input: Option<Type>, opts: seq<BuildOption>, parse: Parser): (r: Result<Node, Error>)
    ensures input.None? ==> r == Failure(NilTypeError)
    ensures input.Some? && !Deref(input.value).Struct? ==> r == Failure(NonStructTypeError(Deref(input.value)))
    ensures input.Some? && Deref(input.value).Struct? && BuildTree(Deref(input.value), parse).Failure? ==>
      r == Failure(BuildTree(Deref(input.value), parse).error)
  {
    match ReflectStructType(input)
    case Failure(e) => Failure(e)
    case Success(t) =>
      match BuildTree(t, parse)
      case Failure(e) => Failure(e)
      case Success(tree) => Instantiate(tree, opts)
  }

  /** The part of New after the cache: copy, configure, validate. */
  function Instantiate(tree: Node, opts: seq<BuildOption>): Result<Node, Error> {
    match Configure(ResetContexts(tree), opts)
    case Failure(e) => Failure(e)
    case Success(configured) =>
      match Validate(configured.Label())
      case Some(e) => Failure(e)
      case None => Success(configured)
  }
}
