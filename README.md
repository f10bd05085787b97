# owl resolver tree, modelled in Dafny

owl fills a Go struct from a data source using directives written in
struct tags. Its engine, `resolver.go`, does four things:

- It builds a tree of `Resolver` nodes that mirrors the exported fields of
  a struct type. The root is a sentinel; each other node is one field.
- It caches that tree per type.
- `New` copies the cached tree, applies options to every node and checks
  that the root has a namespace.
- `Resolve` walks the tree. At each node it runs the node's directives
  through executors looked up in the namespace, and writes the value of
  each child into the field at the child's ordinal.

The model has the same layers.

- `Types` holds Go's `reflect.Type`, `reflect.StructField` and
  `reflect.Value` as datatypes (`Type`, `FieldDesc`, `Value`), and the
  `context.Context` of a node as a `Context` record with an optional
  namespace. The collaborators that `resolver.go` calls but does not define
  become function types:
  - `ParseDirective` is `Parser`;
  - a build option is `BuildOption`;
  - a resolve option is `ResolveOption`;
  - `Executor.Execute` is `Execute`.
- `Strings` holds `strings.TrimSpace`, `Split`, `Join`, `Repeat` and
  `strconv.Itoa`, with the facts about them that the resolver relies on.
- `Directives` holds `parseDirectives`. It is a method with the source's
  loop and `existed` map, proved equal to the function `Parsed`, and
  `Parsed` is characterised by lemmas.
- `Nodes`, `Build`, `Trees`, `Resolution` and `Construction` are the pure
  specification. A tree is a `Node` value. `BuildTree`, `ResetContexts`
  (copy), `Configure` (the option pass), `Find`/`Lookup`, `Visit`
  (iterateTree), `Layout` (DebugLayoutText), `ResolveNode` and `NewSpec`
  are functions on it.
- `BuildFacts`, `TreeFacts`, `ResolutionFacts` and `ConstructionFacts`
  prove what the source promises about those functions. The facts about
  lookup and resolve are stated for every tree whose shape is that of a
  built tree, and `ConstructionFacts` shows that every tree `New` returns
  has that shape.
- `GoPaths` takes `append` at its Go meaning, with slices sharing backing
  arrays, to show what `Path` holds in the tree Go builds (see Findings).
- `Resolvers` holds the class `Resolver`, with the fields of the Go struct,
  and the class `TreeCache`, with the cache as a `map` field. Every
  operation that changes nodes in place is a method there. Each method is
  proved against the specification function through the abstraction
  `Abs()`:
  - building, with `Index` and `Children` updated in place;
  - copying, with fresh nodes and rebound `Parent` links;
  - applying options, the cache, `New` and `Resolve`.

`IsRoot`, `IsLeaf`, `PathString` and `String` are one-line predicates or
functions: `Resolver.IsRoot`, `Resolver.IsLeaf`, `Trees.PathString` and
`Trees.Describe`.

Where the behaviour is easy to misread:

- `Lookup("")` splits into `[""]`, so it looks for a child whose field name
  is empty and does not return the node itself (`LookupEmptyString`).
- `Lookup(PathString(m.Path))` finds `m` for every non-root node `m` of a
  tree whose child paths extend by field names and whose sibling names are
  unique and dot-free (`LookupPathString`), but not for the root. This holds
  for the model's paths; for the paths Go builds it can fail, as it does for
  field X of `GoPaths.DEEP_PAIR`, whose path reads A.B.C.Y (Findings).

## Model

| member | source | states |
|---|---|---|
| Types.Deref | resolver.go:287-289 | definition: `t.Kind() == reflect.Ptr` then `t.Elem()`, one level only; what it means for the tree is stated by BuildFacts.BuildNonStructLeaf and BuildFacts.ReflectStructTypeAccepts |
| Types.Zero | resolver.go:170 | the zero value of a type has the shape of the type, and a pointer's zero value is nil |
| Types.ZeroFields | resolver.go:170 | a zero struct has one value per field, each shaped like that field's type |
| Types.SetField | resolver.go:195 | definition: `Field(i).Set(x)` on a struct value; its partners are Types.SetFieldHasType and ResolutionFacts.AssembleWrites |
| Types.SetFieldHasType | resolver.go:195 | writing a value of the field's type into field `i` of a struct value keeps a value of the struct's type |
| Types.LookupExecutor | resolver.go:212 | definition: the namespace's registry looked up by directive name; its effect on resolve is stated by ResolutionFacts.RunWithoutNamespace and RunErrorNamesDirective |
| Strings.TrimLeftSuffix | resolver.go:335 | left trimming removes a whitespace prefix and nothing else, and what remains does not start with whitespace |
| Strings.TrimRightPrefix | resolver.go:335 | right trimming removes a whitespace suffix and nothing else, and what remains does not end with whitespace |
| Strings.TrimSpaceEmpty | resolver.go:339-341 | a trimmed segment is empty exactly when the segment is all whitespace |
| Strings.TrimSpaceInfix | resolver.go:335-339 | trimming cannot introduce a `;` that was not in the text |
| Strings.TrimSpaceIdempotent | resolver.go:335-339 | trimming a trimmed string changes nothing |
| Strings.Split | resolver.go:338 | splitting yields at least one piece, and no piece contains the separator |
| Strings.JoinSplit | resolver.go:338 | joining the pieces of a split with the separator gives back the original text |
| Strings.SplitJoin | resolver.go:96-98 | splitting the dotted join of a non-empty path whose names have no dot gives back the path |
| Strings.SplitAfterPiece | resolver.go:115 | splitting `a + sep + b`, with no separator in `a`, gives `a` followed by the pieces of `b` |
| Strings.SplitWithoutSeparator | resolver.go:115 | a text without the separator splits into itself alone |
| Strings.JoinAbsent | resolver.go:96-98 | a joined path contains a character only if a name or the separator does |
| Strings.Repeat | resolver.go:238 | the indentation is the unit repeated `depth+1` times: its length is the product |
| Strings.RepeatAbsent | resolver.go:238 | the indentation contains no character that the unit lacks, so no newline |
| Strings.Digit | resolver.go:239 | one decimal digit is a character `0`..`9` |
| Strings.NatToString | resolver.go:239 | a natural number prints as a non-empty string of decimal digits |
| Strings.Itoa | resolver.go:234-239 | an integer prints without a newline, with a leading `-` exactly when it is negative |
| Strings.CountCharAppend | resolver.go:232-243 | the newlines of the text the builder collects are the sum over the pieces written |
| Strings.CountCharAbsent | resolver.go:232-243 | a piece without newlines adds no line |
| Strings.JoinCount | resolver.go:96-98 | joining `k` pieces that contain no separator holds `k-1` separators |
| Directives.NonEmpty | resolver.go:339-342 | the trimmed segments that survive are never empty and there are no more of them than pieces |
| Directives.ParseDirectives | resolver.go:334-354 | the loop with its `existed` map returns exactly `Parsed(tag)`, the parse of the non-empty trimmed `;`-segments |
| Directives.ParseFromSegments | resolver.go:338-352 | the loop from piece `i` on, with the directives collected so far, is those directives followed by the parse of the non-empty trimmed remaining segments |
| Directives.NamesCons | resolver.go:347-350 | the names seen after a directive are its name plus the names seen before |
| Directives.DistinctCons | resolver.go:347-350 | a new name in front of distinct names keeps them distinct |
| Directives.ParseSegmentsSuccess | resolver.go:343-351 | on success every segment gives one directive, in order, each what ParseDirective returns for it; names are distinct and none was taken before |
| Directives.ParseSegmentsSucceeds | resolver.go:343-351 | conversely, segments that all parse to distinct, untaken names give exactly those directives |
| Directives.ParseSegmentsFirstFailure | resolver.go:343-349 | the first segment that fails to parse or repeats a name decides the error: ParseDirective's error as it is, or `duplicateDirective` of the name |
| Directives.NonEmptySegments | resolver.go:338-342 | every segment handed to ParseDirective is non-empty, free of `;` and already trimmed |
| Directives.ParsedInOrder | resolver.go:334-354 | a successful parse of a tag yields the parsed segments, in their order in the tag, with distinct names |
| Directives.ParseSegmentsSucceedsIff | resolver.go:343-351 | the segment loop succeeds if and only if every segment parses and no name repeats |
| Directives.ParsedSucceedsIff | resolver.go:334-354 | parseDirectives succeeds if and only if every segment of the tag parses and no name repeats |
| Directives.ParsedFirstFailure | resolver.go:343-349 | the failure of parseDirectives is that of the first segment that fails or repeats a name |
| Directives.BlankTagHasNoDirectives | resolver.go:335-342 | an empty or all-whitespace tag yields no directives and no error |
| Nodes.PreOrder | resolver.go:143-155 | the pre-order of a tree starts with its root |
| Build.ReflectStructType | resolver.go:313-332 | definition: nil fails with "nil type", one pointer level is removed, and a non-struct fails with "non-struct type"; its partner is BuildFacts.ReflectStructTypeAccepts |
| Build.BuildFromStep | resolver.go:297-307 | unfolding step used by Resolver.BuildField and the BuildFacts inductions, not a partner lemma: an exported field whose subtree builds is appended as a child with `Index` equal to the field's ordinal |
| Build.BuildFromFailure | resolver.go:301-305 | unfolding step used by Resolver.BuildField and the BuildFacts inductions, not a partner lemma: a field whose subtree fails makes the loop fail with the dotted path `Path + [field.Name]` and the cause |
| BuildFacts.ExportedFromExactly | resolver.go:292-299 | the ordinals the field loop keeps are increasing, all exported, and include every exported field |
| BuildFacts.BuildNodeWellBuilt | resolver.go:269-311 | a built node has the given type and field and the background context; a node with a parent has the parent's path plus its field name and the directives of its own tag; its children are exactly the exported fields in order, at their ordinals, in every subtree |
| BuildFacts.ChildrenForCons | resolver.go:301-307 | one child built for field `i`, before children built for the later exported fields, gives children for `[i]` followed by those fields |
| BuildFacts.BuildFromWellBuilt | resolver.go:292-308 | the field loop keeps the children already built and adds one well-built child per exported field at or after `i`, in order |
| BuildFacts.BuildTreeRoot | resolver.go:265-285 | the root of a built tree has `Index -1`, no field, an empty path, no directives, and a well-built subtree |
| BuildFacts.BuildNonStructLeaf | resolver.go:287-291 | a type that is not a struct, or one pointer to a struct, is not expanded |
| BuildFacts.BuildFromFirstFailure | resolver.go:292-305 | the first exported field whose subtree fails decides the error, wrapped with its dotted path; no partial tree is returned |
| BuildFacts.BuildFromSucceedsIff | resolver.go:292-308 | the field loop succeeds if and only if every exported field from `i` on builds |
| BuildFacts.WellBuiltBackground | resolver.go:275 | every node of a built tree carries the background context |
| BuildFacts.WellBuiltChild | resolver.go:284 | a child of a built node has the parent's path plus its field name, and is built |
| BuildFacts.WellBuiltDepth | resolver.go:284 | a node reached by `k` steps has a path `k` names longer, extending the start node's path |
| BuildFacts.WellBuiltPaths | resolver.go:284 | in a built tree every child's path extends its parent's by its field name |
| BuildFacts.PathsDepth | resolver.go:284 | where paths extend by field names, a node reached by `k` steps has a path `k` longer that extends the start's |
| BuildFacts.WellBuiltShaped | resolver.go:291-308 | in a built tree every node's children are its exported fields at their ordinals, and a non-struct node has none |
| BuildFacts.SameShapeShaped | resolver.go:44-57 | that layout survives the copy and the option pass, which keep types, indices and child counts |
| BuildFacts.SameShapePaths | resolver.go:44-57 | paths that extend by field names survive the copy and the option pass |
| BuildFacts.ShapedDescend | resolver.go:291-308 | every node below a laid-out node is laid out |
| BuildFacts.ReflectStructTypeAccepts | resolver.go:313-332 | reflectStructType accepts exactly a struct or one pointer to a struct, a `**T` not; it returns a struct, the input or its element, and accepts its own result bare or behind one pointer unchanged |
| Trees.ResetPrefixElements | resolver.go:72-76 | the copied children are the children in order, each copied with fresh contexts |
| Trees.ConfigureFromStep | resolver.go:148-152 | unfolding step used by Resolver.ConfigureChild, not a partner lemma: a child whose subtree is configured is replaced by its configured subtree, and the loop goes on |
| Trees.ConfigureFromFailure | resolver.go:148-152 | unfolding step used by Resolver.ConfigureChild, not a partner lemma: a child whose options fail stops the loop with that error |
| Trees.Validate | resolver.go:80-86 | definition: ErrNilNamespace when the root has no namespace; what it means for New is stated by ConstructionFacts.NewValidation and NewSucceedsIff |
| Trees.FirstNamed | resolver.go:123-127 | the position found holds the first child with that field name; no position means no child has it |
| TreeFacts.ResetContextsSpec | resolver.go:66-78 | a copy has the background context at every node and is equal to the original in everything else, shape included |
| TreeFacts.ResetContextsIff | resolver.go:66-78 | two trees have equal copies if and only if they differ at most in their contexts |
| TreeFacts.ResetContextsFixed | resolver.go:66-78 | copying a tree whose contexts are all background changes nothing |
| TreeFacts.ResetContextsIdempotent | resolver.go:66-78 | copying a copy gives the same tree |
| TreeFacts.CopyOfBuilt | resolver.go:40-44 | the copy New takes of a freshly built tree equals that tree |
| TreeFacts.ApplyOptsKeeps | resolver.go:49-53 | options change only a node's context and directives |
| TreeFacts.ConfigureFromSound | resolver.go:148-152 | after the child loop succeeds, the earlier children are untouched and each later child is its configured subtree |
| TreeFacts.ConfigureSound | resolver.go:48-57 | a successful option pass configures every node from its own label, with the options in order |
| TreeFacts.ConfigureFromComplete | resolver.go:148-152 | conversely, children that each configure give a successful child loop with exactly those children |
| TreeFacts.ConfigureComplete | resolver.go:48-57 | conversely, a tree configured node by node is what the option pass returns |
| TreeFacts.ConfigureIff | resolver.go:48-57 | the option pass returns `m` if and only if `m` is the tree configured node by node |
| TreeFacts.ConfiguredShape | resolver.go:48-57 | the option pass keeps the shape of the tree |
| TreeFacts.ConfigureIsVisit | resolver.go:48-57 | the error of the option pass is exactly what iterateTree returns with the options callback |
| TreeFacts.ConfigureFromIsVisitFrom | resolver.go:148-152 | the same for the child loop from child `k` on |
| TreeFacts.FirstErrorAppend | resolver.go:143-155 | the first error over two node lists in a row is that of the first list or, if none, that of the second |
| TreeFacts.FirstErrorAt | resolver.go:143-155 | the first node whose callback fails decides the error |
| TreeFacts.FirstErrorNone | resolver.go:143-155 | there is no error if and only if the callback succeeds on every node |
| TreeFacts.VisitPreOrder | resolver.go:143-155 | iterateTree's result is the first callback error in depth-first pre-order |
| TreeFacts.VisitFromPreOrder | resolver.go:148-152 | the child loop of iterateTree visits the pre-order of children `k..` |
| TreeFacts.FindAppend | resolver.go:118-130 | following `p + q` is following `p` and then `q`; a missing step gives nil, never a partial node |
| TreeFacts.FindPath | resolver.go:118-130 | where paths extend by field names, the node `p` leads to has path `Path + p` |
| TreeFacts.FindDescend | resolver.go:118-130 | with unique field names among siblings, every node is found by the part of its path below the start |
| TreeFacts.FirstNamedAt | resolver.go:123-127 | the first child carrying the name is the one selected |
| TreeFacts.DotFreePath | resolver.go:284 | when the field names have no dot, neither has any name in a node's path |
| TreeFacts.LookupPathString | resolver.go:96-116 | in a tree rooted at an empty path whose child paths extend by field names, with unique, dot-free names, Lookup of a non-root node's PathString returns that node |
| TreeFacts.LookupEmptyString | resolver.go:114-116 | Lookup of the empty string finds nothing when no child field has an empty name; it does not return the node itself |
| TreeFacts.PathStringSplit | resolver.go:96-116 | splitting the PathString of a non-empty dot-free path gives back the path |
| TreeFacts.LayoutLines | resolver.go:231-244 | DebugLayoutText writes one line per node: the number of newlines is the number of nodes minus one |
| TreeFacts.LayoutFromLines | resolver.go:236-242 | the child loop writes one line per node of children `k..` |
| TreeFacts.ChildLineLines | resolver.go:237-241 | a child entry adds exactly one newline before its own subtree's text |
| ResolutionFacts.FoldContextAppend | resolver.go:160-164 | resolve options compose: applying `a` then `b` is applying `a + b` |
| ResolutionFacts.RunSplit | resolver.go:205-226 | runDirectives is its first `m` directives and then, if none failed, the rest from the value they left |
| ResolutionFacts.RunInOrder | resolver.go:205-226 | runDirectives runs the directives one after the other in declared order |
| ResolutionFacts.RunStopsAtFailure | resolver.go:213-225 | once a directive has failed, no later directive runs |
| ResolutionFacts.RunErrorNamesDirective | resolver.go:213-225 | every error of runDirectives is a DirectiveExecutionError naming one of the node's directives |
| ResolutionFacts.RunWithoutNamespace | resolver.go:212-218 | without a namespace the first directive already has no executor and fails with ErrMissingExecutor |
| ResolutionFacts.WriteChildren | resolver.go:187-195 | definition: the target with children `k..j-1` resolved and written in order |
| ResolutionFacts.AssembleFirstFailure | resolver.go:187-194 | the first child that fails decides the whole outcome: its error wrapped as ResolveError with that child, and the target with only the earlier children written; later siblings do not run |
| ResolutionFacts.WriteChildrenFields | resolver.go:187-195 | writing children `k..j-1` puts each one's value at its index and leaves every other field, later siblings' included, as it was |
| ResolutionFacts.AssembleSucceedsIff | resolver.go:187-196 | the child loop succeeds if and only if every child resolves |
| ResolutionFacts.AssembleWrites | resolver.go:187-196 | a successful child loop writes every child's value at the child's index and leaves every other field as it was |
| ResolutionFacts.ShapedSlots | resolver.go:292-306 | the children of a struct node laid out as buildResolver lays them out sit at distinct, exported field ordinals inside the struct |
| ResolutionFacts.ResolveStruct | resolver.go:169-200 | resolving a struct node whose fields are laid out and whose directives and children succeed gives a struct with each child's value at its index; for a struct type the unexported fields are as the directives left them; for a pointer type the struct is a fresh zero struct behind the new pointer, replacing what the directives set (resolver.go:182-184), so its unexported fields are zero |
| ResolutionFacts.ResolveChildFailure | resolver.go:178-194 | after the directives succeed, the first failing child makes resolve fail with its ResolveError, and the value is the target with only the earlier children written, behind the pointer allocated before the loop for a pointer type |
| ResolutionFacts.ResolveDirectiveFailure | resolver.go:172-175 | a failing directive ends resolve with the outcome of runDirectives: no child is resolved |
| ResolutionFacts.AllDirectivesOkAppend | resolver.go:187-196 | the directives of two node lists in a row all succeed exactly when those of each list do |
| ResolutionFacts.ResolveSucceedsIff | resolver.go:169-200 | resolve succeeds if and only if the directives of every node of the tree succeed on the zero value of the node's type |
| ResolutionFacts.AssembleOkFrom | resolver.go:187-196 | the child loop from child `k` on succeeds if and only if the directives of every node in those children's subtrees succeed |
| Construction.NewSpec | resolver.go:34-64 | definition of New as a function: input check, cached build, copy, option pass, validate; its partners are ConstructionFacts.NewSucceedsIff, NewShape, NewOptionError and NewValidation |
| Construction.Instantiate | resolver.go:44-63 | definition: copy, option pass and validate of a built tree |
| ConstructionFacts.NewShape | resolver.go:34-64 | a tree New returns is the built tree of the input's struct type, configured node by node with the same shape, rooted at `Index -1` with an empty path and a namespace |
| ConstructionFacts.NewOptionError | resolver.go:47-57 | when options fail somewhere, New fails with the error of the first failing node in pre-order |
| ConstructionFacts.NewValidation | resolver.go:59-63 | when the options all succeed, New fails exactly when the root has no namespace, and otherwise returns the configured tree |
| ConstructionFacts.NewSucceedsIff | resolver.go:34-64 | New succeeds if and only if the input is a struct (or one pointer to one) whose tree builds, the options succeed at every node and they leave the root a namespace; the options succeed exactly when no node's options fail |
| ConstructionFacts.NewShaped | resolver.go:34-64 | the tree New returns is laid out at every node, its paths extend by field names, and its root path is empty |
| ConstructionFacts.NewFindPath | resolver.go:118-130 | in the tree New returns, the node that findResolver reaches by `p` has path `p` |
| ConstructionFacts.NewNodesLaidOut | resolver.go:291-308 | every node of the tree New returns has as children its exported fields, at their ordinals |
| ConstructionFacts.NewLookupPathString | resolver.go:96-116 | in the tree New returns, with unique, dot-free names, Lookup of a non-root node's PathString returns that node |
| ConstructionFacts.NewResolveStruct | resolver.go:169-200 | resolving a struct node of the tree New returns, when its directives and children succeed, writes every child's value at its exported field ordinal |
| Build.Own | resolver.go:278-285 | definition: no directives and no path without a parent; otherwise the parsed tag, wrapped as "parse directives" on failure, and the parent's path plus the field name |
| Build.BuildNode | resolver.go:269-311 | definition of buildResolver: the node, its own part, then the field loop over the pointer-unwrapped struct; its partners are BuildFacts.BuildNodeWellBuilt and BuildFromSucceedsIff |
| Build.BuildFrom | resolver.go:292-308 | definition of the field loop; its partners are BuildFacts.BuildFromWellBuilt, BuildFromFirstFailure and BuildFromSucceedsIff |
| Build.BuildTree | resolver.go:265-267 | definition: buildResolver with no field and no parent; its partner is BuildFacts.BuildTreeRoot |
| Directives.Segments | resolver.go:335-342 | definition: the trimmed tag split at `;`, each piece trimmed, the empty ones dropped; its partners are Directives.NonEmptySegments and BlankTagHasNoDirectives |
| Strings.TrimSpace | resolver.go:335 | definition of strings.TrimSpace as a left trim then a right trim of Unicode white space; its partners are Strings.TrimLeftSuffix, TrimRightPrefix, TrimSpaceEmpty, TrimSpaceInfix and TrimSpaceIdempotent |
| Strings.Join | resolver.go:97 | definition of strings.Join; its partners are Strings.JoinSplit, SplitJoin, JoinAbsent and JoinCount |
| Types.TypeName | resolver.go:133 | definition: a stand-in for the `%v` text of a type; no property of that text is claimed (see Left out) |
| Trees.ResetPrefix | resolver.go:72-76 | definition: the first `k` children, each copied; its partners are Trees.ResetPrefixElements and the loop invariant of Resolver.CopyChildren |
| Trees.OptsError | resolver.go:49-54 | definition of New's per-node callback: the error of the options in order, or none; its partners are TreeFacts.ConfigureIsVisit and NewOptionError |
| Trees.VisitFrom | resolver.go:148-152 | definition of iterateTree's child loop from child `k`; its partner is TreeFacts.VisitFromPreOrder |
| Trees.LayoutFrom | resolver.go:236-242 | definition of DebugLayoutText's child loop from child `k`; its partner is TreeFacts.LayoutFromLines |
| GoPaths.Grow | resolver.go:284 | definition of the capacity growslice picks, which always fits the new element; its partners are GoPaths.Append and AppendCap |
| GoPaths.PathsShown | resolver.go:284 | definition: the `Path` every node of the built tree shows at the end, in pre-order; its partner is GoPaths.DeepPairAliased |
| GoPaths.Cap | resolver.go:284 | definition: the capacity of a path of length `L` built by appends from nil; its partners are GoPaths.CapBounds and PathCapacities |
| GoPaths.CapBounds | resolver.go:284 | `Cap(L)` is a power of two with `L <= Cap(L) < 2L`, the least power of two at least `L` |
| GoPaths.CapFull | resolver.go:284 | a path of length `L >= 1` fills its array exactly when `L` is a power of two |
| GoPaths.CapSame | resolver.go:284 | an append into a path with room left keeps the capacity |
| GoPaths.CapDouble | resolver.go:284 | an append to a full path of length `L >= 1` doubles the capacity to `2L` |
| GoPaths.AppendCap | resolver.go:284 | appending to a path of length `L` with capacity `Cap(L)` gives capacity `Cap(L+1)`; it writes in place exactly when `L` is neither zero nor a power of two, and otherwise takes a fresh array and changes no existing one |
| GoPaths.NodeCaps | resolver.go:269-311 | every path slice in a subtree has the capacity `Cap` of its length |
| GoPaths.FieldCaps | resolver.go:292-308 | the same for the field loop from field `i` |
| GoPaths.PathCapacities | resolver.go:265-311 | in the tree built for any type every node's path has capacity `Cap` of its length, so where siblings share an array follows from that length alone |
| Directives.ParseSegments | resolver.go:343-351 | definition of the parse loop over the surviving segments; its partners are Directives.ParseSegmentsSucceedsIff and ParseSegmentsFirstFailure |
| Directives.Parsed | resolver.go:334-354 | definition of parseDirectives; its partners are Directives.ParsedSucceedsIff, ParsedInOrder and ParsedFirstFailure |
| Directives.ParseFrom | resolver.go:338-352 | definition of the loop of parseDirectives piece by piece; its partner is Directives.ParseFromSegments |
| Trees.ResetContexts | resolver.go:66-78 | definition of copy on values; its partners are TreeFacts.ResetContextsSpec and ResetContextsIff |
| Trees.ApplyOpts | resolver.go:49-53 | definition: the options in order on one node, the first error stopping them; its partner is TreeFacts.ApplyOptsKeeps |
| Trees.Configure | resolver.go:48-57 | definition of New's option pass; its partners are TreeFacts.ConfigureIff and ConfigureIsVisit |
| Trees.ConfigureFrom | resolver.go:148-152 | definition of the option pass's child loop; its partners are TreeFacts.ConfigureFromSound and ConfigureFromComplete |
| Trees.PathString | resolver.go:96-98 | definition: the path joined with dots; its partner is TreeFacts.PathStringSplit |
| Trees.Describe | resolver.go:132-134 | definition of String: PathString, then the type in parentheses |
| Trees.Find | resolver.go:118-130 | definition of findResolver; its partners are TreeFacts.FindAppend, FindPath and FindDescend |
| Trees.Lookup | resolver.go:114-116 | definition: findResolver on the dot-split path; its partners are TreeFacts.LookupPathString and LookupEmptyString |
| Trees.Visit | resolver.go:143-155 | definition of iterateTree with a read-only callback; its partner is TreeFacts.VisitPreOrder |
| Trees.FirstError | resolver.go:143-155 | definition: the first callback error over a node list; its partners are TreeFacts.FirstErrorAt and FirstErrorNone |
| Trees.Layout | resolver.go:231-244 | definition of DebugLayoutText's text; its partner is TreeFacts.LayoutLines |
| Trees.ChildLine | resolver.go:237-241 | definition of one child entry; its partner is TreeFacts.ChildLineLines |
| Resolution.FoldContext | resolver.go:160-164 | definition: the resolve options applied in order; its partner is ResolutionFacts.FoldContextAppend |
| Resolution.RunFrom | resolver.go:210-226 | definition of the loop of runDirectives from directive `k`; its partner is ResolutionFacts.RunSplit |
| Resolution.RunDirectives | resolver.go:202-229 | definition of runDirectives; its partners are ResolutionFacts.RunInOrder, RunStopsAtFailure and RunErrorNamesDirective |
| Resolution.ResolveNode | resolver.go:169-200 | definition of resolve; its partners are ResolutionFacts.ResolveSucceedsIff, ResolveStruct, ResolveChildFailure and ResolveDirectiveFailure |
| Resolution.AssembleFrom | resolver.go:187-196 | definition of resolve's child loop; its partners are ResolutionFacts.AssembleSucceedsIff, AssembleWrites and AssembleFirstFailure |
| Resolution.Resolve | resolver.go:159-167 | definition of Resolve: the options folded over the background context, then resolve |
| Resolvers.Resolver.Label | resolver.go:20-29 | definition: the node's own fields, without its tree links |
| Resolvers.Resolver.IsRoot | resolver.go:88-90 | definition: the node has no parent |
| Resolvers.Resolver.IsLeaf | resolver.go:92-94 | definition: the node has no children |
| GoPaths.Append | resolver.go:284 | `append` only adds backing arrays and keeps the capacity of the ones there; the new slice shows the old contents plus the new name |
| GoPaths.AppendOverwrites | resolver.go:284 | an append into a slice with room left overwrites that slot in every longer slice on the same array |
| GoPaths.NodeSlices | resolver.go:269-311 | the slices of a subtree's paths, in pre-order, the first being the node's own, all valid in the final memory |
| GoPaths.FieldSlices | resolver.go:292-308 | the same for the field loop from field `i` |
| GoPaths.DeepPairAppends | resolver.go:284 | on DEEP_PAIR the paths at depths 1 to 3 get new arrays of capacity 1, 2 and 4, and X and Y are both written into the spare slot of C's |
| GoPaths.DeepPairLevel3 | resolver.go:292-308 | X and Y end up with the same slice |
| GoPaths.DeepPairSlices | resolver.go:269-311 | the slices of all six nodes of DEEP_PAIR's tree |
| GoPaths.DeepPairAliased | resolver.go:284 | the tree built for DEEP_PAIR shows path A.B.C.Y for field X |
| Resolvers.Resolver.constructor | resolver.go:270-276 | a new node has the type, the field and the parent, `Index -1`, the background context, and nothing else |
| Resolvers.Resolver.SetIndex | resolver.go:306 | `child.Index = i` changes only the index |
| Resolvers.Resolver.AddChild | resolver.go:307 | appending a child adds its subtree as the last child and changes nothing else |
| Resolvers.Resolver.Attach | resolver.go:306-307 | the child is appended with `Index` set to the field ordinal |
| Resolvers.Resolver.BuildResolver | resolver.go:269-311 | the node built in place, with fresh objects and parent links, is the built tree `BuildNode`, and a failure is its error |
| Resolvers.Resolver.BuildFields | resolver.go:291-309 | the field loop in place leaves the node's own fields alone and its children equal to the loop of the specification, or fails with its error |
| Resolvers.Resolver.BuildField | resolver.go:293-307 | one field loop step in place does what one step of the specification does |
| Resolvers.Resolver.CopyOf | resolver.go:67-69 | the shallow copy has the same label with the background context and no children yet |
| Resolvers.Resolver.Rebind | resolver.go:75 | rebinding `Parent` changes nothing but the parent link |
| Resolvers.Resolver.Copy | resolver.go:66-78 | copy makes fresh nodes whose tree is the original with fresh contexts, the copy's parent same as the original's; the original is not modified |
| Resolvers.Resolver.CopyChildren | resolver.go:72-76 | the copy's children are the copies of the children, in order, each with the copy as its parent |
| Resolvers.Resolver.CopyChild | resolver.go:74-75 | one copied child is appended |
| Resolvers.Resolver.SetSettings | resolver.go:50 | an option's effect replaces only the node's context and directives |
| Resolvers.Resolver.ApplyOptions | resolver.go:49-53 | the options run in order on the node; the first error is returned, otherwise the node carries what they produced |
| Resolvers.Resolver.ConfigureTree | resolver.go:48-57 | the option pass over the subtree in place reports an error exactly when the specification's pass fails, with the same error, and otherwise leaves the configured tree |
| Resolvers.Resolver.ConfigureChildren | resolver.go:148-152 | the iterateTree child loop of the option pass, in place, matches the specification's child loop |
| Resolvers.Resolver.ConfigureChild | resolver.go:148-152 | one child's option pass in place matches one step of the specification |
| Resolvers.Resolver.Iterate | resolver.go:139-155 | Iterate with a read-only callback returns the first error in depth-first pre-order |
| Resolvers.Resolver.FindResolver | resolver.go:118-130 | the node found is a node of the subtree whose value is `Find(path)`, and nil exactly when `Find` finds nothing |
| Resolvers.Resolver.Lookup | resolver.go:114-116 | Lookup is findResolver on the dot-split path, nil exactly when nothing is found |
| Resolvers.Resolver.GetDirective | resolver.go:100-107 | it returns the first directive of that name, and nil exactly when no directive has the name |
| Resolvers.Resolver.DebugLayoutText | resolver.go:231-244 | the text the builder collects is `Layout(depth)`, which has one line per node (TreeFacts.LayoutLines) |
| Resolvers.Resolver.LayoutChild | resolver.go:237-241 | one child entry is newline, indentation, ordinal, `# ` and the child's layout one level deeper |
| Resolvers.Resolver.RunDirectives | resolver.go:202-229 | the loop over the directives returns what the specification's runDirectives returns |
| Resolvers.Resolver.ResolveTree | resolver.go:169-200 | resolve on the node returns the value and error of `ResolveNode` |
| Resolvers.Resolver.ResolveChildren | resolver.go:187-196 | the child loop of resolve matches the specification's loop |
| Resolvers.Resolver.Resolve | resolver.go:159-167 | Resolve folds the resolve options over the background context, in order, and resolves the tree with it |
| Resolvers.TreeCache.constructor | resolver.go:14 | the cache starts empty |
| Resolvers.TreeCache.BuildResolverTree | resolver.go:265-267 | a built tree is a fresh root with no parent whose value is `BuildTree`, and a failure is its error |
| Resolvers.TreeCache.BuildAndCache | resolver.go:249-262 | a cached tree is returned unchanged, without building; on a miss the tree is built and stored only if the build succeeded, and a failure leaves the cache as it was |
| Resolvers.TreeCache.Store | resolver.go:259-260 | storing adds exactly that tree under its type |
| Resolvers.New | resolver.go:34-64 | New returns fresh nodes whose tree is `NewSpec`, or fails with its error; the cache is unchanged after a bad input, a cache hit or a failed build, and after a successful build of an uncached type it gains exactly that type's built tree |
| Resolvers.Instantiate | resolver.go:44-63 | after the cache, New copies, configures and validates the tree as `Construction.Instantiate` does |

## Left out

- Go reflection is not modelled. `reflect.Type`, `StructField` and `Value`
  become the explicit datatypes `Type`, `FieldDesc` and `Value`, and
  `reflect.New` becomes `Zero`.
- An input that is already a `reflect.Type`, rather than a value, is not
  modelled separately: `ReflectStructType` takes the input's type, or
  `None` for a nil interface.
- The cache's concurrency is not modelled. `sync.Map` becomes a `map`
  field of `TreeCache` used by one caller at a time, so the race in which
  two callers build the same type is not captured.
- `context.Context` becomes a record holding an optional namespace.
  Resolve options are functions from that record to a new one.
- `Tag()` and `StructTag.Get` are not modelled: `FieldDesc.tag` already
  holds the value under the engine's tag key.
- The grammar of `ParseDirective`, the concrete executors and the option
  implementations are defined outside `resolver.go`. They are the
  parameters `parse`, `exec` and `opts`.
- `normalizeOptions` is defined outside `resolver.go`. `New` takes options
  that are already normalised.
- Resolvers.Resolver.ApplyOptions: an option sees only the node's own
  label, not its parent or children, and may change only the node's
  context and directives. A Go option receives the whole `*Resolver` and
  could change anything.
- Resolvers.Resolver.Iterate: the callback only reads a node's label.
  The mutating callback `New` passes to `Iterate` is modelled as
  `ConfigureTree`, which follows the same pre-order.
- Executors receive the node's label and the current value, and return a
  new value. A Go executor receives the `*Resolver` and a `reflect.Value`
  it can set in place.
- ResolutionFacts.ResolveStruct assumes that the directives of a
  non-pointer node leave a value of the node's type. A Go executor cannot
  change the type of a settable `reflect.Value`.
- The panics of `resolver.go` are not modelled:
  - `Namespace()` uses a type assertion without comma-ok.
  - A nil namespace's `LookupExecutor` is modelled as "no executor",
    which gives ErrMissingExecutor.
  - `strings.Repeat` panics on a negative count. `DebugLayoutText` on a
    node with children requires `depth >= -1`, which excludes that panic.
  - On an index outside the struct, `SetField` leaves the value unchanged
    instead of panicking.
- Paths are immutable sequences in `Build` and everywhere else in the
  model, which gives every node the path the code evidently intends. In Go,
  `append(root.Parent.Path, field.Name)` (resolver.go:284) writes in place
  whenever the parent's path has spare capacity. A path of length `L >= 1`,
  grown one name at a time from nil, has capacity `Cap(L)`, the least power
  of two at least `L` (`GoPaths.PathCapacities`, `GoPaths.CapBounds`). So the
  children of a node write into its array exactly when the node's path
  length is neither zero nor a power of two (`GoPaths.AppendCap`): the
  nodes at depths 4, 6 to 8, 10 to 16, and so on, share an array with
  their siblings, and those at depths 7, 8, 11 to 16, ... with their
  cousins as well. The nodes
  at depths 1, 2, 3, 5, 9, 17, ... get fresh arrays. Each later in-place
  append overwrites that slot in every path already on the array
  (`GoPaths.AppendOverwrites`). `GoPaths.DeepPairAliased` shows the effect
  on one type (Findings). The path facts of `BuildFacts`, `TreeFacts` and
  `ConstructionFacts` hold for the intended paths, not for the ones Go
  builds.
- GoPaths.Grow: follows Go's growth rule for slices below capacity 256 and
  leaves out the rounding of the allocation to a size class. For a string
  slice grown one element at a time from nil that rounding does not change
  the capacities 1, 2, 4, 8.
- Recursive struct types, such as a struct with a field that points back to
  the same struct, cannot be written as a `Type`: the datatype is inductive,
  so `BuildTree` always terminates. In Go, `buildResolver` (resolver.go:287-307)
  would expand such a type without end and overflow the stack.
- The shallow copy `*resolverCopy = *r` (resolver.go:67-69) makes each clone
  share the `Directives` slice, and the `*Directive` values in it, with the
  cached tree and with every other clone. An option that edits a directive
  in place therefore changes the cache and the other clones. In the model an
  option returns new directives, which reach only its own node.
- Resolvers.Resolver.ConfigureTree: after a failed option pass the tree's
  state is left unspecified, because `New` discards the tree on error.
- Strings are sequences of Unicode code points, while Go's `strings`
  functions work on UTF-8 bytes. A tag holding invalid UTF-8 has no
  `string` counterpart in the model: Go's `TrimSpace` reads its bad bytes
  as U+FFFD, and those bytes are kept or trimmed as Go decides, which the
  model does not follow. For valid UTF-8 the code-point view gives the same
  segments, since `;`, `.` and the white space are the same in both.
- `String` and `DebugLayoutText` render a type with `TypeName`, which
  stands for Go's `%v` of a `reflect.Type`. The exact text of `%v` is
  not modelled.
- TreeFacts.LookupPathString and TreeFacts.FindDescend assume that sibling
  fields have distinct, dot-free names. Go struct field names have those
  properties, but the `Type` datatype does not enforce them.

## Findings

| source | as written | input that shows it | evidently intended | confidence | as-written member | corrected member |
|---|---|---|---|---|---|---|
| resolver.go:284 | `root.Path = append(root.Parent.Path, field.Name)` shares the parent's backing array whenever it has room | `struct { A struct { B struct { C struct { X, Y string } } } }`: C's path has length 3 and capacity 4, so X and Y are both written into slot 3, and X's path reads A.B.C.Y | every node's path is its parent's path plus its own field name | high; not executed | GoPaths.DeepPairAliased | BuildFacts.WellBuiltChild |
