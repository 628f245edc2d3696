# Verified model of the Candid contract compiler

The repository turns Candid interface descriptions into one canonical type
graph, whose bytes identify a contract. Everything that walks untrusted input
was written with explicit stacks and worklists instead of recursion. This
project models those algorithms, states for each the simple thing it is meant
to compute, and proves that it computes it, for every input.

| part | modules | what is proved |
|---|---|---|
| canonical form | TypeGraph, Remapping, Signatures, Meaning, Partition, Images, Quotient, Reindex, Canonical, CanonicalForm, CanonicalListing, CanonicalNumbering, SignatureVectors, Invariance, Interface, StructuralChecks | partition refinement computes the greatest bisimulation of a cyclic arena; two contracts have one canonical form exactly when they mean the same; the interface payload depends on the actor alone; structural validation accepts exactly the contracts this holds for |
| lowering | CandidTypes, AliasWalks, ArenaSteps, Lowering, OptCycles, NamedCycles, Defects, Compiling, LoweredMeaning, LoweredListing, LoweredValidity | the hash-consing worklist keeps the meaning of named, aliased, recursive types, succeeds exactly on inputs without a defect, and yields valid contracts; with the above, equal identities are equal sources |
| graph guards | Walks, Kosaraju, DepthWalk, SyntaxTrees, CycleRule, RenderedCycles | two-pass component marking, the memoised depth walk and the colour search decide exactly the recursive properties they stand for |
| imports | SourceIds, ImportPaths, Loading, LoadedGraph, LoadedUnits, LoadBounds, LoadOrder, Replay | a successful load is closed, acyclic, complete, within every limit and listed depth first; its record always replays to the same units |
| flat scanners | DocParsing, DocParser, DocRoundTrip, DocGrammar, DocSyntax, DocReading, DocSpelling, DocRefusals, DocKeys, DocBrackets, DocCalls, DocWords, JsonTrees, JsonPositions, JsonPlaces, JsonNesting, CommentRuns, CommentPieces | the frame-stack parser inverts a printer and accepts exactly the documented syntax; the one-pass JSON and comment scans agree with the trees they never build |
| values and text | Values, ValueErrors, ValueChecking, ValueMeasures, ValueMeanings, SourceValues, Extents, Decimals, RecordWork, Utf8, Utf8Order, NameHashes, LabelKeys | value checking is sound and complete with its exact cost, for the source's own types; strict UTF-8 is a bijection |
| shared | Wrappers, Bytes, Sorting, Counting, Budgets | results, byte encodings, sorting by total orders, sizes of finite sets, metered counters |

## How to read it

Code that changes things in place is a class or a method with loops
(`Budget`, `Lowerer`, `Search`, `ValueCheck`, `Cursor`, `BracketScan`,
`ViolationCollector`), proved
against a function or predicate over values; the theorems are lemmas about
those. Meaning is defined twice on purpose: `Meaning.Bisimilar` is the textbook
definition by labelled edges and mentions neither sorting nor positions, and
`Meaning.Same` is equality of all finite unfoldings, which refinement computes
with; `Meaning.BisimilarIsSame` joins them. `CandidTypes.SameCandidType` is the
same notion on source types, with aliases followed.

A `Text` is the UTF-8 bytes of a string. In the scanners over documents and in
source identifiers and doc attributes a `string` is a sequence of characters;
the structural characters are ASCII, so bytes and characters agree on them.
Budgets are counters that only grow by accepted charges. `hide` statements only
keep definitions out of a proof's context.

`dafny verify dfyconfig.toml` checks the project. Every proof is also meant to
stay well inside `--resource-limit 2000000 --verification-time-limit 0`, which
does not depend on the machine's speed.

## Where the code and its documentation differ

`docs/doc-attributes.md` says that an identifier is never `true` or `false`,
also before a parenthesis. The parser (src/compile/doc_attributes.rs:738-757)
reads `true()` as a call named `true` (`DocCalls.TrueIsCalled`). The model
follows the code: call names may be any word,
and `DocWords.WordRuleIsLexical` says which accepted texts keep the documented
rule. With call names read so, and line breaks counted as blanks, the rest of
the documented syntax is exactly what is accepted
(`DocSpelling.ParsesAsDocumented`).

## Model

| member | source | states |
|---|---|---|
| Signatures.ShapeBytesPrefix | src/canonical.rs:175-227 | the bytes a signature writes for a node's own shape delimit themselves: two shape encodings that start the same byte string are the same shape and leave the same rest |
| Signatures.LocalSignatureInjective | src/canonical.rs:175-227 | two nodes have one local signature exactly when they have the same shape |
| Signatures.RefinedSignatureInjective | src/canonical.rs:229-237 | two refined signatures are equal exactly when shape, own class and the classes of the sorted children are equal, so refinement never merges nodes it should keep apart |
| Bytes.U32BePrefix | src/canonical.rs:807-825 | the big-endian counts, identifiers and class indices are a prefix-free encoding |
| Partition.IdsAreDense | src/canonical.rs:148-157 | partition numbers are exactly 0 up to the number of distinct signatures |
| Partition.IdsAgree | src/canonical.rs:148-157 | two nodes get one number exactly when their signatures are equal |
| Partition.AssignPartitionIds | src/canonical.rs:148-157 | the map filled in a loop numbers every signature by its position among the sorted distinct ones |
| Partition.PartitionWasSplit | src/canonical.rs:159-173 | true exactly when two members of one previous class are in different classes now |
| Partition.RoundMeaning | src/canonical.rs:115-146 | after a number of rounds two nodes share a class exactly when their unfoldings agree to that depth |
| Partition.SplitRaisesCount | src/canonical.rs:115-146 | every round that splits a class has more classes than the one before |
| Partition.StableBound | src/canonical.rs:115-146 | the loop ends within as many rounds as the arena has nodes |
| Partition.ClassesAreMeanings | src/canonical.rs:115-146 | the final class of two nodes is the same exactly when they mean the same to every depth |
| Partition.ClassesAreBisimilarity | src/canonical.rs:57-60 | the final partition is the greatest labelled bisimulation: two nodes share a class exactly when some bisimulation relates them |
| Partition.SemanticClasses | src/canonical.rs:115-146 | the refinement loop returns the stable partition, and it refuses exactly when the rounds it takes do not fit the work budget, which it charges by that amount |
| Meaning.SameStep | src/canonical.rs:229-260 | two nodes mean the same exactly when their shapes agree and their sorted children mean the same one by one |
| Meaning.FieldsMatchWhenSorted | src/canonical.rs:239-260 | matching fields by identifier is matching the sorted fields in order, whatever order they are stored in |
| Meaning.MethodsMatchWhenSorted | src/canonical.rs:239-260 | the same for methods by name, although they are sorted by hash first |
| Meaning.BisimilarIsSame | src/canonical.rs:57-60 | bisimilarity by labelled edges, which mentions no sorting and no position, is equality of all unfoldings |
| Remapping.RemapKeepsShape | src/canonical.rs:262-308 | rewriting a node's references keeps its shape and maps its sorted children one by one |
| Remapping.RemapDetermined | src/canonical.rs:262-308 | two nodes of one shape whose children map to the same references are rewritten to the same node |
| Quotient.ClassesCarry | src/canonical.rs:115-146 | two arenas with the same meanings number their classes alike, so class numbers depend on meanings and not on the arena |
| Quotient.QuotientSemanticNodes | src/canonical.rs:61-113 | one representative a class, every reference replaced by its class, declarations and actor rewritten; refused exactly when the refinement does not fit the work budget |
| Quotient.QuotientIsImage | src/canonical.rs:61-113 | the quotient lists each meaning once: its node k is a member of class k with its references mapped to classes |
| Images.ImageMeansSame | src/canonical.rs:61-113 | every node means the same as the node it is mapped to |
| Images.ImageIsMinimal | src/canonical.rs:61-113 | no two nodes of the result mean the same |
| Images.ImageContractValid | src/canonical.rs:30-50 | rewriting a structurally valid contract leaves a structurally valid contract |
| Reindex.VisitReaches | src/canonical.rs:697-714 | a visit discovers exactly what its root reaches and what was discovered before |
| Reindex.VisitIterative | src/canonical.rs:697-714 | the explicit stack numbers the nodes in the order of the recursive preorder visit and keeps both tables inverse to each other |
| Canonical.OrderIsPermutation | src/canonical.rs:318-349 | the visits from the actor and the declarations number every node exactly once |
| Canonical.VisitRoots | src/canonical.rs:326-349 | the roots are visited actor first, then the declared targets in sorted order, each once |
| Canonical.CanonicalizeIndexed | src/canonical.rs:318-401 | the arena in visit order with every reference renumbered, declarations sorted; refused exactly when its charge does not fit the budget. What the orders are, apart from how they are computed, is in CanonicalListing and CanonicalNumbering |
| CanonicalForm.Canonicalize | src/canonical.rs:30-50 | quotient and re-indexing composed return the canonical contract and the mapping from old nodes to new, exactly when both charges fit the budget |
| CanonicalListing.CanonicalAscends | src/canonical.rs:318-401 | canonical declarations ascend strictly by name, the earlier one a proper prefix or smaller at the first byte where they differ; fields ascend by identifier, methods by identifier and then name |
| CanonicalNumbering.CanonicalIsDepthFirst | src/canonical.rs:326-349 | each canonical node is the first new reference of the last node before it that has one; where none has, a walk starts at the actor or a declaration |
| CanonicalNumbering.DeclarationsByClass | src/canonical.rs:337-342 | walks start at the declared types in the order of their classes |
| CanonicalNumbering.IdsFollowBytes | src/canonical.rs:148-157 | classes are numbered in the unsigned byte order of their signatures |
| CanonicalNumbering.FinalNumbers | src/canonical.rs:115-146 | the numbers refinement answers with divide the nodes as its last round did and follow the bytes of the signatures refined by it |
| SignatureVectors.TagsArePositions | src/canonical.rs:827-858 | the tags are positions in the two tables of primitive types and modes |
| SignatureVectors.LocalVectors | src/canonical.rs:867-983 | the pinned local signatures of nodes without labels |
| SignatureVectors.FieldVectors | src/canonical.rs:867-983 | the pinned local signatures of records and variants, fields sorted by identifier |
| SignatureVectors.ServiceVector | src/canonical.rs:867-983 | the pinned local signature of a service with a method of a two-byte name |
| SignatureVectors.RefinedVector | src/canonical.rs:867-983 | the pinned refined signature: separator, own class, children's classes in field order |
| SignatureVectors.NodeWorkCounts | src/canonical.rs:591-640 | a node is charged one, its references, the bytes of its signature but for counts and lengths, and the sorting of its list |
| SignatureVectors.SortWorkIs | src/canonical.rs:591-640 | sorting a list is charged its length times the logarithm of the length rounded up |
| CanonicalForm.CanonicalMeansTheSame | src/canonical.rs:22-50 | the canonical contract is valid and minimal, and every input node is bisimilar to the node it is mapped to |
| CanonicalForm.MappingIsBisimilarity | src/canonical.rs:22-27 | two input nodes get the same new index exactly when they are bisimilar |
| Invariance.CanonicalFormDecidesMeaning | src/canonical.rs:30-50 | two valid contracts have equal canonical forms exactly when they declare bisimilar types under the same names and have same-kind bisimilar actors, whatever the numbering, duplication or order of their arenas |
| Invariance.CanonicalIsIdempotent | src/canonical.rs:30-50 | canonicalizing a canonical contract returns it with the identity mapping |
| Invariance.CanonicalIsSame | src/canonical.rs:30-50 | a contract and its canonical form are equivalent |
| Interface.ReachableFrom | src/canonical.rs:767-778 | the queue marks exactly the nodes the root reaches |
| Interface.ReachableIsPrefix | src/canonical.rs:326-349 | the actor is node 0 of the canonical arena and the nodes it reaches are exactly a prefix of it |
| Interface.InterfacePayloadOf | src/canonical.rs:441-455 | the payload that identifies the interface is that prefix |
| Interface.InterfaceDecidesActor | src/canonical.rs:403-467 | two contracts have one interface payload exactly when their actors are of one kind and bisimilar, so declarations the actor does not reach never change it |
| Budgets.Budget.Charge | src/budget.rs:62-80 | a charge within the limit moves one counter; one over it is refused with the total it would have reached and moves nothing |
| Walks.CycleIsLoopOrMutual | src/compile/nesting.rs:405-467 | a node lies on a cycle exactly when it has a self-loop or reaches some other node and back without self-loops |
| Kosaraju.FinishOrder | src/compile/nesting.rs:405-467 | the first pass lists every node once, so that an edge leaving a prefix of the list leads to a node that reaches back to its end |
| Kosaraju.LowWalkReturns | src/compile/nesting.rs:405-467 | in that order, whatever walks to a node through earlier finished nodes is reached by it: the reason two passes suffice |
| Kosaraju.CollectComponent | src/compile/nesting.rs:405-467 | the reverse search from a root collects the unassigned nodes that walk to it, each once |
| Kosaraju.MarkComponents | src/compile/nesting.rs:405-467 | nodes share a component exactly when each reaches the other, and sizes count them |
| Kosaraju.CyclicNodes | src/compile/nesting.rs:397-467 | a node is marked exactly when a walk of at least one edge leads from it back to it |
| DepthWalk.RecursiveNamesSuffice | src/compile/nesting.rs:610-628 | tracking only names on reference cycles goes over the depth limit exactly when tracking every name would |
| DepthWalk.RecursiveDeclarationNames | src/compile/nesting.rs:486-541 | the names found are exactly those on a cycle of references between declarations; refused exactly when the declarations hold more expressions than there is work for |
| DepthWalk.CollectReferences | src/compile/nesting.rs:497-532 | the references of one declaration are exactly the names its body mentions, charged one unit an expression; refused exactly when that does not fit. What a body mentions, on types as trees, is SyntaxTrees.MentionsAreNames |
| DepthWalk.MemoSize | src/compile/nesting.rs:543-553 | a memo holds at most one state for every expression, depth and set of recursive names, so without recursive names the walk is linear |
| DepthWalk.CheckProgramsTypeDepth | src/compile/nesting.rs:554-657 | the memoised worklist accepts only when no expansion goes deeper than the limit, and refuses for depth only when one does, then reporting limit + 1; it runs out of work only above the work limit and within a bound on the whole walk, so with work for that bound it decides exactly. What an expansion is, on types as trees, is SyntaxTrees.TooDeepIsHeight |
| SyntaxTrees.MentionsAreNames | src/compile/nesting.rs:497-532 | a declaration mentions another exactly when the other's name occurs somewhere in its type read as a tree, in arguments and results alike |
| SyntaxTrees.SizesAgree | src/compile/nesting.rs:497-532 | the expressions counted for a type are the constructors of its tree |
| SyntaxTrees.TooDeepIsHeight | src/compile/nesting.rs:554-657 | the expansion goes over the limit exactly when some declared or actor type, read as a tree, nests deeper than it with declared names replaced by their types, each at most once on the way down; for every bundle, and so for types without names exactly by their height |
| CycleRule.Search.From | crates/candid-core-ts/src/cycles.rs:145-178 | the colour-marking search from one start either finishes every node it expands, after what they expand to, or returns a node on an expanded cycle it reached |
| CycleRule.Check | crates/candid-core-ts/src/cycles.rs:70-96 | with marks shared over all roots, the check succeeds exactly when no cycle through undeclared nodes is reached from the roots without crossing a declared node |
| CycleRule.DescentBounds | crates/candid-core-ts/src/cycles.rs:70-96 | after success the finishing positions bound every in-place expansion, so rendering ends |
| RenderedCycles.CollectRoots | crates/candid-core-ts/src/cycles.rs:98-139 | the roots are the bodies of the emitted declarations, the service's body or its surviving methods, and the surviving methods' signatures, in that order |
| RenderedCycles.RootsStart | crates/candid-core-ts/src/cycles.rs:98-139 | a walk starts from the roots at exactly the undeclared nodes that what is rendered expands |
| RenderedCycles.CheckRendering | crates/candid-core-ts/src/cycles.rs:70-139 | on a contract the check succeeds exactly when every in-place expansion the generator starts is bounded; otherwise it names an undeclared node that one of them reaches and comes back to |
| StructuralChecks.ViolationCollector.Push | src/validate.rs:10-55 | the collector shows every violation up to its limit, and past it the first ones and how many there were |
| StructuralChecks.MarkReached | src/validate.rs:611-629 | the queue marks exactly the nodes the roots reach along references in range |
| StructuralChecks.Validate | src/validate.rs:200-245 | structural validation accepts exactly contracts that break no rule, and otherwise shows, up to its limit, exactly the rules broken and where |
| StructuralChecks.StructureIsValid | src/validate.rs:342-640 | of contracts whose counts 32 bits hold, those that break no rule are exactly the valid ones, on which canonicalization is defined |
| CandidTypes.TerminalOfTerminal | src/compile/lower.rs:586-603 | following aliases from a terminal name stays there |
| ArenaSteps.AddPrim | src/compile/lower.rs:620-628 | reserving and filling a primitive node keeps every table and every filled node right |
| ArenaSteps.AddComposite | src/compile/lower.rs:629-636 | reserving a composite node keeps the tables right and leaves it pending |
| ArenaSteps.FillNode | src/compile/lower.rs:654-738 | filling a reserved node over the nodes of its parts keeps everything else as it was |
| Lowering.Lowerer.TerminalName | src/compile/lower.rs:586-603 | the loop returns the terminal name of an alias chain, or names the missing name or the alias cycle; also stated over walks of aliases: the bound name a walk ends at, the unbound name it ends at, or the first name it meets twice |
| AliasWalks.AliasesResolve | src/compile/lower.rs:586-603 | following aliases gives a name exactly when a walk of aliases ends at it and it is bound to no alias; a missing name exactly when a walk ends there; an alias cycle at a name exactly when it is the first the walk meets twice |
| AliasWalks.TypeResolves | src/compile/lower.rs:549-603 | the same for a type: what it stands for, or why it stands for nothing |
| Lowering.Lowerer.EnsureNamed | src/compile/lower.rs:549-584 | a name gets the node of the type it stands for, aliases included; failing names an unbound name or an alias cycle, or an arena that is full while a type still needs a node |
| Lowering.Lowerer.EnsureType | src/compile/lower.rs:612-636 | a type gets the one node of what it denotes; what is queued had no node before; it fails only for the same reasons |
| Lowering.Lowerer.EnsureAll | src/compile/lower.rs:660-714 | the parts of a type get their nodes in order, up to the first that fails, which names its reason |
| Lowering.Lowerer.FillOne | src/compile/lower.rs:654-738 | a reserved node gets the head constructor of its type over the nodes its parts denote |
| Lowering.Lowerer.DrainPending | src/compile/lower.rs:638-645 | when the worklist drains every reserved node is filled, and it drains |
| Lowering.Lowerer.LowerNamed | src/compile/lower.rs:542-547 | a declared name is lowered with everything it needs |
| Lowering.Lowerer.LowerType | src/compile/lower.rs:605-610 | the same for the actor's type |
| Compiling.LowerChecked | src/compile/lower.rs:3-113 | the lowered contract is the finished arena of exactly the types that occur, with every name declared at the node it denotes; it succeeds exactly on inputs without a defect, and an error names a defect the input has, stated over walks of aliases and the types themselves: an unbound name, an alias cycle, an unsupported type, an opt-only cycle, an actor that is none, or more than 2^32 types |
| Defects.LoweredIsSound | src/compile/lower.rs:507-757 | an arena that holds everything declared, and whose opt chains end, shows that the input has no defect |
| Defects.NodesAreNodeTypes | src/compile/lower.rs:612-636 | the finished arena has exactly one node for every type that occurs, names apart |
| Defects.CycleIsDefect | src/compile/lower.rs:442-491 | a name on an opt-only cycle of the arena is a name whose type unwraps opt back to itself |
| LoweredMeaning.NodeIsItsType | src/compile/lower.rs:654-738 | a finished node has the kind of the type it was reserved for, and its labelled edges are the type's, each to the node its part denotes |
| LoweredListing.LoweredAscends | src/compile/lower.rs:686-755 | lowered fields ascend by identifier, methods by identifier and then name, and declarations are listed in the order of the names |
| LoweredMeaning.BisimilarIsSameType | src/compile/lower.rs:507-757 | nodes of two lowered arenas are bisimilar exactly when the types they stand for are the same Candid type |
| LoweredMeaning.LoweringKeepsMeaning | src/compile/lower.rs:507-757 | lowered contracts are equivalent exactly when their sources declare the same types under the same names and have the same actor |
| LoweredMeaning.CanonicalDecidesSource | src/compile/lower.rs:3-118 | from source to identity: two sources canonicalize to one contract exactly when they declare the same Candid types and actor |
| LoweredValidity.LoweredIsValid | src/validate.rs:342-640 | structural validation of a lowered contract, resource limits apart, passes exactly when the checked types keep the rules of Contracts, stated on the types: distinct fields and methods, methods that are functions, classes only as the actor |
| LoweredValidity.EveryNodeReachable | src/compile/lower.rs:542-610 | every lowered node is reachable from the declarations and the actor |
| LoweredValidity.IdentityIsSource | src/compile/lower.rs:3-118 | two well-checked sources canonicalize to one contract exactly when they declare the same Candid types and actor, with nothing assumed of the contracts |
| LoweredMeaning.EveryCycleIsDeclared | src/compile/lower.rs:436-441 | every cycle of a lowered contract passes through the node of a declaration |
| NamedCycles.EveryCycleIsNamed | src/compile/lower.rs:436-441 | the same for the arena under construction and the nodes names map to |
| NamedCycles.OptCycleIsNamed | src/compile/lower.rs:463-467 | an opt-only cycle always passes through a name, so the internal error for the contrary is never returned |
| OptCycles.NoOptCycleIsProductive | src/compile/lower.rs:405-441 | no node lies on a cycle of opt edges exactly when unwrapping opt from every node reaches something else within the arena size |
| OptCycles.RefuseOptOnlyCycles | src/compile/lower.rs:442-491 | accepts exactly when unwrapping opt always ends, and otherwise names the first declaration in order on such a cycle |
| SourceIds.NormalizePath | src/resolver.rs:501-566 | the loop over segments pushes and pops components as the recursive reading does, with the same refusals |
| SourceIds.ParseIsCanonical | src/resolver.rs:32-43 | what parsing accepts has a valid scheme and segments that are not empty, `.` or `..` and hold no separator, colon, backslash or control character |
| SourceIds.ParseFixedPoints | src/resolver.rs:32-43 | parsing is a projection, and an identifier is its own parse exactly when it is canonical |
| SourceIds.SplitOfJoin | src/resolver.rs:539-565 | splitting joined segments gives them back |
| SourceIds.IdentifiedIsCanonical | src/resolver.rs:289-310 | an import identified from a canonical source is canonical and stays in its scheme |
| ImportPaths.NameAndUpCancel | src/resolver.rs:539-560 | a name followed by `..` cancels wherever it stands in a path |
| ImportPaths.DotMeansNothing | src/resolver.rs:539-560 | `.` changes nothing wherever it stands |
| ImportPaths.ImportIsRelative | src/resolver.rs:501-566 | an import leads up as many directories from its importer's as it has `..` in front, then down its names; beyond the root it is refused |
| ImportPaths.LeavingTheRoot | src/resolver.rs:539-552 | a path is refused for leaving the root exactly when some way along it has gone up more often than down |
| ImportPaths.PathsAccepted | src/resolver.rs:501-566 | a path is accepted exactly when it is names, `.` and `..` joined by separators that never climb out and end below the root |
| ImportPaths.SchemesAre | src/resolver.rs:568-581 | a scheme is at least two lower-case letters, digits and hyphens, a letter first |
| ImportPaths.ControlsAre | src/resolver.rs:525-530 | the refused control characters are the 65 of Unicode's category Cc |
| Loading.AcceptSource | src/compile/loading.rs:182-229 | limits and counters are applied in order: size, source count, bundle bytes, identifier length |
| Loading.LoadSourceUnits | src/compile/loading.rs:18-148 | the loop over the request stack returns what the step-by-step specification returns, and on success has charged one source for every unit, the bytes of their texts and all their imports. What that specification comes to is in LoadedUnits, LoadBounds and LoadOrder |
| LoadedGraph.RetireLast | src/compile/loading.rs:45-131 | a source leaves the path of imports only when everything it imports has left it before |
| LoadedGraph.RunOrders | src/compile/loading.rs:45-131 | after a successful load there is an order of the loaded names in which each comes after everything it imports, although loaded units are never expanded again (the units themselves are listed importer first) |
| LoadedGraph.RunReflects | src/compile/loading.rs:66-116 | every unit holds the text the resolver gave and the targets it identified |
| LoadedGraph.RunCycle | src/compile/loading.rs:66-72 | a refusal for a cycle comes with a walk of imports that meets the named source twice |
| LoadedUnits.LoadIsWellLoaded | src/compile/loading.rs:18-148 | a successful load is closed under imports and acyclic, lists each source once, and keeps a unit's actor exactly when it is the entry or some service import asks for it |
| LoadedUnits.CyclesAreRefused | src/compile/loading.rs:66-72 | no load succeeds when a walk of imports from the entry meets a source twice |
| LoadedUnits.CycleRefusalIsReal | src/compile/loading.rs:66-72 | a cycle refusal names a source that a walk from the entry meets twice |
| LoadedUnits.WellLoadedHasNoCycle | src/compile/loading.rs:45-131 | no walk of imports between loaded units returns to its start |
| LoadedUnits.EntryIsTheRoot | src/source.rs:722-736 | the entry is the only loaded source that nothing imports |
| LoadBounds.LoadWithinLimits | src/compile/loading.rs:18-229 | after success every unit is reached from the entry by a walk of at most the limit of imports, and counts, bytes, edges, identifiers and spellings are within theirs |
| LoadBounds.RefusalsAreReal | src/compile/loading.rs:18-229 | every refusal is for something the sources reached from the entry have; one for the import depth observes limit + 1 and comes with a walk of that many imports |
| LoadOrder.LoadIsDepthFirst | src/compile/loading.rs:116-131 | the entry comes first and every later unit is the first import, not loaded before, of the latest unit that has one |
| LoadOrder.OneOrder | src/compile/loading.rs:116-131 | there is only one such order of units with the same imports |
| Replay.CollectSources | src/source.rs:686-696 | the sources map holds the record exactly when its names are canonical and distinct; else the first entry that is not is named, with nothing wrong before it |
| Replay.CollectImports | src/source.rs:698-720 | the imports map holds the record exactly when both ends are recorded and no spelling is ambiguous; else the first import that offends is named, with its first reason |
| Replay.NewResolver | src/source.rs:685-742 | a resolver is made exactly from records with one root, which becomes its entry; every refusal names the first reason for it |
| Replay.OneFirstReason | src/source.rs:685-742 | a record has at most one first reason, so the error is determined by the record |
| Replay.RecordMakesResolver | src/source.rs:685-742 | the record of a successful load has no reason to be refused, and its resolver's entry is the original entry |
| Replay.RunAgain | src/compile/loading.rs:45-131 | a resolver that answers as the units were loaded repeats the whole run |
| Replay.ReplayGivesTheSame | src/source.rs:77-98 | loading from the recorded bundle returns the same units in the same order with the same actors, under the same limits |
| ValueChecking.ValueCheck.CheckDuplicates | src/value.rs:921-933 | the pairwise scan accepts exactly distinct identifiers within the work limit and charges every pair once |
| ValueChecking.ValueCheck.MatchFields | src/value.rs:934-947 | true only when every expected identifier is present, with the exact comparisons charged; false only when one is missing |
| ValueChecking.ValueCheck.SortedFieldIds | src/value.rs:1090-1120 | repeated selection lists the distinct identifiers in ascending order, refused exactly when the comparisons of its rounds do not fit the work limit |
| ValueChecking.ValueCheck.ValidateVec | src/value.rs:913-919 | the elements of a vector are accepted exactly when each inhabits the element type and their sum of costs fits |
| ValueChecking.ValueCheck.ValidateRecord | src/value.rs:920-970 | a record is accepted exactly when its identifiers are those of its type, each once, and every value inhabits its field's type within the limits |
| ValueChecking.ValueCheck.ValidateVariant | src/value.rs:971-996 | a variant is accepted exactly when its identifier names a case its value inhabits, within the limits |
| ValueChecking.ValueCheck.ValidateNode | src/value.rs:878-1031 | a value is accepted exactly when it inhabits the referenced node of a possibly cyclic arena, within the depth, and its cost fits all three budgets, which then move by exactly that cost; the early check on child counts refuses nothing more; every refusal names a limit that is passed or a fault that lies in the value at its node |
| ValueChecking.ValueCheck.FieldSetMatches | src/value.rs:934-947 | equal counts, distinct identifiers and all expected ones present are together a one-to-one match of fields |
| ValueChecking.ValueCheck.RecordInhabits | src/value.rs:956-970 | finding and checking each type field's value is checking the whole record |
| ValueErrors.BlamedDoesNotInhabit | src/value.rs:878-1031 | a value with a fault anywhere in it does not inhabit its node |
| Decimals.ScalarsSpell | src/value.rs:1123-1211 | a value inhabits a primitive node exactly when it is of its kind and its text is the one canonical spelling of a number of that kind: a natural, an integer without minus zero, the same within 64 bits, or 8 and 16 lower-case hexadecimal digits |
| ValueMeasures.ShallowReaches | src/value.rs:878-897 | a value fits the depth limit exactly when nothing in it lies deeper |
| ValueMeasures.InhabitantWeighs | src/value.rs:878-1088 | checking an inhabitant charges one element for every value it is made of and the length of all its text, whatever the type and the order of fields |
| ValueMeasures.AcceptedByMeasure | src/value.rs:878-1088 | with a fresh budget a value is accepted exactly when it inhabits its node, no part lies deeper than the depth limit, and the number of its values, the length of its text and its comparisons fit |
| ValueMeanings.SameMeaningSameValues | src/value.rs:878-1031 | bisimilar nodes have the same values |
| ValueMeanings.CanonicalKeepsValues | src/canonical.rs:22-50 | a value inhabits a node of a contract exactly when it inhabits the node's place in the canonical contract |
| SourceValues.DeclaredValues | src/value.rs:878-1031 | from source to validation: a value is one of a declared source type, its aliases followed, exactly when it inhabits the declaration's node in the contract and in the canonical contract |
| Extents.Enclosing | src/value.rs:121-132 | the accumulator adds up the extents of the parts in 32-bit saturating arithmetic |
| Extents.ExtentFromParts | src/value.rs:105-132 | the extent a value carries is its deepest level and its number of values, each up to the greatest 32-bit number |
| Extents.Bounded | src/value.rs:387-406 | a container is built exactly when those fit the limits, and is refused with the first that does not |
| Extents.AcceptedCanBeBuilt | src/value.rs:387-406 | below the greatest 32-bit number nothing that checking accepts is refused when it is built |
| RecordWork.FullScanWork | src/value.rs:934-970 | scanning for every identifier once costs the same in every order of fields |
| RecordWork.RecordWorkIs | src/value.rs:920-970 | an n-field record that inhabits its type costs (3n^2 + n) / 2 comparisons of its own, plus what its values charge |
| RecordWork.WidestRecord | src/limits.rs:345-364 | under the default limits a record whose values charge no comparisons, and which the other limits admit, is accepted exactly up to 2581 fields |
| RecordWork.NullRecordFits | src/limits.rs:345-364 | a record of n nulls is accepted up to 2581 fields and refused from 2582 on |
| Utf8.PointRoundTrip | crates/candid-core-ts/ts/labels.ts:95-109 | decoding what a scalar value encodes to, whatever bytes follow, gives it back |
| Utf8.PointIsEncoding | crates/candid-core-ts/ts/labels.ts:116-157 | bytes that decode are the shortest encoding of a scalar value: overlong, surrogate, out-of-range and truncated forms are refused (RFC 3629, sections 3 and 4) |
| Utf8.StrictBijection | crates/candid-core-ts/ts/labels.ts:69-157 | decoding and strict encoding are inverse bijections between well-formed UTF-16 strings and the byte strings that decode |
| Utf8.Utf8Bytes | crates/candid-core-ts/ts/labels.ts:90-109 | the loop over code points writes the encoding |
| Utf8.Utf8BytesStrict | crates/candid-core-ts/ts/labels.ts:69-83 | returns the bytes exactly when no surrogate is unpaired |
| Utf8.Utf8Decode | crates/candid-core-ts/ts/labels.ts:116-157 | returns a string exactly when it is well formed and encodes to the bytes |
| Utf8Order.OrderIsKept | crates/candid-core-ts/ts/labels.ts:90-109 | encoding keeps the order of code points: their bytes compare as they do |
| Utf8Order.CharBytesAreEncoded | src/compile/loading.rs:182-229 | the bytes a character counts for against a limit are those it is encoded with |
| Utf8Order.Examples | crates/candid-core-ts/ts/labels.ts:90-109 | the examples of section 7 of RFC 3629 |
| NameHashes.HashIsPolynomial | src/name_hash.rs:23-29 | the hash of a name is the sum of its bytes times powers of 223, the last byte weighing one, modulo 2^32 |
| NameHashes.KnownHashes | src/name_hash.rs:36-55 | the pinned hashes, and the two names that share one |
| LabelKeys.CandidLabelHash | crates/candid-core-ts/ts/labels.ts:20-29 | the hash of a key is the Candid hash of its UTF-8 bytes, the one the compiler computes |
| LabelKeys.KeyIsItsRendering | crates/candid-core-ts/ts/labels.ts:37-48 | a key reads as a number exactly when it is the rendering of that number |
| LabelKeys.FieldIdOfKey | crates/candid-core-ts/ts/labels.ts:60-62 | rendered identifiers parse back, every other key is hashed, and the result is below 2^32 |
| CommentRuns.LongestRunIs | src/compile/nesting.rs:231-240 | the longest run is a stretch of comments and blanks, and no such stretch holds more comments |
| CommentRuns.ClosingStep | src/compile/nesting.rs:274-291 | one step of the depth counter agrees with reading nested block comments recursively |
| CommentRuns.CommentRunPreflight | src/compile/nesting.rs:259-320 | returns the longest run of the recursive reading when it is within the limit, and otherwise limit + 1 |
| CommentPieces.PiecesRead | src/compile/nesting.rs:259-320 | a text written as blanks, line comments, nested block comments, strings with escapes and other characters reads as exactly those pieces, comments and strings left open at the end included |
| CommentPieces.EveryTextIsPieces | src/compile/nesting.rs:259-320 | every text is written with such pieces |
| CommentPieces.RunsOfPieces | src/compile/nesting.rs:231-320 | the run the preflight measures is the greatest number of comments in a stretch of pieces without other tokens |
| JsonPositions.OpaqueValue | src/budget.rs:289-300 | inside an opaque value the bracket count returns to where it was at the value's end |
| JsonPositions.ScanValue | src/budget.rs:271-344 | from the start of a value's text the scan ends at its first misplaced part, or goes on right after the value with the same stack |
| JsonPositions.ScanAppliesTheRule | src/budget.rs:243-344 | on the text of any JSON tree the scan refuses exactly the first array or object in document order that may not stand where it does, and accepts a tree that has none |
| JsonPositions.RefuseAlternateForms | src/budget.rs:271-344 | the loop over the bytes returns that position |
| JsonPositions.StringEnd | src/budget.rs:370-380 | the loop finds the closing quote the recursive reading finds |
| JsonPlaces.DocumentRule | src/budget.rs:243-366 | place by place: a document is accepted exactly when each of its brackets outside opaque values may stand where it does, an array only at a listed key, an object anywhere but at a key not listed; the refused position is that of the first bracket that may not |
| JsonNesting.ValueMeasures | src/value.rs:521-569 | on the text of a JSON value the nesting scan keeps its depth, or refuses with limit + 1, exactly by the height of the tree |
| JsonNesting.CheckValueNesting | src/value.rs:521-569 | the loop accepts exactly the documents whose height is within the limit and refuses any other with limit + 1 |
| DocParser.ParseArguments | src/compile/doc_attributes.rs:610-796 | the loop over the frame stack returns what the step-by-step specification returns |
| DocParser.Cursor.ParseText | src/compile/doc_attributes.rs:806-843 | a text value is read with its escapes, or refused, as the recursive reading has it |
| DocParser.Cursor.ParseNumber | src/compile/doc_attributes.rs:845-870 | a number is taken by its spelling, with the same refusals |
| DocRoundTrip.TextReads | src/compile/doc_attributes.rs:806-843 | reading an escaped text gives back the text |
| DocRoundTrip.ValueReads | src/compile/doc_attributes.rs:610-843 | reading a printed value attaches exactly that value and goes on after it |
| DocRoundTrip.PrintedParses | src/compile/doc_attributes.rs:610-843 | every argument tree with distinct keys and nesting within the limit prints to text that parses back to it |
| DocGrammar.TextIsSpelled | src/compile/doc_attributes.rs:806-843 | a text value is read exactly from its documented spellings, each character as itself or as any of its escapes |
| DocGrammar.NumberIsSpelled | src/compile/doc_attributes.rs:845-870 | a number is taken exactly when it is what the syntax calls one |
| DocGrammar.HexValueIsPlace | src/compile/doc_attributes.rs:820-840 | a hexadecimal digit's value is its place among the sixteen, in either case |
| DocReading.TokensParse | src/compile/doc_attributes.rs:610-843 | every text of the documented tokens parses to the arguments they stand for, when those can be written |
| DocSpelling.ParsesAsDocumented | docs/doc-attributes.md:64-93 | a text parses to some arguments exactly when it is written in the documented syntax, stands for them, repeats no key and nests within the limit |
| DocRefusals.DocumentedOutcome | docs/doc-attributes.md:83-93 | a text in the documented syntax parses to its arguments or is refused for its first fault in the text: a repeated key or a bracket too many |
| DocRefusals.DocumentedIsNotMalformed | src/compile/doc_attributes.rs:610-796 | such a text is never called malformed, and for nesting it is refused with limit + 1 |
| DocKeys.AcceptedIsWritable | src/compile/doc_attributes.rs:680-709 | every accepted argument list has distinct keys in every keyed frame at every depth, numbers and words spelled as the syntax has them, and brackets within the limit |
| DocKeys.AcceptedExactly | src/compile/doc_attributes.rs:610-796 | the accepted trees are exactly the writable ones |
| DocKeys.NumberStands | src/compile/doc_attributes.rs:845-870 | a number is read by itself as it is read in front of anything else |
| DocCalls.CallsAreOpened | src/compile/doc_attributes.rs:738-748 | an accepted tree holds a call exactly when some turn of the parser stands where a value is expected, at the name of the call and a parenthesis |
| DocCalls.TrueIsCalled | src/compile/doc_attributes.rs:738-757 | the parser reads `true()` as a call, against the documented syntax |
| DocCalls.WordRuleKept | src/compile/doc_attributes.rs:738-757 | an accepted tree keeps the documented rule on `true` and `false` exactly when its text opens no call of that name |
| DocWords.CallsAreWritten | src/compile/doc_attributes.rs:738-748 | the same without the parser: a call of a name is in an accepted tree exactly when, in one pass over the text, the name stands as a whole word outside quoted texts with a parenthesis after blanks |
| DocWords.WordRuleIsLexical | src/compile/doc_attributes.rs:738-757 | so the documented rule on `true` and `false` is kept exactly by the accepted texts that write neither word before a parenthesis |
| DocBrackets.BracketScan.FeedLine | src/compile/doc_attributes.rs:461-504 | fed a line at a time, the scan keeps the state feeding the whole text has, and stops where it closes or leaves a text open |
| DocBrackets.FeedParts | src/compile/doc_attributes.rs:451-504 | how the text is split into lines does not matter |
| DocBrackets.StepTakes | src/compile/doc_attributes.rs:624-766 | one turn of the parser takes text that leads the scan from the depth of the frames before to the depth of the frames after |
| DocBrackets.ReachedDepth | src/compile/doc_attributes.rs:451-504 | at every point the parser reaches in a text, the depth of the scan over what it has taken is the number of its open frames, outside any text |
| DocBrackets.AcceptedCloses | src/compile/doc_attributes.rs:636-651 | in an accepted text the scan is open on every prefix up to the bracket that closes the attribute and closed on every longer one, and only blanks follow that bracket |

## Left out

- Saturation of counters at the machine word, deadlines and cancellation: counters are unbounded and checkpoints always pass.
- Identity hashes, JSON serialization and their work charges (`domain_hash`, `jcs_bytes`, src/canonical.rs:469-688): the identified payloads are modelled, their bytes and SHA-256 are not.
- StructuralChecks.Validate: the resource limits and the format, version, identity and producer fields checked before the rules (src/validate.rs:111-199) are not modelled; the order violations are noted in is not stated, and the references of a node are one list instead of one loop a constructor.
- Diagnostics: only error kinds and the limit and observed numbers a property names are kept.
- Provenance collection and sorting, and the rederivation comparison of source information (src/compile/lower.rs:758-1183).
- The parser and type checker of the upstream Candid crate: checked environments, parsed programs and their import lists are inputs.
- The kinds `Knot`, `Unknown` and `Future` of checked types are one constructor without a node, `OtherT`; their messages differ in the source.
- Lowering.Lowerer.EnsureAll: the source writes the loop over parts once per constructor and checks a function's mode after its parts; the model has one loop over the listed parts and then the same check.
- DepthWalk.CheckProgramsTypeDepth: the source walks type pointers and numbers names densely; the model addresses parsed expressions by index and uses declaration indices as numbers. The second copy of this walk over checked types (src/compile/lower.rs:241-413) is the same algorithm and not repeated.
- RenderedCycles.CheckRendering: which declarations and methods are omitted, which nodes lie under something omitted and which names are declared first are parameters.
- Loading.LoadSourceUnits: resolvers are functions, so they answer the same question the same way twice; the digest a resolver attaches to a source is not checked; nesting, parsing and depth checks of one source text are one function of that text.
- Replay.NewResolver: picks the only root directly instead of taking the first of the ordered roots and looking for a second.
- ValueChecking.ValueCheck.ValidateNode: whether a text is a canonical principal is a parameter; paths and messages are not built.
- JsonPositions.RefuseAlternateForms: how a key written with an escape decodes is a parameter; the path and position text of the error is not built.
- DocParser.ParseArguments: splitting docs into prose and attribute heads, the loop that gathers continuation lines, and the collector that caps reported errors are not modelled beyond the bracket scan they rest on.
- The preflight on unnamed record fields (src/compile/nesting.rs:103-230): it works on the tokens of the upstream tokenizer.
- Value decoding from JSON, envelope and artifact reading, the command line, the web site and the benchmarks.
