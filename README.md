# arktype's constraint algebra, modelled in Dafny

arktype checks JavaScript values at run time against types built from
*constraint nodes*: a domain (`typeof`-like), a unit value, a prototype, a
divisor, length bounds, regex patterns, required and optional properties,
narrowing predicates, morphs, and the union and intersection nodes that
combine them. Schemas are normalised into canonical nodes, identified by
JSON-derived ids. Nodes are then intersected pairwise, where a first-class
`Disjoint` value means "no value satisfies both". Finally, nodes are lowered
into JavaScript check code, emitted as text.

The repository holds several historical snapshots of this algebra
(`ark/schema/types`, `ark/schema/sets`, `ark/schema/bases`,
`ark/schema/nodes`, `src/nodes`). Each source file is modelled on its own
terms, in a Dafny module of its own, with a local node type. Where one node
meets a node of another kind, the meet is a function parameter.

Modules and what they model:

- **SchemaParse** (`ark/schema/parse.ts`): canonicalisation of a schema into a node. It covers:
  - iteration over keys in sorted order;
  - rejection of undeclared keys;
  - dropping `undefined`;
  - `json` and `typeJson`;
  - the collapse key;
  - `id` and `typeId`;
  - the reduce hook;
  - `parseUnits`.
- **SchemaBase** (`ark/schema/base.ts`): intersection with the pair cache as an explicit object, the Disjoint inversion, the basis/predicate fallback, `apply`, `includesMorph`, and the lazily cached `in`/`out` views.
- **Define** (`ark/schema/shared/define.ts`): the node-kind lists and `defaultValueSerializer`.
- **TypeBranches**, **TypeIntersection** (`ark/schema/types/type.ts`):
  - branch intersection with subtype pruning, as a method with nested loops proved against a functional specification;
  - the union node's presence Disjoint;
  - intersection-node ordering, `addConstraint`, `assertValidRefinements` and child parsing.
- **Divisor**, **MaxLength**, **Pattern**, **RequiredProp**, **OptionalProp**, **DomainBasis**, **ProtoBasis**, **UnitType**, **UnitBasis**, **MorphType**, **MorphSet**, **NarrowConstraint**, **Constraint**: the per-kind rules, namely normalisation, intersection, traversal, conditions and descriptions.
- **IoCompile**, **IoRegistry** (`ark/schema/io`): discriminant-based check elision, property access, failure code, and the fresh-name loop of the value registry.
- **NodesProps**, **NodesPredicate**, **PredicateRules**, **NodesCompile**, **NodesNarrow**, **RegexLiteral** (`src/nodes`): the older props and predicate merging, the `Compilation` path/config stack, narrows and regex literals.
- **DateLiteral** (`src/parse/string/shift/operand/date.ts`): date literals and the failure choice of `maybeParseDate`.
- **ArkScope** (`ark/type/scope.ts`): scope-key parsing, submodule flattening, `parseUnits`, dotted alias resolution and the string parse cache.
- **ArkMatch** (`ark/type/match.ts`): first-match case dispatch.
- Helper modules that model host behaviour the core relies on:
  - **Wrappers**: `Option` and `Result`, with host exceptions as error values;
  - **JsValue**: host values and `domainOf`;
  - **JsText**: slicing, `indexOf`, JSON quoting, identifier tests and string order;
  - **JsExpr**: a small boolean expression language, which gives emitted condition strings a meaning;
  - **Disjoints**: the `Disjoint` value and its inversion;
  - **Sorting**: insertion sort, proved sorted and a permutation.

Where the source changes state in place, the model does too:
- the intersection cache, the registry and the scope are classes;
- the traversal context is a class;
- the accumulator that `foldIntersection` writes is a class;
- the shared index tuples of `PropsNode.intersection` are objects;
- the `Compilation` of `src/nodes` is a class.

Each loop is a method proved against a function that specifies it.

## Model

| member | source | states |
|---|---|---|
| SchemaBase.Apply | ark/schema/base.ts:149-156 | `apply` passes with the data itself as output exactly when the traversal collected no error, and otherwise fails with the collected errors |
| SchemaBase.WithChildren | ark/schema/base.ts:116-117 | a node includes a morph exactly when it is a morph or one of its children includes one |
| SchemaBase.IncludesMorphIffMorphInSubtree | ark/schema/base.ts:116-117 | on nodes built this way, `includesMorph` holds exactly when some node of the subtree is a morph |
| SchemaBase.GetIo | ark/schema/base.ts:177-197 | a node without a morph is its own `in` and `out` view |
| SchemaBase.IoInnerFrom | ark/schema/base.ts:182-195 | the rebuilt inner record holds only declared non-meta keys, at most one entry per entry of the node |
| SchemaBase.IoInnerKeepsNonMetaEntries | ark/schema/base.ts:182-195 | every non-meta entry is kept, child entries mapped to their children's view and other entries copied |
| SchemaBase.IoInner | ark/schema/base.ts:181-195 | the loop over the entries builds the inner record the specification `IoInnerFrom` describes |
| SchemaBase.IoViews.constructor | ark/schema/base.ts:158-168 | a new node has neither view cached |
| SchemaBase.IoViews.ComputeIo | ark/schema/base.ts:177-197 | computes the view `getIo` describes |
| SchemaBase.IoViews.GetIn | ark/schema/base.ts:158-162 | the `in` getter returns the `in` view, computes it only when not cached, keeps the `out` cache, and a cached view is returned as it is |
| SchemaBase.IoViews.GetOut | ark/schema/base.ts:164-168 | the `out` getter likewise, with the `in` cache untouched |
| SchemaBase.Swapped | ark/schema/base.ts:246-251 | the entry cached under the swapped key: a node as it is, a Disjoint inverted |
| SchemaBase.SwappedTwiceIsIdentity | ark/schema/base.ts:246-251 | inverting twice gives the original result |
| SchemaBase.IntersectClosed | ark/schema/base.ts:280-301 | equal nodes (same typeId) yield the receiver; otherwise the result is null exactly when the intersector of the left operand for the right one's kind gives nothing |
| SchemaBase.IntersectClosedSwapped | ark/schema/base.ts:280-301 | for distinct operands with a canonical left operand, swapping the operands gives the same node or the inverted Disjoint, and a result in one order exactly when in the other |
| SchemaBase.IntersectClosedDisjointFacesReceiver | ark/schema/base.ts:293-296 | a Disjoint from `intersectClosed` has the receiver on its left and the operand on its right, whichever operand was canonically left |
| SchemaBase.FallbackInner | ark/schema/base.ts:259-273 | there is an intersection inner exactly when one operand is a basis or both are predicates; with a basis, it holds the basis and the other node under its kind (listed when its intersection is open); two predicates give `{predicate: [a, b]}` |
| SchemaBase.FallbackInnerOneBasisSymmetric | ark/schema/base.ts:259-273 | with exactly one basis, the inner does not depend on operand order |
| SchemaBase.IntersectOpen | ark/schema/base.ts:254-277 | with a set operand the null closed result is an internal error; otherwise any result is the intersection node parsed from the fallback inner |
| SchemaBase.IntersectionCache.constructor | ark/schema/base.ts:235 | the cache starts empty |
| SchemaBase.IntersectionCache.Intersect | ark/schema/base.ts:239-278 | a cached pair returns the cached entry unchanged; a closed result is cached under both keys (inverted for the swapped key) and returned; otherwise the open intersection is returned and nothing is cached |
| NodesCompile.CompileDomainConditionPrints | src/nodes/compile.ts:35-40 | the emitted domain condition is the printed form of a condition expression |
| NodesCompile.DomainConditionMeaning | src/nodes/compile.ts:35-40 | that condition holds on a value exactly when the value's domain is the domain (an object or a function for "object") |
| NodesCompile.HasImpliedDomain | src/nodes/compile.ts:42-47 | a predicate implies its domain exactly when it is not `true` and every branch's rules give a `value` or an `instance` |
| NodesCompile.AllImply | src/nodes/compile.ts:44-47 | `every` holds exactly when each branch implies the domain |
| NodesCompile.HasImpliedDomainSplits | src/nodes/compile.ts:44-47 | a branch list implies its domain exactly when both parts of any split do |
| NodesCompile.UnshiftedGet | src/nodes/compile.ts:152-155 | after the unshifts, a configured key's list starts with the node's value for it; other keys are unchanged |
| NodesCompile.ShiftedGet | src/nodes/compile.ts:157-159 | the shifts drop the first value of each configured key and leave other keys alone |
| NodesCompile.ShiftUndoesUnshift | src/nodes/compile.ts:151-161 | shifting the configured keys after unshifting them restores the traversal config |
| NodesCompile.ConfigNodeValuesAreInnermost | src/nodes/compile.ts:151-156 | while the node compiles, each configured key's first value is the node's own |
| NodesCompile.ValueForDistinct | src/nodes/compile.ts:152-155 | with distinct keys, the value recorded for an entry's key is that entry's value |
| NodesCompile.Compilation.constructor | src/nodes/compile.ts:88-97 | a new compilation starts at the empty path, domain "undefined", no fail-fast, and empty `mustBe` and `keys` lists |
| NodesCompile.Compilation.GetConfigKey | src/nodes/compile.ts:147-149 | the first value of the key's list, or undefined exactly when the list is empty |
| NodesCompile.Compilation.RebasePathAndCompile | src/nodes/compile.ts:117-133 | at the empty path, the compiled code itself; otherwise the code compiled at the empty path, wrapped to push the old path onto the base path and truncate it afterwards; the path is restored |
| NodesCompile.Compilation.CompileConfigNode | src/nodes/compile.ts:151-161 | the node compiles under the config with its values unshifted, and the config is restored afterwards |
| NodesCompile.ProblemNamesCode | src/nodes/compile.ts:111-115 | two emitted `state.reject` calls with equal texts name the same problem code, when codes hold no quote |
| NodesCompile.CompileTypeNode | src/nodes/compile.ts:49-73 | one domain with `true` gives its domain check; a predicate that implies its domain gives its checks alone; otherwise the domain check then the checks; several domains give the "unimplemented" text |
| Define.KindListsAsDeclared | ark/schema/shared/define.ts:17-67 | the kind groups are the listed kinds in the listed order, and `constraintKinds`/`nodeKinds` are the concatenations the source spreads |
| Define.NodeKindsListEachKindOnce | ark/schema/shared/define.ts:67-74 | `nodeKinds` has 19 entries, lists no kind twice and lists every kind (the `assertNoExtraKinds` check) |
| Define.KindIndex | ark/schema/shared/define.ts:67 | every kind sits at one position of `nodeKinds` |
| Define.KindNameInjective | ark/schema/shared/define.ts:17-67 | two kinds with the same name string are the same kind |
| Define.KindGroupsPartition | ark/schema/shared/define.ts:17-67 | every kind is exactly one of set, basis or refinement; constraints are exactly the non-set kinds and types exactly the set and basis kinds |
| Define.DefaultValueSerializer | ark/schema/shared/define.ts:90-100 | strings, booleans, numbers and null are returned as themselves (as JSON that reads back as the value); every other value goes to `compileSerializedValue` |
| Divisor.Normalize | ark/schema/refinements/divisor.ts:39-40 | a bare number becomes `{ divisor: n }`; an inner object is kept as it is |
| Divisor.NormalizeIdempotent | ark/schema/refinements/divisor.ts:39-40 | normalizing a normalized schema changes nothing |
| Divisor.RemainderZeroIffDivides | ark/schema/refinements/divisor.ts:57 | the host's truncating `%` is zero exactly when the divisor divides the number, for negative operands too |
| Divisor.AllowsExactlyMultiples | ark/schema/refinements/divisor.ts:57 | `traverseAllows` accepts exactly the multiples of a non-zero divisor (a zero divisor accepts nothing: `x % 0` is NaN) |
| Divisor.GreatestCommonDivisor | ark/schema/refinements/divisor.ts:79-89 | the loop computes Euclid's recurrence on the host's remainder, and a zero right operand returns the left one |
| Divisor.EuclidCommonDivisor | ark/schema/refinements/divisor.ts:79-89 | the result divides both operands |
| Divisor.EuclidGreatest | ark/schema/refinements/divisor.ts:79-89 | every common divisor of the operands divides the result |
| Divisor.EuclidBezout | ark/schema/refinements/divisor.ts:79-89 | the result is an integer combination of the operands |
| Divisor.EuclidZeroOnlyForZeros | ark/schema/refinements/divisor.ts:79-89 | the result is zero exactly when both operands are |
| Divisor.EuclidPositive | ark/schema/refinements/divisor.ts:79-89 | on non-negative operands, not both zero, the result is positive |
| Divisor.IntersectDivisorsExact | ark/schema/refinements/divisor.ts:63-70 | the division by the gcd is exact, so `abs(l * r / gcd)` is an integer equal to `abs(l * (r / gcd))` |
| Divisor.IntersectionIsCommonMultiple | ark/schema/refinements/divisor.ts:63-70 | both divisors divide the intersected divisor |
| Divisor.IntersectionIsLeastCommonMultiple | ark/schema/refinements/divisor.ts:63-70 | for non-zero divisors the intersected divisor is positive and divides every common multiple |
| Divisor.IntersectDivisorsCommutes | ark/schema/refinements/divisor.ts:63-70 | intersecting divisors does not depend on their order |
| Divisor.ThreeAndFiveGiveFifteen | ark/schema/refinements/divisor.ts:63-70 | divisors 3 and 5 intersect to 15 |
| Divisor.CompiledCondition | ark/schema/refinements/divisor.ts:49-51 | the emitted condition is `<data> % <divisor> === 0` |
| Divisor.CompiledNegation | ark/schema/refinements/divisor.ts:49-52 | the emitted negation is `<data> % <divisor> !== 0` |
| Divisor.CompiledConditionMatchesTraversal | ark/schema/refinements/divisor.ts:49-57 | on a number the emitted condition holds exactly when `traverseAllows` does, and the negation holds exactly when the condition does not |
| Divisor.Description | ark/schema/refinements/divisor.ts:43-47 | the description is "an integer" exactly for divisor 1 |
| Divisor.DescriptionInjective | ark/schema/refinements/divisor.ts:43-47 | distinct divisors have distinct descriptions |
| Divisor.FoldedDivisor | ark/schema/refinements/divisor.ts:72-74 | with no divisor yet the node's own divisor is stored; an equal divisor is kept |
| Divisor.FoldedDivisorIsLeastCommonMultiple | ark/schema/refinements/divisor.ts:72-74 | folding a positive divisor into a positive one gives a positive common multiple that divides every common multiple |
| Divisor.FoldIntersection | ark/schema/refinements/divisor.ts:72-75 | `into.divisor` becomes the intersection of the node with the divisor already there; `into` itself is returned |
| DomainBasis.Normalize | ark/schema/nodes/domain.ts:41-42 | a domain name becomes `{ domain: name }`; an inner object is kept |
| DomainBasis.Intersect | ark/schema/nodes/domain.ts:45-47 | two domain nodes meet only when equal (the shortcut of `intersectClosed` taken first); otherwise the result is a "domain" Disjoint of the two |
| DomainBasis.DistinctDomainsShareNoValue | ark/schema/nodes/domain.ts:45-61 | a Disjoint between domains is justified: no value is allowed by both |
| DomainBasis.NegatedCondition | ark/schema/nodes/domain.ts:56-59 | the negated condition is the logical negation of the condition, in De Morgan form for "object" |
| DomainBasis.TypeofConditionTexts | ark/schema/nodes/domain.ts:51-59 | for a domain other than "object" the emitted texts are `typeof <arg> === "<domain>"` and `typeof <arg> !== "<domain>"` |
| DomainBasis.EvalCondition | ark/schema/nodes/domain.ts:51-54 | the "object" condition holds for non-null objects and functions; any other condition holds when `typeof` names the domain |
| DomainBasis.ConditionMatchesTraversal | ark/schema/nodes/domain.ts:51-61 | for every basis domain the emitted condition holds exactly when `traverseAllows` does, and the negated condition exactly when it does not |
| DomainBasis.Description | ark/schema/nodes/domain.ts:63-86 | basis domains are described with an article ("an object", "a number"); boolean, null and undefined by their bare names |
| DomainBasis.DescriptionInjective | ark/schema/nodes/domain.ts:68-86 | distinct domains have distinct descriptions |
| IoCompile.CreateCompilationContext | ark/schema/io/compile.ts:22-31 | a new context has the given success and failure kinds and an empty path, no discriminants and no bases |
| IoCompile.CompileSerializedValue | ark/schema/io/compile.ts:97-101 | objects, functions and symbols are registered and referred to by their registry name; every other value is serialised as a primitive |
| IoCompile.PathListCode | ark/schema/io/compile.ts:40-42 | one code per path segment: a key segment JSON-quoted, an index variable written bare |
| IoCompile.PathListCodeDecodes | ark/schema/io/compile.ts:40-42 | the code of a key segment unquotes to the key, and the code of an index variable (an identifier) does not start with a quote, so the two kinds of segment cannot be confused |
| IoCompile.CompileAddProblem | ark/schema/io/compile.ts:33-44 | the emitted call is `state.addProblem("<code>", <serialised rule>, $arkRoot, [<path codes joined by ",">])` |
| IoCompile.CompileFailureResult | ark/schema/io/compile.ts:46-54 | a "false" failure kind returns false; a "problems" kind emits the addProblem call |
| IoCompile.PathTexts | ark/schema/io/compile.ts:62 | one text per segment, as `join()` renders it |
| IoCompile.CompileCheckAsWritten | ark/schema/io/compile.ts:56-89 | the check as written: an empty text, or the guarded failure result; the object shortcut compares joined paths with `startsWith` |
| IoCompile.CompileCheck | ark/schema/io/compile.ts:56-89 | corrected, with both path comparisons made segment by segment: the check is dropped exactly when an "object" domain check sits under a discriminated path, or a discriminant at the same path already settles the domain or value; otherwise it is `if (!(<condition>)) { <failure> }` |
| IoCompile.CorrectedCheckDropsLess | ark/schema/io/compile.ts:62-71 | every check the segment-wise comparison drops is also dropped as written (the string prefix test accepts more) |
| IoCompile.SiblingPathDropsObjectCheck | ark/schema/io/compile.ts:62-71 | with a discriminant at path ["ab"], the object check at path ["a"] is dropped as written, and kept by the segment-wise comparison |
| IoCompile.JoinedPathsCoincideAsWritten | ark/schema/io/compile.ts:72-81 | with a value discriminant at ["a,b"], the value check at ["a", "b"] is dropped as written, because both paths join to "a,b", and kept by the segment-wise comparison |
| IoCompile.CompilePropAccess | ark/schema/io/compile.ts:106-109 | an identifier is accessed with "." (or "?."), any other name with a bracket around its JSON quoting (or "?.[...]") |
| IoCompile.PropAccessInjective | ark/schema/io/compile.ts:106-109 | distinct names give distinct accessors |
| IoCompile.DotAndBracketAccessDiffer | ark/schema/io/compile.ts:103-109 | a dot accessor and a bracket accessor are never the same text |
| IoRegistry.CandidatesDistinct | ark/schema/io/registry.ts:24-28 | the candidate names baseName, baseName2, baseName3, ... are pairwise distinct |
| IoRegistry.ChosenIndex | ark/schema/io/registry.ts:26-28 | the probe stops at the first candidate that is free or already holds the value, after at most one more step than there are registered names |
| IoRegistry.ChosenIndexIsFirstUsable | ark/schema/io/registry.ts:26-28 | the chosen candidate is the first usable one, whichever it is |
| IoRegistry.RegisterAgainSameName | ark/schema/io/registry.ts:23-31 | registering the same value again returns the same name and leaves the registry as it was |
| IoRegistry.Registry.constructor | ark/schema/io/registry.ts:15-21 | the registry is the global one: an existing `$ark` is reused with its names |
| IoRegistry.Registry.Register | ark/schema/io/registry.ts:23-31 | the probing loop stores the value under the first free or same-valued candidate, returns `$ark.<name>` and keeps every other registered value under its name |
| IoRegistry.LowerAscii | ark/schema/io/registry.ts:44 | `toLowerCase` of one character: upper-case ASCII letters become lower case, everything else is kept |
| IoRegistry.BaseNameFor | ark/schema/io/registry.ts:36-57 | objects are named by their object kind (first letter lower-cased) or "object"; functions and symbols by their name or description when it is an identifier, else "anonymousFunction"/"anonymousSymbol"; any other value is an internal error |
| IoRegistry.RegisterByKind | ark/schema/io/registry.ts:23-57 | `register` with the default base name: the internal error of `baseNameFor` leaves the registry unchanged; otherwise the value is stored under the chosen name and its reference returned |
| MaxLength.Normalize | ark/type/constraints/refinements/maxLength.ts:43-44 | a bare number becomes an inclusive bound with that rule; a schema object keeps its rule and exclusivity |
| MaxLength.TraverseAllowsAdmits | ark/type/constraints/refinements/maxLength.ts:66-68 | `traverseAllows` (`<` when exclusive, `<=` otherwise) admits a length exactly when the bound, read as a set of lengths, holds it |
| MaxLength.Description | ark/type/constraints/refinements/maxLength.ts:46-50 | "less than length n" for an exclusive bound, "at most length n" otherwise |
| MaxLength.DescriptionInjective | ark/type/constraints/refinements/maxLength.ts:46-50 | distinct bounds have distinct descriptions |
| MaxLength.IntersectMaxLengths | ark/type/constraints/refinements/maxLength.ts:54 | the stricter of two maxLength bounds is kept, and it admits exactly the lengths both admit |
| MaxLength.IntersectMaxLengthsCommutes | ark/type/constraints/refinements/maxLength.ts:54 | the kept bound does not depend on the order of the operands |
| MaxLength.StricterMaxLengthExamples | ark/type/constraints/refinements/maxLength.ts:54 | "<= 3" beats "< 4" and "< 3" beats "<= 3", in either order |
| MaxLength.OverlapsRangeMeaning | ark/type/constraints/refinements/maxLength.ts:56 | `overlapsRange` holds exactly when some length satisfies both bounds |
| MaxLength.OverlapIsUnitMeaning | ark/type/constraints/refinements/maxLength.ts:57 | on overlapping bounds, `overlapIsUnit` holds exactly when only one length satisfies both |
| MaxLength.IntersectMaxMin | ark/type/constraints/refinements/maxLength.ts:55-60 | maxLength with minLength is a "range" Disjoint when they do not overlap, an exactLength of the max rule when they overlap in one length, and both kept (null) otherwise |
| MaxLength.IntersectMeaning | ark/type/constraints/refinements/maxLength.ts:55-60 | a Disjoint leaves no length both bounds admit, and an exactLength admits exactly the lengths both do, in either operand order |
| MaxLength.LengthBoundExamples | ark/type/constraints/refinements/maxLength.ts:55-60 | minLength 6 with maxLength 6 is exactLength 6; minLength 3 against "< 3" or "<= 1" is a Disjoint |
| MorphType.Out | ark/schema/types/morph.ts:140-142 | `out` is the output node when there is one, else the builtin `unknown` |
| MorphType.MorphListsConflictAsWrittenIsAsymmetric | ark/schema/types/morph.ts:100 | as written, [f] against [f, g] passes the test while [f, g] against [f] fails it, though the lists differ either way |
| MorphType.MorphListsConflictRefinesAsWritten | ark/schema/types/morph.ts:100 | the list comparison by equality is symmetric, rejects every pair the written test rejects, and additionally rejects exactly the pairs where the left list is a proper prefix of the right |
| MorphType.AgreeingListIsPrefix | ark/schema/types/morph.ts:100 | a pair the written test accepts has the left list as a prefix of the right |
| MorphType.IntersectChildren | ark/schema/types/morph.ts:105-117 | an input Disjoint is returned first, then an output Disjoint; otherwise a morph with the left morphs, the intersected input and the intersected output (`out` defaulting to `unknown`) |
| MorphType.IntersectSymmetricAsWritten | ark/schema/types/morph.ts:99-118 | as written: a parse error "Invalid intersection of morphs" exactly when the index-wise test finds a difference, else the children's intersection |
| MorphType.IntersectAsWrittenDependsOnOrder | ark/schema/types/morph.ts:99-118 | as written, morph lists [f] and [f, g] intersect to a morph with [f] in one order and raise the parse error in the other |
| MorphType.IntersectSymmetric | ark/schema/types/morph.ts:99-118 | corrected: the parse error exactly when the morph lists differ, else the children's intersection |
| MorphType.IntersectSymmetricOrderIndependent | ark/schema/types/morph.ts:99-118 | whether the corrected intersection fails does not depend on operand order; every pair the written test rejects is rejected; a met result carries the one shared morph list |
| MorphType.CheckingUsesOnlyInput | ark/schema/types/morph.ts:121-146 | `traverseAllows`, `traverseApply` and `compile` depend on the input node only |
| MorphType.IntersectSymmetricIsIntersection | ark/schema/types/morph.ts:99-122 | given a child intersection that is sound, a met morph allows exactly the data both operands allow, and an input Disjoint leaves no datum both allow |
| MorphType.IntersectRightwardInner | ark/schema/types/morph.ts:126-134 | the input is intersected with the operand: its Disjoint is returned, otherwise the inner record with the new input and everything else kept |
| MorphType.IntersectRightwardInnerIsIntersection | ark/schema/types/morph.ts:121-134 | the result allows exactly what the morph and the operand both allow, keeps morphs, output and description, and a Disjoint leaves no datum both allow |
| MorphType.Description | ark/schema/types/morph.ts:95-97 | "a morph from <input> to <output>", with "undefined" for a missing output as the template interpolates it |
| MorphSet.IntersectRightward | ark/schema/sets/morph.ts:102-144 | corrected routing: a morph operand goes to the own-kind intersection with the morph lists compared as whole lists (the parse error exactly when they differ); an intersection or basis operand is met with the input, giving its Disjoint or the inner record with the new input |
| MorphSet.IntersectRightwardAsWritten | ark/schema/sets/morph.ts:102-144 | as written: a morph operand goes to the own-kind intersection with the index-wise morph-list test, which alone can raise the parse error; any other operand is met as in the corrected routing |
| MorphSet.RightwardAsWrittenAcceptsExtension | ark/schema/sets/morph.ts:103 | the written and the corrected routing differ exactly on a morph operand whose morph list properly extends the receiver's, and every error as written is an error when corrected |
| MorphSet.ShortMorphMeetsLongAsWritten | ark/schema/sets/morph.ts:103 | as written, a morph [f] met with a morph [f, g] succeeds and keeps [f]; compared as whole lists it is the "Invalid intersection of morphs" parse error |
| MorphSet.IntersectRightwardIsIntersection | ark/schema/sets/morph.ts:97-144 | given a sound child intersection, a met result allows exactly the data the morph and the operand both allow and keeps morphs, output and description; a Disjoint leaves no datum both allow |
| MorphSet.CompiledCodeUsesOnlyInput | ark/schema/sets/morph.ts:154-160 | the compiled apply and allows code are the input node's |
| NarrowConstraint.Normalize | ark/schema/constraints/narrow.ts:30-34 | a bare function becomes `{ rule: fn }`; a schema object is kept |
| NarrowConstraint.ApplicableTo | ark/schema/constraints/narrow.ts:39-47 | a narrow applies with no basis or a domain or prototype basis, and not to a unit basis |
| NarrowConstraint.Description | ark/schema/constraints/narrow.ts:53-55 | "valid according to " followed by the function's name |
| NarrowConstraint.Hash | ark/schema/constraints/narrow.ts:49-51 | the hash is the registry reference of the function |
| NarrowConstraint.Intersect | ark/schema/constraints/narrow.ts:57-63 | both `intersectSymmetric` and `intersectAsymmetric` answer null: a narrow never merges with another narrow or with a constraint of another kind, so both are kept |
| Pattern.Normalize | ark/schema/refinements/pattern.ts:35-42 | a string is a flagless source; a RegExp gives its source, and its flags only when they are non-empty; an inner object is kept |
| Pattern.NormalizeKeepsRegExpLiteral | ark/schema/refinements/pattern.ts:35-52 | a RegExp's normalized node compiles to a test by the same literal `/<source>/<flags>` |
| Pattern.Description | ark/schema/refinements/pattern.ts:45-47 | "matched by " followed by the source |
| Pattern.CompiledNegation | ark/schema/refinements/pattern.ts:49-56 | the negation is "!" before the compiled condition |
| Pattern.IntersectOwnInner | ark/schema/refinements/pattern.ts:69-72 | two patterns never merge into one |
| Pattern.AppendUnique | ark/schema/refinements/pattern.ts:75 | the pattern is appended unless already listed, in which case the list is unchanged |
| Pattern.AppendUniqueKeepsDistinct | ark/schema/refinements/pattern.ts:75 | appending keeps a repeat-free list repeat-free, is idempotent, and the list holds exactly the old patterns and the new one |
| Pattern.FoldIntersection | ark/schema/refinements/pattern.ts:74-77 | `into.pattern` becomes the old list with the pattern appended uniquely; `into` is returned |
| Pattern.FoldTwoDistinct | ark/schema/refinements/pattern.ts:69-77 | folding two distinct patterns into an empty accumulator keeps both, in fold order |
| OptionalProp.IntersectOptional | ark/schema/props/optional.ts:60-71 | optional props on different keys do not merge (null); on one key they merge into one prop whose value is the intersection of the values, or `never` when the values are disjoint |
| OptionalProp.TraverseApply | ark/schema/props/optional.ts:91-95 | an absent key reports nothing; a present key reports what the value node reports on the value under it |
| OptionalProp.TraversalsAgree | ark/schema/props/optional.ts:87-95 | when the value node's allows and apply agree, the prop's `traverseAllows` holds exactly when `traverseApply` reports nothing |
| OptionalProp.IntersectOptionalIsIntersection | ark/schema/props/optional.ts:60-89 | given a sound value intersection, the merged prop allows exactly the objects both props allow (a value conflict leaves the key allowed only when absent) |
| OptionalProp.Description | ark/schema/props/optional.ts:55-57 | "<key>?: <value>" |
| SchemaParse.EntriesOf | ark/schema/parse.ts:126 | `entriesOf` of the normalized input: undefined and null have no entries (the host throws), a list gives one entry per element |
| SchemaParse.EntriesOfDistinct | ark/schema/parse.ts:126 | the entries of an object or list have distinct keys |
| SchemaParse.SortEntries | ark/schema/parse.ts:126-128 | the entries are rearranged (same multiset) into strictly ascending key order by the comparator `l[0] < r[0] ? -1 : 1`, the host's `<`, which compares UTF-16 code units |
| SchemaParse.SortEntriesSameElements | ark/schema/parse.ts:126-128 | sorting keeps exactly the same entries |
| SchemaParse.KeyOrderTotal | ark/schema/parse.ts:126-128 | on distinct keys the comparator is a strict total order |
| SchemaParse.EntryChildren | ark/schema/parse.ts:142-151 | a node value contributes itself as a child, a list of nodes its elements, any other value none |
| SchemaParse.ProcessFrom | ark/schema/parse.ts:132-159 | the fold over the sorted entries keeps inner, json, typeJson and children aligned, adding at most one inner entry per schema entry |
| SchemaParse.ProcessFromRejectsFirstUndeclared | ark/schema/parse.ts:132-136 | the fold fails exactly when some key is undeclared, with "Key <k> is not valid on <kind> schema" for the first such key |
| SchemaParse.ProcessFromInner | ark/schema/parse.ts:137-141 | the inner record holds exactly the parsed values, except undefined values of keys that do not preserve undefined |
| SchemaParse.ProcessFromTypeJson | ark/schema/parse.ts:156-158 | `typeJson` is `json` without the meta keys |
| SchemaParse.ProcessFromTypeJsonOnlyNonMeta | ark/schema/parse.ts:156-158 | `typeJson` is the same whether the meta entries are present or not |
| SchemaParse.EntryLoop | ark/schema/parse.ts:132-159 | the entry loop computes what the fold `ProcessFrom` describes |
| SchemaParse.Collect | ark/schema/parse.ts:126-159 | sorting then folding keeps the collected parts aligned |
| SchemaParse.CollectRejectsUndeclaredKey | ark/schema/parse.ts:126-136 | collecting fails exactly when some key is undeclared, naming the alphabetically first undeclared key |
| SchemaParse.CollectKeepsParsedEntries | ark/schema/parse.ts:132-141 | with all keys declared, collecting succeeds and the inner record holds exactly the kept parsed entries; an undefined value survives only under a key that preserves undefined |
| SchemaParse.CollectTypeJsonIsNonMetaJson | ark/schema/parse.ts:156-158 | after collecting, `typeJson` is `json` without the meta keys |
| SchemaParse.NonMetaEntriesSorted | ark/schema/parse.ts:126-158 | dropping meta entries from a sorted list leaves it sorted |
| SchemaParse.SortedNonMetaEntriesAgree | ark/schema/parse.ts:126-158 | schemas with the same non-meta entries, in any order, sort to the same non-meta entries |
| SchemaParse.MetaOnlyDifferenceSharesTypeId | ark/schema/parse.ts:156-184 | schemas that differ only in meta entries (or entry order) get the same `typeJson` and, when not collapsed to an object, the same `typeId` |
| SchemaParse.Assemble | ark/schema/parse.ts:168-198 | a node whose only inner key is the collapse key has that key's json as `collapsibleJson`, which replaces `json` and `typeJson` when it is an object; the id is the kind followed by the serialised json |
| SchemaParse.Finish | ark/schema/parse.ts:160-201 | when the context is not prereduced and the reduce hook returns a node, that node is the result; otherwise it is the node cached under the assembled id, else the builtin `unknown` when the typeId matches, else the assembled node |
| SchemaParse.ReductionShortCircuits | ark/schema/parse.ts:160-167 | a reduction that fires makes the result independent of the cache and builtins; a prereduced context finishes as if the kind had no reduce hook |
| SchemaParse.FinishNode | ark/schema/parse.ts:160-201 | computes the result `Finish` describes |
| SchemaParse.ParseNode | ark/schema/parse.ts:106-202 | a node input is returned as it is; otherwise the result is the one the specification `ParseSpec` describes |
| SchemaParse.BuildNodeOrderIndependent | ark/schema/parse.ts:126-202 | the node built does not depend on the order of the schema's entries |
| SchemaParse.BuildNodeRejectsUndeclaredKey | ark/schema/parse.ts:126-136 | building fails exactly when some key is undeclared, naming the alphabetically first one |
| SchemaParse.DedupKeepsFirstOccurrences | ark/schema/parse.ts:66-71 | the unique values are repeat-free, hold exactly the input's values, and are in the order of their first occurrences |
| SchemaParse.UniqueValues | ark/schema/parse.ts:66-71 | the `includes`/`push` loop computes the first-occurrence deduplication |
| SchemaParse.ParseEachUnit | ark/schema/parse.ts:72-74 | each unique value is parsed, prereduced, as a unit schema `{ is: value }` |
| SchemaParse.ParseUnits | ark/schema/parse.ts:61-81 | `parseUnits` gives the single unit node when one distinct value remains, and otherwise the prereduced union of the unit nodes |
| SchemaParse.SchemaKindOf | ark/schema/parse.ts:204-224 | a basis kind wins; a schema node gives its kind; an object with "morph" is a morph, with "branches" or an array a union, else an intersection; anything else is the parse error "<value> is not a valid type schema" |
| SchemaParse.ParseSchemaFromKinds | ark/schema/parse.ts:91-102 | a result exists only for an allowed kind; a kind outside the allowed list is the parse error "Schema of kind <kind> should be one of <kinds>" |
| NodesPredicate.New | src/nodes/predicate.ts:32-37 | `domain` is the first rule and `constraints` are the remaining rules, in order |
| NodesPredicate.FirstOfKind | src/nodes/predicate.ts:49-53 | the position of the first constraint of the kind, or -1 exactly when there is none |
| NodesPredicate.GetConstraint | src/nodes/predicate.ts:49-53 | `find`: the first constraint of the kind, or undefined exactly when no constraint has it |
| NodesPredicate.Push | src/nodes/predicate.ts:65-76 | one push extends the rule list by that constraint's rule |
| NodesPredicate.NewTracked | src/nodes/predicate.ts:32-37 | a list made of the domain rule and some constraints is a valid rule list, and the node built from it has that domain and exactly those constraints |
| NodesPredicate.From | src/nodes/predicate.ts:55-78 | the rules are the domain, then divisor, range, regex and props, each present only when given (a divisor of 0 is falsy) |
| NodesPredicate.GetConstraintAppend | src/nodes/predicate.ts:49-53 | a find on a concatenation answers from the first part when it can, else from the second |
| NodesPredicate.FromGetConstraint | src/nodes/predicate.ts:55-78 | a node from `from` has each of the four kinds exactly when the definition gives it, built from that input, and never a filter or a morph |
| NodesPredicate.CompileConjoins | src/nodes/predicate.ts:80-82 | one rule compiles to its own key; a split list compiles to its parts joined by " && " |
| NodesPredicate.KeyIndex | src/nodes/predicate.ts:99-110 | the position of a key among an object's entries, or -1 exactly when it is absent |
| NodesPredicate.Assign | src/nodes/predicate.ts:103-108 | `obj[k] = v`: keys stay distinct and in place, k now maps to v, and no other key changes |
| NodesPredicate.LookupDistinct | src/nodes/predicate.ts:99-110 | with distinct keys, the lookup of an entry's key finds that entry |
| NodesPredicate.EntriesOf | src/nodes/predicate.ts:43-47 | `getEntries` pairs each constraint with its kind, in order |
| NodesPredicate.FromEntries | src/nodes/predicate.ts:99 | `Object.fromEntries` has distinct keys |
| NodesPredicate.LastOfKind | src/nodes/predicate.ts:99 | the last constraint of a kind exists exactly when some constraint has that kind |
| NodesPredicate.FromEntriesLookup | src/nodes/predicate.ts:99 | a kind with repeats keeps the last constraint of that kind in the object |
| NodesPredicate.MergeAll | src/nodes/predicate.ts:100-110 | merging rules in keeps the keys distinct |
| NodesPredicate.MergeAllLookup | src/nodes/predicate.ts:100-110 | after the merge a kind holds the merged last rule of that kind when one exists, else its initial value; the initial keys keep their places |
| NodesPredicate.MergeIntoSelf | src/nodes/predicate.ts:99-133 | a kind on both sides holds this node's first constraint of the kind intersected with the other side's last; a kind on one side keeps that side's (last) constraint; no other kind appears |
| NodesPredicate.MergeRules | src/nodes/predicate.ts:100-110 | the loop over the other node's rules computes what `MergeAll` specifies |
| NodesPredicate.Intersect | src/nodes/predicate.ts:88-112 | the result object is this node's entries with the other node's constraints merged in |
| NodesPredicate.Built | src/nodes/predicate.ts:118-121 | one constraint per input entry, of that key's kind, built from its value |
| NodesPredicate.Constrain | src/nodes/predicate.ts:115-133 | the result object is this node's entries with the constraints built from the input merged in |
| NodesProps.CombinedKind | src/nodes/props.ts:149-154 | the combined kind is the stronger of the two (prerequisite over required over optional) and is one of them |
| NodesProps.IntersectNamed | src/nodes/props.ts:144-167 | the value is the meet of both values under the combined kind; a clash of values is a Disjoint unless the combined kind is optional, where the value becomes `never` |
| NodesProps.IntersectNamedCommutes | src/nodes/props.ts:144-167 | for a symmetric value meet, named-prop intersection gives the same prop in either order |
| NodesProps.IndexEntry.constructor | src/nodes/props.ts:114 | an index signature tuple holds its key type and value type |
| NodesProps.FindKey | src/nodes/props.ts:31 | `findIndex`: the first position whose key type is the key, or -1 exactly when none is |
| NodesProps.MergeStep | src/nodes/props.ts:31-43 | one right signature either updates the value at the first matching key or is appended; the keys of the earlier entries never change |
| NodesProps.MergeStepKeys | src/nodes/props.ts:31-43 | one step adds exactly the signature's key, and keeps keys distinct |
| NodesProps.MergeIndexedKeys | src/nodes/props.ts:29-44 | the merged signatures keep the left keys in place and have exactly the keys of both sides |
| NodesProps.MergeIndexedValues | src/nodes/props.ts:29-44 | merging keeps keys distinct, and a left signature whose key the right side lacks is unchanged |
| NodesProps.MergeIndexEntries | src/nodes/props.ts:29-44 | the loop returns the left tuples followed by new tuples pushed for the right key types the left lacks, with values equal to `MergeIndexed`; the left side's own tuples are updated in place to the merged values, and the right side's tuples keep their values |
| NodesProps.MergeOne | src/nodes/props.ts:31-43 | one iteration updates the first tuple with the same key in place or pushes a new tuple of the right key and value, as `MergeStep` specifies; no tuple other than a listed one or a new one is in the result |
| NodesProps.NewNames | src/nodes/props.ts:45 | the right side's names that the left side does not name, without repeats when the right side has none |
| NodesProps.SpreadIsUnion | src/nodes/props.ts:45 | `{...l.named, ...r.named}` iterates the left names first, then the new right names, without repeats, over exactly the keys of both sides |
| NodesProps.FoldIndexKeepsKind | src/nodes/props.ts:65-104 | meeting a named prop with index values keeps its kind, never fails for an optional prop, and changes nothing when no key type accepts the name |
| NodesProps.NamedFromResult | src/nodes/props.ts:46-107 | a completed named loop keeps the key set, sets each visited key to the prop computed for it from its spread prop, and leaves other keys alone |
| NodesProps.IntersectedNamedProps | src/nodes/props.ts:46-107 | with the intended test the loop never raises; when it completes, a key on both sides holds the intersection of the two props, and a key on one side holds that prop met with the other side's index signatures, with no other keys |
| NodesProps.MergedKeys | src/nodes/props.ts:45-107 | a completed named loop has exactly the keys of both sides |
| NodesProps.KeyCases | src/nodes/props.ts:48-105 | which of the three branches computes a key's prop is decided by which sides name the key |
| NodesProps.NamedFromNeverRaises | src/nodes/props.ts:48-63 | with the intended test, no key reaches a missing named prop |
| NodesProps.SharedKeyAsWritten | src/nodes/props.ts:48-49 | as written, `{a: pl}` ∩ `{a: pr}` without index signatures is `{a: pr}`, because `k in l` asks the node object and not its named props |
| NodesProps.SharedKeyIsIntersected | src/nodes/props.ts:48-63 | with the intended test, the same inputs give `{a: pl ∩ pr}` or that intersection's Disjoint |
| NodesProps.FoldIndexEntries | src/nodes/props.ts:67-83 | the loop over the other side's index tuples computes what `FoldIndex` specifies |
| NodesProps.KeyStep | src/nodes/props.ts:47-105 | one iteration of the named loop computes the prop `PropForKey` specifies |
| NodesProps.IntersectNamedLoop | src/nodes/props.ts:45-107 | the named loop computes what the specification `MergeNamed` describes |
| NodesProps.Intersection | src/nodes/props.ts:28-109 | the index signatures are merged first (rewriting the left tuples in place, pushing new tuples for the rest and leaving the right tuples as they were); a Disjoint or error from the named loop is the result; otherwise the node holds the merged named props in spread order and the merged signatures, each tuple a left one or a new one |
| RequiredProp.IntersectSymmetric | ark/schema/constraints/props/required.ts:67-80 | required props on different keys do not merge (null); on one key a value Disjoint is returned as it is, otherwise a prop on that key whose value is the intersection |
| RequiredProp.RequiredFoldInput.constructor | ark/schema/constraints/props/required.ts:119-124 | the accumulator holds the given basis domain and required list |
| RequiredProp.FoldIntersection | ark/schema/constraints/props/required.ts:119-138 | a basis that is not an object is an invalid-operand error with the list untouched; a missing list becomes `[this]`; otherwise the loop's result and list are those of the fold specification `FoldFrom` |
| RequiredProp.FoldFromAdvance | ark/schema/constraints/props/required.ts:130-136 | up to the first value conflict, the loop replaces each same-key entry by the merge and remembers that it matched |
| RequiredProp.FoldMergesOrAppends | ark/schema/constraints/props/required.ts:129-137 | with no value conflict the fold succeeds, every entry becomes its merge with the node (entries on other keys unchanged), and the node is appended exactly when no entry had its key |
| RequiredProp.FoldStopsAtFirstClash | ark/schema/constraints/props/required.ts:130-134 | the first value conflict is returned, and the entries before it stay merged in place (the list is mutated before the return) |
| RequiredProp.FoldAppendsNewKey | ark/schema/constraints/props/required.ts:129-137 | a key no entry has is appended at the end |
| RequiredProp.TraverseApply | ark/schema/constraints/props/required.ts:96-102 | a missing key reports the "required" error for that key; a present key reports what the value node reports on its value |
| RequiredProp.TraversalsAgree | ark/schema/constraints/props/required.ts:89-102 | when the value node's allows and apply agree, `traverseAllows` holds exactly when `traverseApply` reports nothing |
| RequiredProp.ErrorContextJson | ark/schema/constraints/props/required.ts:84-87 | the frozen error context serialises with "code": "required" first |
| RequiredProp.Compile | ark/schema/constraints/props/required.ts:104-117 | an `if (<key> in <data>)` checking the literal key, with `return false` then `return true` in Allows mode and a `ctx.error(<context JSON>)` line in Apply mode |
| RequiredProp.CompiledAllowsAgrees | ark/schema/constraints/props/required.ts:89-117 | running the Allows-mode code returns what `traverseAllows` returns |
| PredicateRules.EntryOf | src/nodes/predicate/predicate.ts:43-50 | the first entry of a kind, absent exactly when no entry has that kind |
| PredicateRules.Field | src/nodes/predicate/predicate.ts:43-50 | `Object.assign` sets a keyed object's own kinds; a list sets only index keys, so every named field stays unset |
| PredicateRules.BasisOf | src/nodes/predicate/predicate.ts:36 | the basis is set exactly when the `basis` field holds a single node |
| PredicateRules.Flatten | src/nodes/predicate/predicate.ts:52-54 | `.flat()` holds exactly the members of the groups |
| PredicateRules.Values | src/nodes/predicate/predicate.ts:52-54 | `Object.values` of a keyed object gives its groups in order, of a list its items |
| PredicateRules.FieldMembersAreChildren | src/nodes/predicate/predicate.ts:49-54 | every member of a set field is among the node's children |
| PredicateRules.UnitAsWritten | src/nodes/predicate/predicate.ts:60-63 | as written, `unit` is never set, because its initialiser runs before `Object.assign` sets the basis |
| PredicateRules.Unit | src/nodes/predicate/predicate.ts:60-63 | the intended `unit` is the basis exactly when the basis is a unit and the node's only child |
| PredicateRules.UnitNeverSetAsWritten | src/nodes/predicate/predicate.ts:60-63 | a node whose only constraint is a unit basis has no `unit` as written, and has that unit as intended |
| PredicateRules.Descriptions | src/nodes/predicate/predicate.ts:140-142 | each child is shown by its own string |
| PredicateRules.Describe | src/nodes/predicate/predicate.ts:135-143 | "unknown" without children, the only child's own text for one child, and a parenthesised list otherwise |
| PredicateRules.DescribeDependsOnChildren | src/nodes/predicate/predicate.ts:135-143 | the intended description depends only on the children |
| PredicateRules.DescribeAsWrittenAgrees | src/nodes/predicate/predicate.ts:135-143 | the written description agrees with the intended one unless a single child is not the basis |
| PredicateRules.DescribeAsWrittenUndefined | src/nodes/predicate/predicate.ts:139 | as written, a node whose only child is a divisor is described "undefined" |
| PredicateRules.KeyOf | src/nodes/predicate/predicate.ts:145-151 | `never` without a basis; the properties' keys united with the basis's keys when there are properties; otherwise the basis's keys |
| PredicateRules.MeetBases | src/nodes/predicate/predicate.ts:66-70 | the result basis clashes exactly when both bases exist and their intersection is a Disjoint |
| PredicateRules.IntersectResult | src/nodes/predicate/predicate.ts:65-111 | a basis Disjoint is returned; a unit basis on this side the other side does not allow, or else a unit basis on the other side this side does not allow, is an "assignability" Disjoint; otherwise a node built from the basis and one group per kind |
| PredicateRules.CollectRules | src/nodes/predicate/predicate.ts:84-108 | the loop over kinds collects the basis and the groups `ResultRules` specifies |
| PredicateRules.PushKinds | src/nodes/predicate/predicate.ts:85-108 | the loop pushes one group per kind that either side has, this side's first |
| PredicateRules.Intersect | src/nodes/predicate/predicate.ts:65-111 | the method computes what `IntersectResult` specifies |
| PredicateRules.KindRulesFromFields | src/nodes/predicate/predicate.ts:85-108 | every kept group is this side's group of its kind, or the other side's when this side has none |
| PredicateRules.KindRulesKeepPick | src/nodes/predicate/predicate.ts:85-108 | the group picked for each listed kind is kept |
| PredicateRules.ResultChildren | src/nodes/predicate/predicate.ts:84-110 | the result's children come from the basis or either side, and include every non-basis child of this side, and of the other side for a kind this side lacks |
| PredicateRules.IntersectKeepsThisSide | src/nodes/predicate/predicate.ts:85-110 | an intersected node's children include this side's non-basis children, and the other side's for kinds this side lacks |
| PredicateRules.IntersectResultHasNoFields | src/nodes/predicate/predicate.ts:110 | the node `intersect` builds from a list has no named field, no basis and no unit |
| PredicateRules.Constrain | src/nodes/predicate/predicate.ts:153-166 | a failed basis check is thrown; otherwise the intersection with a node made from `[constraint]` is returned, or its Disjoint is thrown |
| PredicateRules.ConstrainAddsNothing | src/nodes/predicate/predicate.ts:159-161 | as written, the result holds no child this node did not already hold |
| PredicateRules.ConstrainDropsConstraint | src/nodes/predicate/predicate.ts:159-161 | as written, constraining a node without constraints gives an empty node, without the new constraint |
| PredicateRules.GroupOf | src/nodes/predicate/predicate.ts:16-23 | a new constraint forms a single group for basis, divisor and properties, else a one-element list |
| PredicateRules.ConstrainIntended | src/nodes/predicate/predicate.ts:153-166 | the intended `constrain` still throws a failed basis check |
| PredicateRules.ConstrainIntendedAdds | src/nodes/predicate/predicate.ts:153-166 | with the new constraint passed under its kind, a non-basis constraint this node lacks is in any successful result |
| ArkScope.ParseScopeKeyAsWritten | ark/type/scope.ts:763-784 | as written: "#" marks a local key; a key without "<" is a plain name with no parameters; a generic key must end with ">" or it is the parse error about the closing ">"; the name of a local generic key runs one character past its "<" |
| ArkScope.LocalGenericNameAsWritten | ark/type/scope.ts:779-783 | as written, a local generic key "#name<params>" parses to the name "name<": the index of "<" in the key is used to cut the name after its "#" is stripped |
| ArkScope.BoxNamedWithBracket | ark/type/scope.ts:779-783 | as written, "#box<t>" is named "box<" |
| ArkScope.ParseScopeKey | ark/type/scope.ts:763-784 | corrected: the same locality and closing-">" error; a generic key's name is the text between the "#" (if any) and the first "<", and its parameters are parsed from the text between that "<" and the closing ">" |
| ArkScope.ParsedNameHasNoBracket | ark/type/scope.ts:763-784 | a name parsed by the corrected reading never holds "<" |
| ArkScope.ScopeKeyRoundTrip | ark/type/scope.ts:763-784 | every declaration key ("#"-prefixed or not, with or without "<params>") parses back to its locality, its name and its parsed parameters |
| ArkScope.PlainRoundTrip | ark/type/scope.ts:764-773 | a key without parameters parses back to its locality and name, with no parameters |
| ArkScope.GenericRoundTrip | ark/type/scope.ts:774-783 | a generic key parses back to its locality, name and parsed parameter text |
| ArkScope.Prefixed | ark/type/scope.ts:713-716 | the inner resolutions re-keyed as "<k>.<innerK>", with their values and nothing else |
| ArkScope.Resolutions | ark/type/scope.ts:707-725 | the flattened resolutions never hold a submodule |
| ArkScope.ResolutionsOfModule | ark/type/scope.ts:707-725 | the loop over the module's keys, recursing into submodules, computes the flattened resolutions |
| ArkScope.ResolutionsKeepEverything | ark/type/scope.ts:707-725 | every type or generic is kept under its own key, and every resolution of a submodule under "<k>.<inner key>" |
| ArkScope.ResolutionsComeFromEntries | ark/type/scope.ts:707-725 | every flattened key comes from one export: its own key, or a submodule's key followed by "." and an inner key |
| ArkScope.ParseUnits | ark/type/scope.ts:600-615 | the values are deduplicated keeping first occurrences; one distinct value gives its unit node, otherwise a root, prereduced union of the unit nodes in that order |
| ArkScope.RepeatedUnitIsSingle | ark/type/scope.ts:605-613 | any number of copies of one value leave a single unit |
| ArkScope.Member | ark/type/scope.ts:512 | a module member is found exactly when some export has that key |
| ArkScope.Scope.constructor | ark/type/scope.ts:340-379 | a scope starts with its aliases and resolutions and an empty parse cache |
| ArkScope.Scope.MaybeResolveSubalias | ark/type/scope.ts:504-526 | a name without "." resolves to nothing; "<module>.<member>" to the member, cached in `resolutions`; a missing member is the "unresolvable" error; a prefix naming a non-module alias is the "non-submodule dot" error; an unknown prefix resolves to nothing |
| ArkScope.Scope.Parse | ark/type/scope.ts:446-462 | a string with contextual arguments is parsed afresh; without them it is parsed once and then served from the cache; an object is parsed as an object; any other definition is the bad-definition parse error for its domain |
| ArkScope.SubaliasFindsMember | ark/type/scope.ts:504-526 | for "<prefix>.<member>" the answer is decided by the prefix alone: unknown gives nothing, a definition alias the non-submodule error, a module its member or the unresolvable error |
| Constraint.ApplyErrors | ark/schema/constraints/constraint.ts:48-52 | a primitive constraint reports at most one error, none exactly when it allows the data, and that error is its description |
| Constraint.TraversalContext.constructor | ark/schema/constraints/constraint.ts:48-52 | a fresh traversal context holds no error |
| Constraint.TraversalContext.Error | ark/schema/constraints/constraint.ts:50 | `ctx.error` appends the message to the context's errors and changes nothing else |
| Constraint.TraverseApply | ark/schema/constraints/constraint.ts:48-52 | `traverseApply` appends to the context exactly the errors `ApplyErrors` gives: the description when the data is not allowed, nothing otherwise |
| Constraint.GetBasisName | ark/schema/constraints/constraint.ts:59-60 | the basis's name when there is a basis, "unknown" otherwise |
| NodesNarrow.ListFrom | src/nodes/narrow.ts:11-15 | a single predicate becomes a one-element list; a list is kept |
| NodesNarrow.New | src/nodes/narrow.ts:11-15 | the node's predicates are the listed input |
| NodesNarrow.Compile | src/nodes/narrow.ts:17-19 | whatever the predicates, the compiled text is `false` |
| NodesNarrow.ToStringShape | src/nodes/narrow.ts:21-26 | one predicate is written "narrow <name>"; otherwise "narrows " and the names in order separated by ", " |
| NodesNarrow.SingleNarrowDescription | src/nodes/narrow.ts:11-26 | a node built from one predicate is written "narrow <name>" |
| NodesNarrow.IntersectUniqueLists | src/nodes/narrow.ts:32-34 | the left list first and unchanged, then only right elements the left list lacks; membership is exactly the union |
| NodesNarrow.Intersect | src/nodes/narrow.ts:32-34 | the intersection is a new node over the unique union of both predicate lists |
| NodesNarrow.IntersectCollects | src/nodes/narrow.ts:32-34 | the result holds exactly the predicates of either side, the left side's first and in order, and has no repeats when neither side has |
| NodesNarrow.IntersectSubsumed | src/nodes/narrow.ts:32-34 | a right side the left already covers adds nothing, so a node intersected with itself is unchanged |
| RegexLiteral.SerializeRegex | src/nodes/primitive/regex.ts:5-8 | the literal is "/", the source, "/" and the flags |
| RegexLiteral.LastSlashBeforeFlags | src/nodes/primitive/regex.ts:10-11 | with slash-free flags, the last "/" of a literal is the one before the flags |
| RegexLiteral.SourceRoundTrip | src/nodes/primitive/regex.ts:5-11 | reading the source back from a serialised regex gives the source, even one holding slashes |
| RegexLiteral.SlashInSourceSurvives | src/nodes/primitive/regex.ts:10-11 | "/a/b/gi" reads back as "a/b" |
| RegexLiteral.Compile | src/nodes/primitive/regex.ts:16-18 | the compiled test starts with the rule, which `.test(<input>)` follows |
| RegexLiteral.Describe | src/nodes/primitive/regex.ts:20-22 | "matched by " followed by the rule |
| RegexLiteral.TextsNameTheRule | src/nodes/primitive/regex.ts:16-22 | the compiled test (over one input) and the description each determine the rule |
| DateLiteral.IsDateLiteralAsWritten | src/parse/string/shift/operand/date.ts:8-9 | as written: "d", a quote, and a last character equal to that quote, which a two-character text satisfies |
| DateLiteral.IsDateLiteral | src/parse/string/shift/operand/date.ts:4-9 | the intended test: the written test on texts of at least three characters |
| DateLiteral.ExtractDateLiteralSource | src/parse/string/shift/operand/date.ts:13-15 | the text without its first two characters and its last, or "" when it is shorter than three |
| DateLiteral.LiteralRoundTrip | src/parse/string/shift/operand/date.ts:4-15 | every `d'…'` and `d"…"` form passes the test and gives back its source |
| DateLiteral.LiteralsAreWellFormed | src/parse/string/shift/operand/date.ts:4-15 | every text that passes the intended test is the literal form of its own source |
| DateLiteral.BareQuoteAcceptedAsWritten | src/parse/string/shift/operand/date.ts:8-9 | "d'" passes the written test though no literal form equals it |
| DateLiteral.WriteInvalidDateMessage | src/parse/string/shift/operand/date.ts:20-23 | the message quotes the source first |
| DateLiteral.MessageNamesSource | src/parse/string/shift/operand/date.ts:20-23 | equal messages have equal sources |
| DateLiteral.MaybeParseDate | src/parse/string/shift/operand/date.ts:35-57 | a valid date from the text wins, then one from the well-formed number; with neither, the default message is raised for `true`, the string itself for a non-empty string, and `undefined` is returned when `errorOnFail` is falsy |
| ArkMatch.CreateMatcher | ark/type/match.ts:73-77 | one case per entry, in entry order, testing with the `allows` of the entry's parsed definition and running the entry's morph |
| ArkMatch.FirstAllowingCaseDecides | ark/type/match.ts:78-84 | the first case that allows the data decides the answer; the answer is undefined exactly when no case allows it |
| ArkMatch.LaterCasesNotRun | ark/type/match.ts:79-83 | cases after an allowing one never change the answer, and leading cases that all refuse can be dropped |
| ArkMatch.Call | ark/type/match.ts:78-84 | the loop with its early return answers what `FirstMatch` specifies |
| ArkMatch.MatcherAnswersFirstEntry | ark/type/match.ts:73-84 | a matcher built from a record answers with the morph of the first entry whose definition allows the data |
| TypeBranches.BranchPass | ark/schema/types/type.ts:518-566 | the inner loop over the right branches for one left branch computes the pass the specification `PassFrom` describes |
| TypeBranches.FlushPass | ark/schema/types/type.ts:563-566 | the current batch of candidates is appended to each still-live right branch's list |
| TypeBranches.IntersectBranches | ark/schema/types/type.ts:502-573 | the two nested loops and the final collection compute the branch list the specification `IntersectBranchesSpec` describes |
| TypeBranches.IntersectBranchesOrigin | ark/schema/types/type.ts:502-573 | every resulting branch is a left branch, a right branch or the intersection of a left and a right branch |
| TypeBranches.AllDisjointGivesNoBranch | ark/schema/types/type.ts:534-538 | when every pair of branches is disjoint the result is empty |
| TypeBranches.EmptyOperandGivesNoBranch | ark/schema/types/type.ts:502-573 | an operand without branches (never) gives no branch |
| TypeBranches.PassFromPrunes | ark/schema/types/type.ts:527-556 | one pass only ever prunes a right branch that the left branch equals or is a supertype of, and that right branch is then among the final branches |
| TypeBranches.SubsumedRightBranchPruned | ark/schema/types/type.ts:548-556 | a right branch that a left branch equals or contains, met before the pass breaks, is pruned of its candidates and is itself in the result |
| TypeBranches.LeftSubtypeDiscardsPass | ark/schema/types/type.ts:539-547 | when the left branch is a subtype of a right branch the pass ends there, adds the left branch to the result and discards the batch of candidates |
| TypeBranches.UnionIntersect | ark/schema/types/type.ts:177-194 | the union keeps itself when some branch survives; with none, exactly one empty operand gives a "presence" Disjoint, and otherwise a "union" Disjoint of the branch lists |
| TypeBranches.NeverMeetsNeverAsUnions | ark/schema/types/type.ts:179-191 | two empty unions give a "union" Disjoint, not a presence one |
| TypeIntersection.ConstraintsOf | ark/schema/types/type.ts:273-278 | the constraints are exactly the constraint values among the children, lists flattened |
| TypeIntersection.PrecedesStrictTotal | ark/schema/types/type.ts:279-293 | precedence, then kind name, then reference id is a strict total order on distinct constraints |
| TypeIntersection.SortConstraints | ark/schema/types/type.ts:279-293 | the constraints are rearranged (same multiset) into that order |
| TypeIntersection.OrderedConstraints | ark/schema/types/type.ts:273-296 | the sorted constraints are the basis (when the first is a basis) followed by the refinements; when bases take precedence, there is a basis exactly when some constraint is one |
| TypeIntersection.ValidateRefinements | ark/schema/types/type.ts:381-392 | no error exactly when every refinement applies to the basis; otherwise the parse error names the first refinement that does not |
| TypeIntersection.DefaultDescription | ark/schema/types/type.ts:314-316 | "a value" without constraints; one constraint is described by itself |
| TypeIntersection.NewIntersection | ark/schema/types/type.ts:272-317 | the node is built exactly when every refinement applies to the basis; its constraints are a rearrangement of the children's; otherwise the result is a parse error |
| TypeIntersection.SingleBasisNode | ark/schema/types/type.ts:272-317 | an intersection of one basis has that basis and no refinements |
| TypeIntersection.AddConstraint | ark/schema/types/type.ts:354-378 | the loop computes what the specification `AddFrom` describes |
| TypeIntersection.AddConstraintFirstConflict | ark/schema/types/type.ts:359-364 | the first Disjoint met is returned |
| TypeIntersection.AddConstraintDistinctResults | ark/schema/types/type.ts:365-371 | two distinct merge results, the second not already in the list, are an internal error |
| TypeIntersection.AddConstraintNoMerge | ark/schema/types/type.ts:359-376 | when nothing merges, every existing constraint is kept in order and the receiver itself is appended (as written: `this`, the intersection node, not the new constraint) |
| TypeIntersection.AddConstraintAgreeingMerges | ark/schema/types/type.ts:359-376 | when every merge gives the same result, it is included once, unmerged constraints are kept and the receiver is not appended |
| TypeIntersection.ParseChild | ark/schema/types/type.ts:414-430 | a base attribute is kept, a reducible key parsed into one node, an irreducible key into one node per listed input, and any other key is the parse error "Unexpected intersection schema key '<k>'" |
| TypeIntersection.ParseObjectChildren | ark/schema/types/type.ts:411-431 | all entries parse exactly when no key is unknown; otherwise the error names the first unknown key |
| TypeIntersection.ParseIntersectionChildren | ark/schema/types/type.ts:394-409 | a string is a domain child, a function a proto child, an object is parsed entry by entry; null fails with the host's TypeError; any other value is the parse error "<domain> is not a valid intersection schema input." |
| UnitType.IntersectUnits | ark/schema/types/unit.ts:38-39 | distinct units are a "unit" Disjoint of the two nodes; equal units meet as the node itself |
| UnitType.IntersectUnitsIsIntersection | ark/schema/types/unit.ts:38-45 | a "unit" Disjoint leaves no value both units admit, and a met node admits exactly what both admit |
| UnitType.IntersectDefault | ark/schema/types/unit.ts:40-41 | unit ∩ other keeps the unit exactly when the other node allows its value, and otherwise is an "assignability" Disjoint of the value and the node |
| UnitType.IntersectDefaultIsIntersection | ark/schema/types/unit.ts:40-45 | the kept unit admits exactly what both operands admit; the Disjoint leaves no common value |
| UnitType.NegatedCondition | ark/schema/types/unit.ts:49-50 | the negated condition is the negation of the condition |
| UnitType.ConditionsMatchTraversal | ark/schema/types/unit.ts:44-50 | the condition and its negation print as `=== <serialized>` and `!== <serialized>`, and evaluate to `traverseAllows` and its complement |
| UnitType.UnitDomain | ark/schema/types/unit.ts:48 | every value the node admits has the node's domain |
| UnitType.UndefinedUnitIsKept | ark/schema/types/unit.ts:29-34 | with `preserveUndefined`, `{unit: undefined}` keeps its entry; a key without it would drop the entry |
| UnitBasis.IntersectOwnInner | ark/schema/bases/unit.ts:60-62 | the own-kind intersection is a "unit" Disjoint of the two nodes |
| UnitBasis.IntersectOwnInnerJustified | ark/schema/bases/unit.ts:49-62 | on the distinct units it is reached with, no value is admitted by both |
| UnitBasis.PrimitiveConditions | ark/schema/bases/unit.ts:39-45 | the compiled condition and negation are the printed `===` comparison and its negation |
| UnitBasis.PrimitiveConditionsComplement | ark/schema/bases/unit.ts:39-49 | both texts compare the data argument with the same json text and differ only in the operator; exactly one holds on each value, the condition exactly on the unit |
| UnitBasis.UndefinedUnitCollectsAlone | ark/schema/bases/unit.ts:26-38 | `{unit: undefined}` collects to exactly that entry, with its json and its type json |
| ProtoBasis.Normalize | ark/schema/types/proto.ts:52-53 | a bare constructor becomes `{proto: constructor}`; an object schema is kept |
| ProtoBasis.SerializeProto | ark/schema/types/proto.ts:46-50 | a builtin constructor serialises as its builtin name, any other as its registered reference |
| ProtoBasis.IntersectProtos | ark/schema/types/proto.ts:57-62 | l when l's constructor extends r's, else r when r's extends l's, else a "proto" Disjoint |
| ProtoBasis.IntersectProtosIsIntersection | ark/schema/types/proto.ts:57-74 | given that extension implies instance inclusion and prototype chains are linear, the kept node admits exactly what both admit and the Disjoint leaves no common instance |
| ProtoBasis.IntersectDomain | ark/schema/types/proto.ts:63-66 | proto ∩ domain keeps the proto node exactly when the domain is "object", else a "domain" Disjoint of the object domain and the domain node |
| ProtoBasis.IntersectDomainIsIntersection | ark/schema/types/proto.ts:63-74 | when instances are objects, the kept node admits exactly what both admit and the Disjoint leaves no common value |
| ProtoBasis.NegatedCondition | ark/schema/types/proto.ts:72-73 | the negated condition is the whole condition wrapped in `!( … )` |
| ProtoBasis.Description | ark/schema/types/proto.ts:76-81 | a builtin is described by its object kind description, any other constructor as "an instance of <name>" |
| ProtoBasis.DescriptionDeterminesName | ark/schema/types/proto.ts:76-81 | two user-defined constructors are described alike only when their names agree |
| JsText.IsDotAccessible | ark/schema/io/compile.ts:103-104 | a name is dot-accessible exactly when it matches `^[a-zA-Z_$][a-zA-Z_$0-9]*$`; such a name is non-empty and holds no ".", "[" or quote |
| JsText.JsonQuoteRoundTrip | ark/schema/io/compile.ts:42 | a `JSON.stringify`-quoted key reads back as the key |
| JsText.CodeUnits | ark/schema/parse.ts:126-128 | the UTF-16 code units of a character: the character itself below U+10000, which is never a high surrogate, else a high and a low surrogate that encode it |
| JsText.Utf16Injective | ark/schema/parse.ts:126-128 | distinct strings have distinct UTF-16 code-unit sequences, so the host's `<` is total on distinct keys |
| JsText.StrLtTotal | ark/schema/parse.ts:126-128 | of two distinct strings, one is below the other in the host's `<` |
| JsText.SurrogatePairSortsByHighUnit | ark/schema/parse.ts:126-128 | the host's `<` compares code units, so U+1F600 (high surrogate 0xD83D) sorts before U+FF61, though its code point is above |
| JsValue.JsRemainder | ark/schema/refinements/divisor.ts:85 | the host's `%` truncates: the remainder is smaller than the divisor in magnitude and takes the sign of the dividend |
| Sorting.InsertionSortSorted | ark/schema/parse.ts:126-128 | sorting with a strict total order gives a sorted sequence (and `InsertionSort` keeps the multiset of elements) |
| Sorting.StrictlySortedUnique | ark/schema/parse.ts:126-128 | two strictly sorted arrangements of the same elements are equal, so the comparator's order is the only result |

## Left out

- Executing emitted JavaScript: the model covers the texts only. `compileScope`/`bindCompiledScope` in ark/type/scope.ts and `createTraverse`, `compileType` and `compileNode` in src/nodes/compile.ts are not modelled. The same goes for `compileTraverse` in src/nodes/narrow.ts and the `compile` of src/nodes/predicate/predicate.ts, which iterates an identifier `children` that is not bound in that scope.
- Host type-level inference (`infer`, `distill`, the `MatchParser` types, ast.ts, kinds.ts, src/nodes/infer.ts): it has no run-time behaviour.
- Floating point: numbers are integers, with no `NaN`, infinities or fractions. Decimal bound literals and date-valued bounds are not modelled.
- Foreign semantics are function parameters:
  - the regex engine;
  - the `Date` constructor and the well-formed number parser;
  - `instanceof` and `constructorExtends`;
  - `printable`;
  - the `allows` and `intersect` of child nodes of other kinds;
  - `objectKindDescriptions` and `getExactBuiltinConstructorName`;
  - the type parser behind `new Type(def, scope)`.

  The lemmas that need facts about these parameters take the facts as preconditions. Examples are transitivity of prototype extension and the linearity of prototype chains.
- Strings are sequences of Unicode characters. The host's `<` is modelled on their UTF-16 code units (`JsText.StrLt`), but lengths and positions (`JsSlice`, `IndexOf`, `LastIndexOf`, `At`) count characters, where the host counts code units. They agree on texts without characters above U+FFFF, and differ by one position for each such character before the position.
- JavaScript `in` sees the prototype chain; the model checks only own properties. The same goes for lookups in the plain `{}` objects `aliases` and `parseCache` of ArkScope.Scope: an inherited name such as "constructor" is found by the host and not by the model. (The ids that key the cache of SchemaParse.Finish start with a kind name followed by JSON, so they are never inherited names.)
- NodesPredicate.New: the constructor calls `validateRuleKeys` (src/nodes/predicate.ts:34, 213-216), which runs `getConstraint("divisor")`, a `find` over `this.constraints`, before line 36 assigns `constraints`. The model takes that lookup to succeed and to change nothing. That holds only if the base `Node` constructor sets `constraints` first; src/nodes/node.ts is not part of this model. If it does not, every construction throws a TypeError in the host.
- The module-level `parseCache` of ark/schema/parse.ts:104 is only read (ark/schema/parse.ts:181-182), never written, so in the host its cache branch never fires. SchemaParse.Finish takes the cache as a parameter and states what a hit would return.
- `implementation.addContext` (ark/schema/parse.ts:125) and the `ctx` passed to each key's parser (ark/schema/parse.ts:137) are not modelled: no `addContext` is defined in the files of this model, and a key parser is a function of the value alone (any scope it reads is captured by the closure).
- Process-global singletons (`intersectionCache`, `$ark`, `Scope.keywords`) are explicit state objects passed to the operations.
- Helpers whose source is not part of this model are defined by the behaviour the tests fix:
  - `isStricterThan`, `overlapsRange` and `overlapIsUnit` (range.js) are closed forms over the bounds;
  - `appendUnique` appends when absent;
  - `intersectUniqueLists` is the left list, then the right elements it lacks;
  - `listFrom` wraps a single element in a list.
- `parseGenericParams`, the string parser and node creation are parameters of ArkScope.
- Of the `Scope` constructor, only the fields it sets are modelled. The export, import and alias-preparation loops and `maybeResolve` are not.
- `Object.entries` key order: the model takes insertion order everywhere. The host lists integer-like keys first. This matters for ArkMatch (a case keyed "1" would be tried first) and for the resolutions map.
- ArkMatch.Call: `None` stands for `undefined`. A morph that itself returns `undefined` is therefore not told apart from no match. The empty context object passed to the morph is not modelled.
- The placeholder methods of ark/schema/types/type.ts:69-134 return `this` or `true` and have no behaviour to state.
- `IntersectionNode.intersectSymmetric` (ark/schema/types/type.ts:324-348) is not modelled. It restarts from `this.constraints` on every iteration, so it states nothing beyond `addConstraint`. `addConstraint` itself is modelled as written: with no merge it appends `this`.
- Keyword and config tables (ark/type/scopes, ark/schema/keywords), tooling, docs and UI files, re-export files, ark/schema/schema.ts, ark/schema/src/types/unit.ts and constant kind lists belong to no operation of the core.
- `serializeRegex` relies on the host, which writes flags in alphabetical order. The model takes the flags as given and requires them to be slash-free, as the host guarantees.
- NodesPredicate.Intersect and NodesPredicate.Constrain return the keyed `resultInput` object. The node that `new PredicateNode(resultInput)` then makes of an object, where a rule list is expected, is not modelled.
- PredicateRules: `getConstraints` is defined outside the file and is taken to read the field of that kind. `constraintKindNames` is taken as the `Constraints` keys in declared order, without `basis`. `references` and `meta` are not modelled.
- NodesProps.Intersection assumes the index tuples of the two nodes are distinct objects. Tuples shared between the two sides are not modelled.
- RequiredProp: a symbol key leaves `key` out of the error context JSON, because a symbol is not serialisable. The text of the invalid-operand message is not modelled.
- Constraint: `compile` only delegates to `compilePrimitive` of the node compiler, which is not part of this model.
- `compile` of src/nodes/props.ts collects no checks, because its loop is commented out. It is the constant `NodesProps.CompiledProps`, "true".

## Findings

| source | as written | input that shows it | evidently intended | confidence | as-written member | corrected member |
|---|---|---|---|---|---|---|
| ark/schema/io/compile.ts:62-81 | the "object" domain check is dropped when some discriminant's joined path merely starts with the current joined path as a string; a domain or value check is dropped when a discriminant's joined path equals the joined current path | a discriminant at path ["ab"] and a check at path ["a"]: the check is dropped though no discriminant covers ["a"]; a value discriminant at ["a,b"] drops the value check at ["a", "b"] | drop it only when the current path is a segment-wise prefix of a discriminant's path; the corrected check also compares the discriminant's own path with the current one segment by segment, where as written `d.path.join() === pathString` (ark/schema/io/compile.ts:74-76) treats ["a,b"] and ["a", "b"] as the same path | not executed; medium | IoCompile.CompileCheckAsWritten, IoCompile.SiblingPathDropsObjectCheck, IoCompile.JoinedPathsCoincideAsWritten | IoCompile.CompileCheck, IoCompile.CorrectedCheckDropsLess |
| ark/schema/types/morph.ts:100 (and ark/schema/sets/morph.ts:103) | morph lists conflict when some index of l's list differs from r's at that index | l = [f], r = [f, g] is accepted, while l = [f, g], r = [f] is an "Invalid intersection of morphs" error | the lists conflict whenever they differ, in either order | not executed; high | MorphType.IntersectSymmetricAsWritten, MorphType.IntersectAsWrittenDependsOnOrder, MorphType.MorphListsConflictAsWrittenIsAsymmetric, MorphSet.IntersectRightwardAsWritten, MorphSet.ShortMorphMeetsLongAsWritten | MorphType.IntersectSymmetric, MorphType.IntersectSymmetricOrderIndependent, MorphSet.IntersectRightward, MorphSet.RightwardAsWrittenAcceptsExtension |
| src/nodes/props.ts:48-49 | `k in l` and `k in r` test the PropsNode objects, whose keys are their fields, not their named props | `{a: pl}` ∩ `{a: pr}` without index signatures gives `{a: pr}`, and `pl` is dropped | test `k in l.named` and `k in r.named`, so that a shared key is intersected | not executed; high | NodesProps.SharedKeyAsWritten | NodesProps.SharedKeyIsIntersected, NodesProps.IntersectedNamedProps |
| src/nodes/predicate/predicate.ts:60-63 | the `unit` field initialiser reads `this.basis` before `Object.assign` in the constructor has set it | a node whose only constraint is a unit basis has `unit` undefined | `unit` is the basis when it is a unit and the only child | not executed; medium | PredicateRules.UnitAsWritten, PredicateRules.UnitNeverSetAsWritten | PredicateRules.Unit |
| src/nodes/predicate/predicate.ts:139 | one child is described as `${this.basis}` | a node whose only constraint is a divisor is described "undefined" | describe the only child | not executed; medium | PredicateRules.DescribeAsWrittenUndefined | PredicateRules.Describe, PredicateRules.DescribeDependsOnChildren |
| src/nodes/predicate/predicate.ts:159-161 | `constrain` intersects with `new PredicateNode([constraint])`, a list that `Object.assign` turns into index keys only | constraining a node without constraints returns an empty node, without the new constraint | pass the constraint under its kind, so the intersection keeps it | not executed; medium | PredicateRules.Constrain, PredicateRules.ConstrainDropsConstraint | PredicateRules.ConstrainIntended, PredicateRules.ConstrainIntendedAdds |
| ark/type/scope.ts:779-783 | a local generic's name is cut from the "#"-stripped name at the "<" index found in the original key | "#box<t>" gets the name "box<" | cut one character earlier for a local key | not executed; high | ArkScope.LocalGenericNameAsWritten, ArkScope.BoxNamedWithBracket | ArkScope.ParseScopeKey, ArkScope.ScopeKeyRoundTrip |
| src/parse/string/shift/operand/date.ts:8-9 | the closing quote is compared with `s.at(-1) === s[1]`, which the opening quote itself satisfies in a two-character text | "d'" is a date literal, though no `d'…'` form equals it | require at least three characters | not executed; low | DateLiteral.IsDateLiteralAsWritten, DateLiteral.BareQuoteAcceptedAsWritten | DateLiteral.IsDateLiteral, DateLiteral.LiteralRoundTrip, DateLiteral.LiteralsAreWellFormed |
