# Tree constructors and the constraint algebra of a resource-bound analysis

This project models two small pieces of an amortized resource-analysis engine
for a functional language over binary trees, and proves their properties in
Dafny.

1. The **tree constructor** expression node (`Tuple`): a node with exactly
   three elements (left subtree, value, right subtree). Its operations are the
   two size-checking constructors, the getters, free variables, renaming,
   the step into administrative normal form (ANF, where every compound
   element is first bound to a fresh name), and unsharing (an identifier used
   as both subtrees is duplicated through an explicit share node).
2. The **constraint algebra**: the conjunction and the unsatisfiable sentinel of
   the constraint hierarchy, with substitution of coefficients, the set of
   occurring coefficients, encoding, the diagnostics graph and the text of a
   conjunction. The source keeps these two kinds in two packages
   (`lac` and `atlas`), and their `encode` methods take different parameters.
   Here they are one datatype. Encoding becomes evaluation under a valuation
   of the unknown coefficients over the exact reals.

Files:

- `wrappers.dfy`: `Option` and `Result`. The source's exceptions become `Err` values with the same message.
- `expressions.dfy` (module `Expressions`): names, types, provenance, the `Expr` datatype, and the pure tuple operations.
- `anf.dfy` (module `Anf`): normalization and unsharing. Each is first a function over an explicit `State` (the binding stack and the next id); the lemmas are proved about these functions. Each is then a method over the mutable `NormalizationStack` and `IdGenerator` objects, proved equal to its function.
- `constraints.dfy` (module `Constraints`): coefficients, valuations, the `Constraint` datatype and its operations.

Modelling decisions:

- Identifier equality is structural, by name. Names made by the id generator form their own constructor, `Fresh(id)`. So two ids that differ always give two different names.
- `forceImmediate`, `isImmediate` and `ShareExpression.clone` are not shown in the source.
  - `IsImmediate` is true for identifiers. For other kinds of expression (`Other`), the node records the answer.
  - `ForceImmediate` returns an immediate expression unchanged. It binds a compound one to `Fresh(next)` on top of the stack.
  - `Clone` returns `Fresh(next)` and `Fresh(next + 1)`. Freshness is relative to the counter: `IdsBelow(e, n)` says every generated name in `e` was made from an id below `n`, and under it the copies and the temporaries are proved not to occur in the input.
- `normalize` rebuilds the node with the constructor that takes no type. So the normalized tuple has no type (`ty == None`). The source records the original node itself as the provenance of the new one (`Derived.anf(this)`, and `Derived.rename(this)` for renaming); the model records only the original node's provenance, wrapped as `DerivedAnf` or `DerivedRename`.
- The share node records the original name, the two copies and the body. The source also passes the original tuple to the share node's constructor. That argument is provenance only and is not modelled.
- `Equality` and `LessEqual` between two coefficients stand for the atomic constraint kinds. Their own files are not part of this model. On them, `Replace`, `Coefficients` and `Encode` are the natural structural definitions, and `ToGraph` adds the two coefficients and an edge between them.
- `ConjunctiveConstraint.toGraph` always fails (ConjunctiveConstraint.java:43-45); `UnsatisfiableConstraint.toGraph` returns its graph unchanged (UnsatisfiableConstraint.java:29-33, marked TODO).

## Model

| member | source | states |
|---|---|---|
| `Expressions.NewTuple` | typechecker/src/main/java/xyz/leutgeb/lorenz/lac/ast/Tuple.java:25-31 | construction fails, with the size message, exactly when there are not three elements; otherwise the tuple holds exactly the given elements and source and has no type, and it is well formed when its elements are |
| `Expressions.NewTypedTuple` | typechecker/src/main/java/xyz/leutgeb/lorenz/lac/ast/Tuple.java:33-40 | the same size check and message for the typed constructor; on success the tuple carries the given type |
| `Expressions.GettersReadBackElements` | typechecker/src/main/java/xyz/leutgeb/lorenz/lac/ast/Tuple.java:42-52 | for a tuple built from `[l, m, r]` by either constructor, left is `l` (element 0), middle is `m` (element 1) and right is `r` (element 2) |
| `Expressions.TupleFromGetters` | typechecker/src/main/java/xyz/leutgeb/lorenz/lac/ast/Tuple.java:42-52 | a tuple is exactly its provenance, its type and the three getters' results in order |
| `Expressions.TupleFreeVars` | typechecker/src/main/java/xyz/leutgeb/lorenz/lac/ast/Tuple.java:137-140 | a name is free in a tuple iff it is free in the left or the right subtree; the middle element does not count |
| `Expressions.RenameTuple` | typechecker/src/main/java/xyz/leutgeb/lorenz/lac/ast/Tuple.java:82-88 | renaming a tuple keeps its element count, puts the renamed i-th element at position i, keeps the type and marks the provenance as derived by renaming |
| `Expressions.RenameWellFormed` | typechecker/src/main/java/xyz/leutgeb/lorenz/lac/ast/Tuple.java:82-88 | renaming keeps every tuple at exactly three elements |
| `Expressions.RenameFreeVars` | typechecker/src/main/java/xyz/leutgeb/lorenz/lac/ast/Tuple.java:82-88 | for expressions without share nodes, the free variables after renaming are the renamed free variables |
| `Anf.ForceImmediate` | typechecker/src/main/java/xyz/leutgeb/lorenz/lac/ast/Tuple.java:77 | forcing gives an immediate expression; an immediate one passes through with the state unchanged; a compound one becomes an identifier with the next id's name, bound to it on top of the stack, and the counter advances |
| `Anf.ForceAll` | typechecker/src/main/java/xyz/leutgeb/lorenz/lac/ast/Tuple.java:76-78 | forcing a list of elements keeps its length and makes every element immediate |
| `Anf.ForceAllBindings` | typechecker/src/main/java/xyz/leutgeb/lorenz/lac/ast/Tuple.java:76-78 | forcing keeps the old stack below; with the stand-in for forcing (one binding per compound element, the element bound as it is), it pushes bindings for exactly the compound elements, in order, under the distinct names `Fresh(next + k)`, and the counter advances by their number |
| `Anf.ForceAllFresh` | typechecker/src/main/java/xyz/leutgeb/lorenz/lac/ast/Tuple.java:76-78 | when every element's ids are below the counter, no pushed temporary's name occurs in any element, the counter never decreases, and every forced element's ids are below the new counter |
| `Anf.ForceAllInOrder` | typechecker/src/main/java/xyz/leutgeb/lorenz/lac/ast/Tuple.java:76-78 | the i-th forced element is forceImmediate of the i-th original element, in the state left by forcing the elements before it |
| `Anf.ForceAllImmediate` | typechecker/src/main/java/xyz/leutgeb/lorenz/lac/ast/Tuple.java:71-73 | when all elements are immediate, forcing returns them unchanged and leaves the state alone |
| `Anf.Normalize` | typechecker/src/main/java/xyz/leutgeb/lorenz/lac/ast/Tuple.java:70-79 | all three elements immediate: the very same node and state; otherwise a three-element tuple derived by normalization, without a type, whose i-th element is forceImmediate of the i-th original element in order; every result element is immediate |
| `Anf.NormalizeBindings` | typechecker/src/main/java/xyz/leutgeb/lorenz/lac/ast/Tuple.java:70-79 | normalization keeps the old stack below; with the stand-in for forcing, it pushes exactly the bindings of the compound elements and advances the counter by their number (nothing, when all are immediate) |
| `Anf.NormalizeFresh` | typechecker/src/main/java/xyz/leutgeb/lorenz/lac/ast/Tuple.java:70-79 | when the tuple's ids are below the counter, none of the pushed temporaries occurs in the tuple, and the normalized tuple's ids are below the new counter |
| `Anf.NormalizeIdempotent` | typechecker/src/main/java/xyz/leutgeb/lorenz/lac/ast/Tuple.java:70-79 | normalizing a normalized tuple returns it unchanged, in any state, with no bindings pushed |
| `Anf.NormalizeWith` | typechecker/src/main/java/xyz/leutgeb/lorenz/lac/ast/Tuple.java:70-79 | the method over the binding stack and the id generator returns what `Normalize` returns and leaves the stack and the counter as `Normalize` says |
| `Anf.ForceImmediateWith` | typechecker/src/main/java/xyz/leutgeb/lorenz/lac/ast/Tuple.java:77 | the method form of `ForceImmediate` over the stack and generator objects |
| `Anf.IdGenerator.Generate` | typechecker/src/main/java/xyz/leutgeb/lorenz/lac/ast/Tuple.java:129 | hands out the current id and advances the counter by one |
| `Anf.NormalizationStack.Push` | typechecker/src/main/java/xyz/leutgeb/lorenz/lac/ast/Tuple.java:77 | pushes one binding on top of the stack, leaving the rest |
| `Anf.Clone` | typechecker/src/main/java/xyz/leutgeb/lorenz/lac/ast/Tuple.java:129 | the two copies are the names made from the next two ids, so they are distinct, and two ids are used |
| `Anf.CloneWith` | typechecker/src/main/java/xyz/leutgeb/lorenz/lac/ast/Tuple.java:129 | the method form of `Clone` over the id generator |
| `Anf.UnshareFails` | typechecker/src/main/java/xyz/leutgeb/lorenz/lac/ast/Tuple.java:123-125 | unsharing fails, with "must be in anf", exactly when the left or the right element is not an identifier |
| `Anf.UnshareDistinct` | typechecker/src/main/java/xyz/leutgeb/lorenz/lac/ast/Tuple.java:126-128 | for two different identifiers, the same node comes back and no id is drawn |
| `Anf.UnshareSame` | typechecker/src/main/java/xyz/leutgeb/lorenz/lac/ast/Tuple.java:129-134 | for the same identifier twice, the result is a share node recording the original name and two distinct copies; its body has the two copies as left and right, with the same middle, provenance and type; two ids are drawn |
| `Anf.UnshareFresh` | typechecker/src/main/java/xyz/leutgeb/lorenz/lac/ast/Tuple.java:129-134 | when the tuple's ids are below the counter, neither copy is the shared name or any name occurring in the tuple, and the result's ids are below the advanced counter |
| `Anf.UnshareLinear` | typechecker/src/main/java/xyz/leutgeb/lorenz/lac/ast/Tuple.java:126-134 | after a successful unshare, the tuple in the result has distinct identifiers as left and right, and unsharing it again, with any counter, is a no-op |
| `Anf.UnshareFreeVars` | typechecker/src/main/java/xyz/leutgeb/lorenz/lac/ast/Tuple.java:129-140 | unsharing keeps the expression well formed and keeps its free variables |
| `Anf.UnshareWith` | typechecker/src/main/java/xyz/leutgeb/lorenz/lac/ast/Tuple.java:120-135 | the method over the id generator agrees with `Unshare`: the same success or failure, the same result and the same advance of the counter; on failure the counter does not move |
| `Constraints.NewConjunctive` | typechecker/src/main/java/xyz/leutgeb/lorenz/lac/typing/resources/constraints/ConjunctiveConstraint.java:25-32 | construction fails, with "elements cannot be empty", exactly when the list is empty; otherwise the conjunction holds exactly the given elements and reason |
| `Constraints.NewConjunctiveWellFormed` | typechecker/src/main/java/xyz/leutgeb/lorenz/lac/typing/resources/constraints/ConjunctiveConstraint.java:25-32 | a conjunction built from well-formed elements is well formed (every conjunction in it non-empty) |
| `Constraints.EncodeAllEvery` | typechecker/src/main/java/xyz/leutgeb/lorenz/lac/typing/resources/constraints/ConjunctiveConstraint.java:35-40 | the fold of AND over a list holds iff every element holds |
| `Constraints.EncodeConjunctive` | typechecker/src/main/java/xyz/leutgeb/lorenz/lac/typing/resources/constraints/ConjunctiveConstraint.java:35-40 | a conjunction holds under a valuation iff every element holds under that same valuation |
| `Constraints.ConjunctiveWithUnsatisfiable` | src/main/java/xyz/leutgeb/lorenz/atlas/typing/resources/constraints/UnsatisfiableConstraint.java:22-27 | a conjunction with an unsatisfiable element holds under no valuation |
| `Constraints.CoefficientsAllUnion` | typechecker/src/main/java/xyz/leutgeb/lorenz/lac/typing/resources/constraints/ConjunctiveConstraint.java:55-60 | a coefficient is in the flattened set of a list iff it occurs in some element |
| `Constraints.CoefficientsConjunctive` | typechecker/src/main/java/xyz/leutgeb/lorenz/lac/typing/resources/constraints/ConjunctiveConstraint.java:55-60 | the coefficients of a conjunction are exactly the union of its elements' coefficients |
| `Constraints.EncodeDependsOnOccurring` | typechecker/src/main/java/xyz/leutgeb/lorenz/lac/typing/resources/constraints/ConjunctiveConstraint.java:35-60 | two valuations that agree on every occurring unknown give a constraint the same truth value, so a mapping of only the occurring coefficients suffices for encoding |
| `Constraints.EncodeAllDependsOnOccurring` | typechecker/src/main/java/xyz/leutgeb/lorenz/lac/typing/resources/constraints/ConjunctiveConstraint.java:35-60 | the same for a list of elements |
| `Constraints.ReplaceAll` | typechecker/src/main/java/xyz/leutgeb/lorenz/lac/typing/resources/constraints/ConjunctiveConstraint.java:48-52 | replacing in a list keeps its length |
| `Constraints.ReplaceAllAt` | typechecker/src/main/java/xyz/leutgeb/lorenz/lac/typing/resources/constraints/ConjunctiveConstraint.java:48-52 | the i-th replaced element is the replacement in the i-th element |
| `Constraints.ReplaceConjunctive` | typechecker/src/main/java/xyz/leutgeb/lorenz/lac/typing/resources/constraints/ConjunctiveConstraint.java:48-52 | replacing in a conjunction gives a conjunction with the same reason and number of elements, whose i-th element is the replacement in the i-th element |
| `Constraints.ReplaceWellFormed` | typechecker/src/main/java/xyz/leutgeb/lorenz/lac/typing/resources/constraints/ConjunctiveConstraint.java:25-52 | replacement keeps every conjunction non-empty, so rebuilding never fails the constructor's check |
| `Constraints.ReplaceCoefficients` | typechecker/src/main/java/xyz/leutgeb/lorenz/lac/typing/resources/constraints/ConjunctiveConstraint.java:48-60 | the coefficients after replacement are the old ones with the target, if it occurred, swapped for the replacement, and nothing else changed |
| `Constraints.ReplaceAllCoefficients` | typechecker/src/main/java/xyz/leutgeb/lorenz/lac/typing/resources/constraints/ConjunctiveConstraint.java:48-60 | the same for a list of elements |
| `Constraints.ReplaceRemovesTarget` | typechecker/src/main/java/xyz/leutgeb/lorenz/lac/typing/resources/constraints/ConjunctiveConstraint.java:48-60 | after replacing a coefficient by a different one, it no longer occurs |
| `Constraints.ConjunctiveReplaceRemovesTarget` | typechecker/src/main/java/xyz/leutgeb/lorenz/lac/typing/resources/constraints/ConjunctiveConstraint.java:48-60 | when replacement removes the target from every element, it removes it from the conjunction |
| `Constraints.ReplaceEncode` | typechecker/src/main/java/xyz/leutgeb/lorenz/lac/typing/resources/constraints/ConjunctiveConstraint.java:35-52 | replacing an unknown by a coefficient holds under a valuation iff the original holds with that unknown set to the coefficient's value |
| `Constraints.ReplaceAllEncode` | typechecker/src/main/java/xyz/leutgeb/lorenz/lac/typing/resources/constraints/ConjunctiveConstraint.java:35-52 | the same for a list of elements |
| `Constraints.UnsatisfiableInert` | src/main/java/xyz/leutgeb/lorenz/atlas/typing/resources/constraints/UnsatisfiableConstraint.java:22-43 | the sentinel is false under every valuation whatever its reason; it has no coefficients; every replacement returns it unchanged, and so it still has none |
| `Constraints.Children` | typechecker/src/main/java/xyz/leutgeb/lorenz/lac/typing/resources/constraints/ConjunctiveConstraint.java:71-73 | the children of a conjunction are exactly its elements, in order |
| `Constraints.ChildrenCoefficients` | typechecker/src/main/java/xyz/leutgeb/lorenz/lac/typing/resources/constraints/ConjunctiveConstraint.java:55-73 | the coefficients of a conjunction are those of its children |
| `Constraints.ToGraph` | src/main/java/xyz/leutgeb/lorenz/atlas/typing/resources/constraints/UnsatisfiableConstraint.java:29-33 | the sentinel returns its input graph unchanged; a conjunction always fails, with "cannot convert conjunctive constraint to graph" (ConjunctiveConstraint.java lines 43-45); other kinds only add to the graph |
| `Constraints.JoinLength` | typechecker/src/main/java/xyz/leutgeb/lorenz/lac/typing/resources/constraints/ConjunctiveConstraint.java:62-68 | joining puts exactly one separator between neighbouring parts |
| `Constraints.JoinEnds` | typechecker/src/main/java/xyz/leutgeb/lorenz/lac/typing/resources/constraints/ConjunctiveConstraint.java:62-68 | the joined text starts with the first part |
| `Constraints.ShowAll` | typechecker/src/main/java/xyz/leutgeb/lorenz/lac/typing/resources/constraints/ConjunctiveConstraint.java:62-68 | there is one text per element |
| `Constraints.ShowAllAt` | typechecker/src/main/java/xyz/leutgeb/lorenz/lac/typing/resources/constraints/ConjunctiveConstraint.java:62-68 | the i-th text is the text of the i-th element |
| `Constraints.ShowConjunctive` | typechecker/src/main/java/xyz/leutgeb/lorenz/lac/typing/resources/constraints/ConjunctiveConstraint.java:62-68 | a non-empty conjunction is written as its elements' texts, in order, joined by " ∧ " inside parentheses; it is never written "true" |

## Left out

- `Native.java`: native-library loading, temporary files and process-global state. It is pure I/O and not part of this model.
- The solver types (context, Boolean and arithmetic expressions, the coefficient-to-variable map) and the rational/real domain parameter. Encoding is modelled as evaluation under a valuation from unknown ids to reals.
- `Tuple.inferInternal`: simple type inference, which depends on the unification context. That context is not part of this model.
- `Tuple.printTo`, `printHaskellTo` and `toString`: printing to a stream and the tuple's text.
- `Tuple.getChildren`: a stream of the elements. The model reads `elements` directly.
- `Tuple.isTerminal`: it returns the constant true for every tuple and has no further logic.
- The bodies of `forceImmediate`, `isImmediate` and `ShareExpression.clone` are not part of this model. They are abstracted as described above. In particular, forcing does not normalize the compound element it binds.
- Anf.ForceAllBindings: the exact count of pushed bindings and of ids drawn holds for the stand-in for forcing only. In the program, forcing also normalizes the compound element it binds, which may push further bindings and draw further ids. The prefix property of the stack and the freshness of the temporaries (`ForceAllFresh`) do not depend on that count.
- Anf.NormalizeBindings: the same restriction as `ForceAllBindings`, for a whole tuple.
- The `lazy` parameter of `Tuple.unshare`: the tuple's body does not use it, so `Unshare` has no such parameter.
- Lombok-generated equality and hashing: structural equality of the datatypes stands in for them.
- The texts of atomic constraints, of the sentinel and of coefficients. `Show` takes them as a parameter.
- The null check on the conjunction's element list: Dafny values are never null.
- `Constraints.Replace`: on a conjunction with no elements, the source's rebuild would fail. The model returns an empty conjunction there. Such a value is never well formed, and `ReplaceWellFormed` shows that well-formed input never reaches that case.
