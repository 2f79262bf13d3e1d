# code-sweep: the unused-code scanner and its two rewriters

code-sweep finds unused variables, functions, JSX components and exports in
JavaScript/TypeScript files. It can list them, comment them out, or delete them.
This project models the three functions of `lib.js` that hold the decisions.

- `findUnused` makes two passes over the parsed file.
  - Pass 1 records declarations, exports and imports.
  - Pass 2 crosses off every declared name that a qualifying reference mentions.
  - The report lists what is left, in first-declaration order. It also lists the exported names that no import specifier brings in.
- `commentCode` wraps a declaration in a `/* TODO: Unused ... */` block comment when its name was not counted as used.
- `deleteCode` removes a declaration on exit from its node when its name was not counted as used.

A syntax tree is represented by only what the visitors read (`Syntax`):

- A `Node` records its type and the name it carries.
- An identifier also records the type of its parent and the scope's answer to `hasBinding`. Both come from Babel and are inputs here.
- A `Tree` generates two views. Its pre-order node sequence is what `findUnused` and `commentCode` walk. Its Enter/Exit event sequence is what `deleteCode` reacts to.
- `WellFormed` ties each identifier's recorded parent type to its real parent in the tree. It also places a declaration's binding identifier as its first child.
- A JavaScript `Set` is a duplicate-free sequence in insertion order (`OrderedSets`). A set that is only queried with `has` is a plain `set`.

What the proofs establish:

- Each list `findUnused` reports is exactly the names declared of that kind minus the names a reference credits. Both directions of that equivalence are stated in terms of the nodes.
- Each list is duplicate-free and in first-declaration order.
- The components list is always empty, because pass 2 credits every JSX name that pass 1 recorded.
- Name resolution ignores scope. The comments at lib.js:91, lib.js:200 and lib.js:222 speak of checking the binding in scope and of tracking per scope, but the unused sets are flat name sets. `hasBinding` is answered in the identifier's own scope chain, yet nothing checks that the binding it finds is the declaration being credited. A name declared in one function therefore counts as used when a same-named variable is read in another function (`Scenarios.TwoScopesShareAName`). The model follows the code.
- An identifier whose parent is a variable declarator never counts as a reference. This covers the declarator's binding identifier, and also an initializer that is itself a bare identifier: in `const a = b`, the `b` does not keep `b` alive (`Scenarios.InitializerNotCounted`). An identifier deeper inside an initializer does count: in `const a = b + 1`, the `b` keeps `b` alive (`Scenarios.InitializerExpressionCounts`).
- `commentCode` counts a plain-identifier declaration's own binding identifier as a use, so on any well-formed tree (all of whose declarations are plain-identifier declarations) it wraps nothing.
- The marker `commentCode` writes reads back as the declaration's source exactly when that source contains no `*/` of its own. A block comment inside a wrapped function closes the marker early (`Commenting.MarkerClosesEarly`).
- `deleteCode` clears its sets on every node it enters, so it removes every declaration it exits, used or not. The body it leaves is the body with every declaration subtree pruned, and a fresh scan of it reports no unused variable or function.

The last two are recorded under Findings, each with the evidently intended rewrite beside it. The intended rewrite is driven by the `findUnused` classification.

## Model

| member | source | states |
|---|---|---|
| Liveness.FindUnused | lib.js:34-135 | unused variables (and functions) are the pass-1 names of that kind, deduplicated in first-declaration order, minus every name pass 2 credits; components is always empty; unused exports are the exported names, deduplicated in export order, that no import specifier names |
| Liveness.DeclareStepDeclared | lib.js:50-82 | one pass-1 visitor adds the node's name to the declared set of its kind, or its local name to the imports |
| Liveness.DeclareStepUnused | lib.js:50-82 | one pass-1 visitor appends the node's name to the unused list of its kind (or its exported names to the exports) unless already present |
| Liveness.DeclareAllRecords | lib.js:50-82 | after pass 1 each declared set holds exactly the names recorded, and each unused list and the export list is the recorded names without duplicates, in first-occurrence order |
| Liveness.ResolveStepVariables | lib.js:86-99 | one pass-2 visitor removes from the unused variables exactly the name of an identifier that counts as a reference |
| Liveness.ResolveStepFunctions | lib.js:86-108 | one pass-2 visitor removes from the unused functions the name of a counting identifier or of a plain-identifier callee, and nothing else |
| Liveness.ResolveStepComponents | lib.js:110-115 | one pass-2 visitor removes a JSX name from the unused components |
| Liveness.ResolveStepKeeps | lib.js:85-116 | pass 2 changes neither the declared sets nor the exports and imports |
| Liveness.ResolveAllDeletes | lib.js:85-116 | pass 2 only deletes: each unused list ends as its pass-1 value minus every credited name, order kept |
| Liveness.ComponentsCreditedAsRecorded | lib.js:77-115 | the JSX names pass 2 credits are exactly the JSX names pass 1 recorded as components |
| Liveness.ReportMembership | lib.js:119-134 | a name is reported exactly when it was recorded and not credited (exports: recorded as exported and not imported) |
| Liveness.DeclaresIff | lib.js:50-82 | a name is recorded as a variable, function, component, import or export exactly when a node of the matching kind carries it |
| Liveness.CreditsIff | lib.js:85-108 | a name is credited as a variable exactly when a counting identifier carries it, and as a function also when a call names it as a plain callee |
| Liveness.UnusedVariablesIff | lib.js:86-99 | a name is an unused variable iff some declarator declares it and no identifier of that name has a non-declaration parent and a binding in scope |
| Liveness.UnusedFunctionsIff | lib.js:86-108 | a name is an unused function iff it is declared as a function, no counting identifier carries it, and no call has it as plain callee |
| Liveness.UnusedExportsIff | lib.js:61-119 | a name is an unused export iff some export statement exports it and no import specifier has it as local name |
| Liveness.ReportOrder | lib.js:128-134 | each reported list is duplicate-free, ordered by first declaration (or first export), drawn from the pass-1 declared set, and a subsequence of the pass-1 unused list |
| Liveness.DeclarationSitesNeverCount | lib.js:86-92 | a declared variable whose identifiers all sit under a declarator or function declaration is reported |
| Liveness.CallCreditsFunction | lib.js:101-108 | a call whose callee is the plain identifier `f` keeps `f` out of the unused functions, with no binding check |
| Liveness.UnreferencedVariableReported | lib.js:51-99 | a declared variable that no identifier references is reported |
| Liveness.UnreferencedFunctionReported | lib.js:56-108 | a declared function that no identifier references and no call names is reported |
| Liveness.ReferenceCredits | lib.js:86-99 | one counting identifier keeps its name out of both the unused variables and the unused functions |
| Commenting.CollectAllRecords | lib.js:151-163 | step 1 declares exactly the declarator and function-declaration names and counts exactly the JSX names as used |
| Commenting.TrackAllAdds | lib.js:166-175 | step 2 adds to the used names exactly the identifier names that are declared, and changes nothing else |
| Commenting.UsedIdentifiersIff | lib.js:151-175 | a name counts as used iff a JSX identifier carries it, or an identifier carries it and some declaration declares it |
| Commenting.CommentCode | lib.js:144-197 | a declaration is wrapped iff it occurs and neither a JSX identifier nor any identifier carries its name; the wrapped list keeps traversal order |
| Commenting.Unmark | lib.js:182-193 | a text reads back as a source only if it is the kind's header, that source, a newline and the comment close, and that source holds no `*/` |
| Commenting.Marker | lib.js:182-193 | the marker reads back as the declaration's source exactly when the source contains no `*/` |
| Commenting.MarkerRoundTrip | lib.js:182-193 | header, source, newline and comment close read back as the source whenever the source contains no `*/` |
| Commenting.MarkerClosesEarly | lib.js:182-193 | a source containing `*/` ends the marker's comment before the marker's end, so the marker does not read back at all |
| Commenting.CommentCodeWrapsNothing | lib.js:166-196 | when every declaration is followed by its binding identifier, nothing is wrapped |
| Commenting.CommentCodeWrapsNothingInTree | lib.js:166-196 | on a well-formed tree nothing is wrapped |
| Commenting.CommentUnused | lib.js:178-196 | the intended rewrite wraps only declarations that occur, in traversal order |
| Commenting.CommentUnusedVariableIff | lib.js:178-185 | under the intended rewrite a variable is wrapped iff it is declared and no identifier references it |
| Commenting.CommentUnusedFunctionIff | lib.js:187-195 | under the intended rewrite a function is wrapped iff it is declared, no identifier references it and no call names it |
| Commenting.ReportedDeclarationWrapped | lib.js:178-196 | under the intended rewrite every declaration the scanner reports as unused is wrapped |
| Deletion.TrackIdentifiers | lib.js:205-218 | only a name already declared can become used, so with cleared declared sets nothing does; the declared sets grow by the node's own declaration only, and a declaring node marks nothing used |
| Deletion.OnEnter | lib.js:221-231 | after entering any node no identifier is marked used and only the node's own declaration, if any, is declared |
| Deletion.ExitedDeclarations | lib.js:232-239 | the reference list holds exactly the declarations of the exited nodes, in exit order |
| Deletion.DeleteCode | lib.js:199-241 | the declarations removed are exactly the exited declarations, in exit order |
| Deletion.UsedAlwaysEmpty | lib.js:220-240 | at every point of the traversal the used set is empty, so every exited declaration has been removed |
| Deletion.DeleteCodeRemovesEveryDeclaration | lib.js:232-239 | on a tree, a declaration is removed iff the tree contains it |
| Deletion.DeleteCodeRemovesUsed | lib.js:232-239 | a variable declarator in the tree is removed whether or not it is referenced |
| Deletion.PruneForestShape | lib.js:232-239 | the program left after removal contains no declaration, and each node left was in the original |
| Deletion.PruneForestReportsNothing | lib.js:232-239 | a body with every declaration pruned has no unused variable and no unused function |
| Deletion.RemoveListedShape | lib.js:232-239 | after removing the listed declarations, every node left was in the original and none declares a listed declaration |
| Deletion.RemoveAllIsPrune | lib.js:232-239 | removing a list that holds every declaration of the body prunes every declaration |
| Deletion.RemovedNotReported | lib.js:232-239 | once a declaration is removed, a fresh scan does not report its name for its kind |
| Deletion.NothingUnusedAfterDelete | __tests__/index.test.js:81-92 | the body `deleteCode` leaves is the fully pruned body, and a fresh scan of it reports no unused variable and no unused function |
| Deletion.DeleteUnused | lib.js:232-239 | the intended deletion removes an exited declaration iff the scanner reports its name as unused for its kind, in exit order |
| Deletion.DeleteUnusedAgreesWithCommentUnused | lib.js:178-239 | on a tree the intended deletion removes exactly the declarations the intended commenting wraps |
| Deletion.DeleteUnusedKeepsUsed | lib.js:232-239 | the intended deletion keeps any variable or function that some identifier references |
| Deletion.DeleteUnusedRemovedNotReported | __tests__/index.test.js:81-92 | after the intended deletion, a fresh scan of the body left does not report any removed declaration for its kind |
| Scenarios.SampleFilePreOrder | __tests__/index.test.js:25-31 | the sample file's tree walks to the listed node sequence |
| Scenarios.SampleFileWellFormed | __tests__/index.test.js:25-31 | the sample file's tree is well formed |
| Scenarios.SampleFileReportsUnusedVariable | __tests__/index.test.js:57 | `unusedVariable` is among the unused variables |
| Scenarios.SampleFileReportsUnusedFunction | __tests__/index.test.js:58 | `unusedFunction` is among the unused functions |
| Scenarios.SampleFileKeepsUsed | __tests__/index.test.js:59-60 | `usedVariable` and `usedFunction` are not reported |
| Scenarios.SampleFileCommentWrapsNothing | __tests__/index.test.js:94-105 | the comment rewrite wraps nothing in the sample file and `unusedVariable` stays reported |
| Scenarios.SampleFileCommentUnusedWrapsVariable | lib.js:178-185 | the intended rewrite wraps `unusedVariable` |
| Scenarios.SampleFileCommentUnusedWrapsFunction | lib.js:187-195 | the intended rewrite wraps `unusedFunction` |
| Scenarios.SampleFileCommentUnusedKeeps | lib.js:178-196 | the intended rewrite leaves `usedVariable` and `usedFunction` alone |
| Scenarios.SampleFileDeclarationSites | __tests__/index.test.js:26-27 | the two unused declarations sit at positions 2 and 5 of the sample file's pre-order |
| Scenarios.SampleFileDeleteRemovesUsed | __tests__/index.test.js:81-92 | the delete rewrite removes `usedVariable`, which is not reported unused, and a fresh scan of the body it leaves reports nothing |
| Scenarios.SampleFileDeleteUnused | lib.js:232-239 | the intended deletion removes `unusedVariable` and keeps `usedVariable`, and a fresh scan of the body it leaves no longer reports `unusedVariable` |
| Scenarios.InitializerNotCounted | lib.js:86-99 | in `const b = 1; const a = b; console.log(a)` the name `b` is reported unused and `a` is not |
| Scenarios.InitializerExpressionCounts | lib.js:86-99 | in `const b = 1; const a = b + 1; console.log(a)` the name `b` is not reported |
| Scenarios.TwoScopesShareAName | lib.js:86-99 | a variable `x` unused in one function is not reported when another function reads its own `x` |
| Scenarios.TwoScopesUnreferencedFunction | lib.js:56-108 | in the same program the never-called function `f` is reported |

## Findings

| source | as written | input that shows it | evidently intended | confidence | as-written member | corrected member |
|---|---|---|---|---|---|---|
| lib.js:166-175 | step 2 of `commentCode` marks as used every identifier whose name is declared, including the declaration's own binding identifier, so step 3 never wraps a simple declaration | the sample file of __tests__/index.test.js:25-31: `unusedVariable` is reported by `findUnused` yet not wrapped | wrap the declarations that `findUnused` reports as unused | not executed; high | Scenarios.SampleFileCommentWrapsNothing | Commenting.CommentUnused |
| lib.js:221-231 | `deleteCode` clears all three sets on every node entered, so the used set is empty at every exit and every declaration is removed | the sample file: `usedVariable`, returned by `usedFunction`, is removed | remove only the declarations that `findUnused` reports as unused | not executed; high | Scenarios.SampleFileDeleteRemovesUsed | Deletion.DeleteUnused |

## Left out

- `readDirectory` (lib.js:7-23) is left out: it is filesystem I/O whose only logic is a file-extension check.
- `parseFileToAST` (lib.js:26-32) is left out: it is a file read plus a call into the Babel parser. The model starts from the parsed tree.
- `listUnused` and the logging inside `findUnused` are left out: they only print to the console.
- The `filePath` field that `findUnused` echoes back is left out.
- cli.js and index.js are not part of this model: they parse command-line options and dispatch to the functions above.
- Babel's traversal order, `path.scope.hasBinding` and every node's parent type are inputs rather than modelled. The tree records them, and the pre-order and event sequences stand for the traversal.
- `replaceWithSourceString` is left out: the model returns which declarations get wrapped and the marker text, not the re-parsed tree. Whether Babel accepts a bare block comment as replacement source is outside the model.
- `path.remove` is modelled as removing the declaration's subtree (`Deletion.RemoveListed`). Babel's parent-cleanup hooks are left out. They drop a `const` statement emptied of its declarators, and that in turn drops an enclosing `export` statement. The model keeps such an export node, so a fresh scan would still count its names among the exports (lib.js:61-73).
- NothingUnusedAfterDelete: the fresh scan covers the root's children, not the root. The root is the parsed `File` node, which is never a declaration and is never removed.
- Destructuring patterns and anonymous declarations are left out: a declarator or function declaration always carries a plain identifier name. In the source, a destructuring declarator has no `id.name`, so `findUnused` records `undefined` (lib.js:52-54) and `commentCode` would wrap it. An anonymous `export default function () {}` has a null `id`, so reading `id.name` throws (lib.js:57, lib.js:158, lib.js:189, lib.js:209, lib.js:234).
- An export with a nameless declaration is modelled as adding nothing, and an export specifier contributes its exported name only.
- Commenting.CommentUnused: the list also holds declarations nested inside another wrapped declaration. The real rewrite would fold them into the outer comment.
- Deletion.OnEnter: the generic `enter` visitor is modelled as running before the `Identifier` visitor. In the other order the used set is still empty afterwards, because the clear wipes whatever the first tracking added.
- Running `findUnused` twice on the same tree gives the same report. This holds by construction, since `Liveness.FindUnused` is a function of the node sequence alone, so no separate lemma states it.
- The always-empty components list is modelled as written (`Liveness.FindUnused`) and given no corrected version: the source has no notion of a component declaration to compare JSX uses against.
